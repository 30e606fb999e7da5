/**
 * The read side of the five resource controllers: `index` lists the live rows
 * of one table, filtered and ordered, and `show` fetches one row by id,
 * archived or not.
 */
module Listings {
  import opened Common
  import opened Records
  import opened Sorting

  // ---------------------------------------------------------------------------
  // Sort keys

  function StudentName(x: Row<StudentFields>): string { x.fields.fullName }
  function FacultyName(x: Row<FacultyFields>): string { x.fields.fullName }
  function CourseName(x: Row<CourseFields>): string { x.fields.name }
  function DepartmentHead(x: Row<DepartmentFields>): string { x.fields.head }
  function YearStart(x: Row<YearFields>): string { x.fields.start }

  // ---------------------------------------------------------------------------
  // StudentController::index

  /** The optional query-string parameters of the student listing. */
  datatype StudentQuery = StudentQuery(
    search: Option<string>, departmentId: Option<string>,
    courseId: Option<string>, academicYearId: Option<string>)

  /** The entries of the controller's filter list, in the order it walks them. */
  datatype StudentFilter = Search | ByDepartment | ByCourse | ByYear

  const StudentFilters: seq<StudentFilter> := [Search, ByDepartment, ByCourse, ByYear]

  function Param(q: StudentQuery, f: StudentFilter): Option<string> {
    match f
    case Search => q.search
    case ByDepartment => q.departmentId
    case ByCourse => q.courseId
    case ByYear => q.academicYearId
  }

  /** A `where` clause of the student query. */
  datatype Condition = NameLike(needle: string) | ColumnIs(filter: StudentFilter, value: string)

  predicate Satisfies(x: Row<StudentFields>, c: Condition) {
    match c
    case NameLike(n) => Contains(x.fields.fullName, n)
    case ColumnIs(f, v) =>
      match f
      case ByDepartment => IdIs(x.fields.departmentId, v)
      case ByCourse => IdIs(x.fields.courseId, v)
      case ByYear => IdIs(x.fields.academicYearId, v)
      case Search => Contains(x.fields.fullName, v)
  }

  predicate SatisfiesAll(x: Row<StudentFields>, cs: seq<Condition>) {
    forall i :: 0 <= i < |cs| ==> Satisfies(x, cs[i])
  }

  /** What one filter demands of a row: nothing unless its parameter is filled. */
  predicate FilterHolds(x: Row<StudentFields>, q: StudentQuery, f: StudentFilter) {
    Filled(Param(q, f)) ==>
      match f
      case Search => Contains(x.fields.fullName, q.search.value)
      case ByDepartment => IdIs(x.fields.departmentId, q.departmentId.value)
      case ByCourse => IdIs(x.fields.courseId, q.courseId.value)
      case ByYear => IdIs(x.fields.academicYearId, q.academicYearId.value)
  }

  /** The student listing's selection: a name substring and exact id matches, each only when filled. */
  predicate StudentMatches(x: Row<StudentFields>, q: StudentQuery) {
    && FilterHolds(x, q, Search)
    && FilterHolds(x, q, ByDepartment)
    && FilterHolds(x, q, ByCourse)
    && FilterHolds(x, q, ByYear)
  }

  /** The live students the query selects, ordered by full name. */
  function StudentListing(students: Table<StudentFields>, q: StudentQuery): (r: Table<StudentFields>)
    ensures forall x :: multiset(r)[x] ==
                        if x.IsLive() && StudentMatches(x, q) then multiset(students)[x] else 0
    ensures SortedBy(r, StudentName, Ascending)
  {
    SortBy(Filter(students, (x: Row<StudentFields>) => x.IsLive() && StudentMatches(x, q)),
           StudentName, Ascending)
  }

  /**
   * The controller's loop: for each filled parameter append one `where`
   * clause, then run the query over the live rows ordered by full name.
   */
  method StudentIndex(students: Table<StudentFields>, q: StudentQuery)
    returns (r: Table<StudentFields>)
    ensures r == StudentListing(students, q)
    ensures forall x :: x in r <==> x in students && x.IsLive() && StudentMatches(x, q)
  {
    var conds: seq<Condition> := [];
    for k := 0 to |StudentFilters|
      invariant forall x :: SatisfiesAll(x, conds) <==>
        forall j :: 0 <= j < k ==> FilterHolds(x, q, StudentFilters[j])
    {
      var f := StudentFilters[k];
      var p := Param(q, f);
      if Filled(p) {
        var c := if f == Search then NameLike(p.value) else ColumnIs(f, p.value);
        forall x ensures SatisfiesAll(x, conds + [c]) <==> SatisfiesAll(x, conds) && Satisfies(x, c) {
          assert forall i :: 0 <= i < |conds| ==> (conds + [c])[i] == conds[i];
          assert (conds + [c])[|conds|] == c;
        }
        conds := conds + [c];
      }
    }
    forall x ensures SatisfiesAll(x, conds) <==> StudentMatches(x, q) {
      assert StudentFilters[0] == Search && StudentFilters[1] == ByDepartment;
      assert StudentFilters[2] == ByCourse && StudentFilters[3] == ByYear;
    }
    var selected := (x: Row<StudentFields>) => x.IsLive() && SatisfiesAll(x, conds);
    var spec := (x: Row<StudentFields>) => x.IsLive() && StudentMatches(x, q);
    FilterCongruent(students, selected, spec);
    r := SortBy(Filter(students, selected), StudentName, Ascending);
  }

  // ---------------------------------------------------------------------------
  // FacultyController::index

  datatype FacultyQuery = FacultyQuery(search: Option<string>, departmentId: Option<string>)

  /** Name OR email contains the search; the department matches exactly. */
  predicate FacultyMatches(x: Row<FacultyFields>, q: FacultyQuery) {
    && (Filled(q.search) ==>
          Contains(x.fields.fullName, q.search.value) || Contains(x.fields.email, q.search.value))
    && (Filled(q.departmentId) ==> IdIs(x.fields.departmentId, q.departmentId.value))
  }

  function FacultyIndex(faculty: Table<FacultyFields>, q: FacultyQuery): (r: Table<FacultyFields>)
    ensures forall x :: multiset(r)[x] ==
                        if x.IsLive() && FacultyMatches(x, q) then multiset(faculty)[x] else 0
    ensures SortedBy(r, FacultyName, Ascending)
  {
    SortBy(Filter(faculty, (x: Row<FacultyFields>) => x.IsLive() && FacultyMatches(x, q)),
           FacultyName, Ascending)
  }

  // ---------------------------------------------------------------------------
  // CourseController, DepartmentController and AcademicYearController::index

  function CourseIndex(courses: Table<CourseFields>): (r: Table<CourseFields>)
    ensures forall x :: multiset(r)[x] == if x.IsLive() then multiset(courses)[x] else 0
    ensures SortedBy(r, CourseName, Ascending)
  {
    SortBy(Live(courses), CourseName, Ascending)
  }

  function DepartmentIndex(departments: Table<DepartmentFields>): (r: Table<DepartmentFields>)
    ensures forall x :: multiset(r)[x] == if x.IsLive() then multiset(departments)[x] else 0
    ensures SortedBy(r, DepartmentHead, Ascending)
  {
    SortBy(Live(departments), DepartmentHead, Ascending)
  }

  function YearIndex(years: Table<YearFields>): (r: Table<YearFields>)
    ensures forall x :: multiset(r)[x] == if x.IsLive() then multiset(years)[x] else 0
    ensures SortedBy(r, YearStart, Descending)
  {
    SortBy(Live(years), YearStart, Descending)
  }

  // ---------------------------------------------------------------------------
  // show

  /** `findOrFail` inside `show`, whose handler answers 404; archived rows are found too. */
  function Show<T>(t: Table<T>, id: int): (r: Result<Row<T>>)
    ensures r.Ok? <==> HasId(t, id)
    ensures r.Err? ==> r.error == NotFound
    ensures r.Ok? ==> r.value.id == id && r.value in t
  {
    match Find(t, id)
    case Some(row) => Ok(row)
    case None => Err(NotFound)
  }

  // ---------------------------------------------------------------------------
  // Properties

  /** A filled department parameter pins every listed student to one department. */
  lemma DepartmentFilterPinsOneId(students: Table<StudentFields>, q: StudentQuery,
                                  x: Row<StudentFields>, y: Row<StudentFields>)
    requires Filled(q.departmentId)
    requires x in StudentListing(students, q) && y in StudentListing(students, q)
    ensures x.fields.departmentId == y.fields.departmentId
  {
    assert multiset(StudentListing(students, q))[x] > 0;
    assert multiset(StudentListing(students, q))[y] > 0;
    NatToStringInjective(x.fields.departmentId, y.fields.departmentId);
  }

  /** Archiving a student takes it off every listing. */
  lemma ArchivedStudentUnlisted(students: Table<StudentFields>, q: StudentQuery, id: int, now: int,
                                x: Row<StudentFields>)
    requires x in StudentListing(SetArchivedAt(students, id, Some(now)), q)
    ensures x.id != id
  {
    var a := SetArchivedAt(students, id, Some(now));
    assert multiset(StudentListing(a, q))[x] > 0;
    assert x.IsLive() && x in a;
    var i :| 0 <= i < |a| && a[i] == x;
  }

  /** Archive then restore lists the student again whenever it matches the query. */
  lemma RestoredStudentListed(students: Table<StudentFields>, q: StudentQuery, k: int, now: int)
    requires 0 <= k < |students| && students[k].IsLive() && StudentMatches(students[k], q)
    ensures students[k] in StudentListing(
              SetArchivedAt(SetArchivedAt(students, students[k].id, Some(now)), students[k].id, None), q)
  {
    var id := students[k].id;
    var b := SetArchivedAt(SetArchivedAt(students, id, Some(now)), id, None);
    assert b[k] == students[k];
    assert multiset(b)[b[k]] > 0;
    assert multiset(StudentListing(b, q))[b[k]] > 0;
  }
}
