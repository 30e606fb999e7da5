/**
 * The cross-entity archived feed: for each kind the request selects, the
 * archived rows that pass the kind's filters, each projected to one uniform
 * item; the items of all kinds concatenated and ordered by `archived_at`,
 * newest first.
 *
 * The request's parameters arrive with their defaults applied (`type` is
 * "all", the others ""); a filter is skipped when its parameter is
 * PHP-falsy, which is the case for "" and for "0".
 */
module ArchiveFeed {
  import opened Common
  import opened Records
  import opened Validation

  datatype Kind = CourseKind | DepartmentKind | YearKind | StudentKind | FacultyKind

  /** The value of `type` that selects this kind on its own. */
  function TypeParam(k: Kind): string {
    match k
    case CourseKind => "courses"
    case DepartmentKind => "departments"
    case YearKind => "academic_years"
    case StudentKind => "students"
    case FacultyKind => "faculty"
  }

  /** The `_type` tag of the kind's items. */
  function Tag(k: Kind): string {
    match k
    case CourseKind => "course"
    case DepartmentKind => "department"
    case YearKind => "academic_year"
    case StudentKind => "student"
    case FacultyKind => "faculty"
  }

  /** `$type === 'all' || $type === '<kind>'`. */
  predicate Selected(kind: string, k: Kind) {
    kind == "all" || kind == TypeParam(k)
  }

  datatype FeedQuery = FeedQuery(
    kind: string, search: string, departmentId: string, courseId: string, academicYearId: string)

  /** One entry of the feed: `_type`, `_id`, `_label`, `_department`, `_course`, `archived_at`. */
  datatype ArchivedItem = ArchivedItem(
    kind: Kind, id: nat, name: string, department: Option<string>, course: Option<string>,
    archivedAt: int)

  // ---------------------------------------------------------------------------
  // Projection

  /** The related department's head, or "-" when the relation does not resolve. */
  function DepartmentLabel(departments: Table<DepartmentFields>, id: nat): string {
    match Find(departments, id)
    case Some(d) => d.fields.head
    case None => "-"
  }

  /** The related course's name, or "-" when the relation does not resolve. */
  function CourseLabel(courses: Table<CourseFields>, id: nat): string {
    match Find(courses, id)
    case Some(c) => c.fields.name
    case None => "-"
  }

  function YearLabel(f: YearFields): string {
    f.start + " - " + f.end
  }

  /** The start and end of a stored year can be read back from its label. */
  lemma YearLabelRoundTrip(f: YearFields)
    requires WellFormedYear(f)
    ensures |YearLabel(f)| == 11
    ensures YearLabel(f)[..4] == f.start && YearLabel(f)[7..] == f.end
  {
  }

  function ProjectCourse(r: Row<CourseFields>, at: int, db: Tables): ArchivedItem {
    ArchivedItem(CourseKind, r.id, r.fields.name,
                 Some(DepartmentLabel(db.departments, r.fields.departmentId)), None, at)
  }

  function ProjectDepartment(r: Row<DepartmentFields>, at: int, db: Tables): ArchivedItem {
    ArchivedItem(DepartmentKind, r.id, r.fields.head, None, None, at)
  }

  function ProjectYear(r: Row<YearFields>, at: int, db: Tables): ArchivedItem {
    ArchivedItem(YearKind, r.id, YearLabel(r.fields), None, None, at)
  }

  function ProjectStudent(r: Row<StudentFields>, at: int, db: Tables): ArchivedItem {
    ArchivedItem(StudentKind, r.id, r.fields.fullName,
                 Some(DepartmentLabel(db.departments, r.fields.departmentId)),
                 Some(CourseLabel(db.courses, r.fields.courseId)), at)
  }

  function ProjectFaculty(r: Row<FacultyFields>, at: int, db: Tables): ArchivedItem {
    ArchivedItem(FacultyKind, r.id, r.fields.fullName,
                 Some(DepartmentLabel(db.departments, r.fields.departmentId)), None, at)
  }

  // ---------------------------------------------------------------------------
  // Per-kind filters

  /** `if ($param)`: a falsy parameter applies no restriction. */
  predicate Applies(param: string) { !PhpFalsy(param) }

  /** Courses: name contains the search; department id equals the parameter. */
  predicate KeepCourse(r: Row<CourseFields>, q: FeedQuery) {
    && (Applies(q.search) ==> Contains(r.fields.name, q.search))
    && (Applies(q.departmentId) ==> IdIs(r.fields.departmentId, q.departmentId))
  }

  /** Departments: only the search, against the head. */
  predicate KeepDepartment(r: Row<DepartmentFields>, q: FeedQuery) {
    Applies(q.search) ==> Contains(r.fields.head, q.search)
  }

  /** Academic years: only the search, against the start OR the end. */
  predicate KeepYear(r: Row<YearFields>, q: FeedQuery) {
    Applies(q.search) ==> Contains(r.fields.start, q.search) || Contains(r.fields.end, q.search)
  }

  /** Students: name search and all three id filters. */
  predicate KeepStudent(r: Row<StudentFields>, q: FeedQuery) {
    && (Applies(q.search) ==> Contains(r.fields.fullName, q.search))
    && (Applies(q.departmentId) ==> IdIs(r.fields.departmentId, q.departmentId))
    && (Applies(q.courseId) ==> IdIs(r.fields.courseId, q.courseId))
    && (Applies(q.academicYearId) ==> IdIs(r.fields.academicYearId, q.academicYearId))
  }

  /** Faculty: name search and the department filter. */
  predicate KeepFaculty(r: Row<FacultyFields>, q: FeedQuery) {
    && (Applies(q.search) ==> Contains(r.fields.fullName, q.search))
    && (Applies(q.departmentId) ==> IdIs(r.fields.departmentId, q.departmentId))
  }

  /** The rows the query reads: `whereNotNull('archived_at')` and the kind's `where` clauses. */
  function Matching<T>(t: Table<T>, q: FeedQuery, keep: (Row<T>, FeedQuery) -> bool): Table<T> {
    if |t| == 0 then []
    else if t[0].archivedAt.Some? && keep(t[0], q) then [t[0]] + Matching(t[1..], q, keep)
    else Matching(t[1..], q, keep)
  }

  /** `Matching` holds each archived row that `keep` accepts as often as the table does, and nothing else. */
  lemma {:induction false} MatchingRows<T(!new)>(t: Table<T>, q: FeedQuery, keep: (Row<T>, FeedQuery) -> bool)
    ensures forall x :: multiset(Matching(t, q, keep))[x] ==
                        if x.archivedAt.Some? && keep(x, q) then multiset(t)[x] else 0
  {
    if |t| > 0 {
      MatchingRows(t[1..], q, keep);
      assert t == [t[0]] + t[1..];
    }
  }

  /**
   * `whereNotNull('archived_at')`, the kind's `where` clauses, then `map`:
   * the projections of the archived rows of `t` that `keep` accepts, in table order.
   */
  function Collect<T>(t: Table<T>, db: Tables, q: FeedQuery,
                      keep: (Row<T>, FeedQuery) -> bool,
                      project: (Row<T>, int, Tables) -> ArchivedItem): (r: seq<ArchivedItem>)
    ensures forall it :: it in r ==> FromRowOf(t, db, q, keep, project, it)
    ensures forall i :: 0 <= i < |t| && t[i].archivedAt.Some? && keep(t[i], q) ==>
      project(t[i], t[i].archivedAt.value, db) in r
  {
    if |t| == 0 then []
    else
      var rest := Collect(t[1..], db, q, keep, project);
      assert forall i :: 1 <= i < |t| ==> t[i] == t[1..][i - 1];
      assert forall it :: FromRowOf(t[1..], db, q, keep, project, it) ==> FromRowOf(t, db, q, keep, project, it) by {
        forall it | FromRowOf(t[1..], db, q, keep, project, it) ensures FromRowOf(t, db, q, keep, project, it) {
          var i :| 0 <= i < |t[1..]| && t[1..][i].archivedAt.Some? && keep(t[1..][i], q)
                   && it == project(t[1..][i], t[1..][i].archivedAt.value, db);
          assert t[i + 1] == t[1..][i];
        }
      }
      if t[0].archivedAt.Some? && keep(t[0], q) then [project(t[0], t[0].archivedAt.value, db)] + rest
      else rest
  }

  /** With `type=all` the feed has one item per archived row that passes its kind's filters. */
  lemma AllFeedLength(db: Tables, q: FeedQuery)
    requires q.kind == "all"
    ensures |Unsorted(db, q)| == |Matching(db.courses, q, KeepCourse)| + |Matching(db.departments, q, KeepDepartment)|
                                 + |Matching(db.years, q, KeepYear)| + |Matching(db.students, q, KeepStudent)|
                                 + |Matching(db.faculty, q, KeepFaculty)|
  {
    CollectOnePerRow(db.courses, db, q, KeepCourse, ProjectCourse);
    CollectOnePerRow(db.departments, db, q, KeepDepartment, ProjectDepartment);
    CollectOnePerRow(db.years, db, q, KeepYear, ProjectYear);
    CollectOnePerRow(db.students, db, q, KeepStudent, ProjectStudent);
    CollectOnePerRow(db.faculty, db, q, KeepFaculty, ProjectFaculty);
  }

  /** `it` is the projection of an archived row of `t` that `keep` accepts. */
  ghost predicate FromRowOf<T>(t: Table<T>, db: Tables, q: FeedQuery,
                               keep: (Row<T>, FeedQuery) -> bool,
                               project: (Row<T>, int, Tables) -> ArchivedItem, it: ArchivedItem) {
    exists i :: 0 <= i < |t| && t[i].archivedAt.Some? && keep(t[i], q)
                && it == project(t[i], t[i].archivedAt.value, db)
  }

  /** Exactly one item per row the query reads, in table order: the `map` over `Matching`. */
  lemma {:induction false} CollectOnePerRow<T>(t: Table<T>, db: Tables, q: FeedQuery,
                                                     keep: (Row<T>, FeedQuery) -> bool,
                                                     project: (Row<T>, int, Tables) -> ArchivedItem)
    ensures |Collect(t, db, q, keep, project)| == |Matching(t, q, keep)|
    ensures forall i :: 0 <= i < |Matching(t, q, keep)| ==>
      var x := Matching(t, q, keep)[i];
      x.archivedAt.Some? && Collect(t, db, q, keep, project)[i] == project(x, x.archivedAt.value, db)
  {
    if |t| > 0 {
      CollectOnePerRow(t[1..], db, q, keep, project);
      var m, m' := Matching(t, q, keep), Matching(t[1..], q, keep);
      var c, c' := Collect(t, db, q, keep, project), Collect(t[1..], db, q, keep, project);
      if t[0].archivedAt.Some? && keep(t[0], q) {
        assert c == [project(t[0], t[0].archivedAt.value, db)] + c';
        assert forall i :: 1 <= i < |m| ==> m[i] == m'[i - 1] && c[i] == c'[i - 1];
      } else {
        assert c == c' && m == m';
      }
    }
  }

  lemma {:induction false} CollectCongruent<T>(t: Table<T>, db: Tables, q: FeedQuery, q': FeedQuery,
                                               keep: (Row<T>, FeedQuery) -> bool,
                                               project: (Row<T>, int, Tables) -> ArchivedItem)
    requires forall i :: 0 <= i < |t| ==> keep(t[i], q) == keep(t[i], q')
    ensures Collect(t, db, q, keep, project) == Collect(t, db, q', keep, project)
  {
    if |t| > 0 {
      CollectCongruent(t[1..], db, q, q', keep, project);
    }
  }

  function CourseFeed(db: Tables, q: FeedQuery): seq<ArchivedItem> {
    Collect(db.courses, db, q, KeepCourse, ProjectCourse)
  }

  function DepartmentFeed(db: Tables, q: FeedQuery): seq<ArchivedItem> {
    Collect(db.departments, db, q, KeepDepartment, ProjectDepartment)
  }

  function YearFeed(db: Tables, q: FeedQuery): seq<ArchivedItem> {
    Collect(db.years, db, q, KeepYear, ProjectYear)
  }

  function StudentFeed(db: Tables, q: FeedQuery): seq<ArchivedItem> {
    Collect(db.students, db, q, KeepStudent, ProjectStudent)
  }

  function FacultyFeed(db: Tables, q: FeedQuery): seq<ArchivedItem> {
    Collect(db.faculty, db, q, KeepFaculty, ProjectFaculty)
  }

  /** The five merges, in the controller's order, before sorting. */
  function Unsorted(db: Tables, q: FeedQuery): seq<ArchivedItem> {
    (if Selected(q.kind, CourseKind) then CourseFeed(db, q) else [])
    + (if Selected(q.kind, DepartmentKind) then DepartmentFeed(db, q) else [])
    + (if Selected(q.kind, YearKind) then YearFeed(db, q) else [])
    + (if Selected(q.kind, StudentKind) then StudentFeed(db, q) else [])
    + (if Selected(q.kind, FacultyKind) then FacultyFeed(db, q) else [])
  }

  // ---------------------------------------------------------------------------
  // The controller action

  /** Newest first: `archived_at` never increases along the sequence. */
  predicate NewestFirst(s: seq<ArchivedItem>) {
    forall i, j :: 0 <= i < j < |s| ==> s[i].archivedAt >= s[j].archivedAt
  }

  /** Exchanges `a[i]` and `a[j]`; the contents stay a permutation. */
  method Swap(a: array<ArchivedItem>, i: int, j: int)
    requires 0 <= i < a.Length && 0 <= j < a.Length
    modifies a
    ensures a[..] == old(a[..])[i := old(a[j])][j := old(a[i])]
    ensures multiset(a[..]) == multiset(old(a[..]))
  {
    a[i], a[j] := a[j], a[i];
  }

  /** The first `n` items are newest first, except possibly around position `hole`. */
  ghost predicate OrderedAround(a: seq<ArchivedItem>, n: int, hole: int)
    requires 0 <= n <= |a|
  {
    forall k, l :: 0 <= k < l < n && k != hole && l != hole ==> a[k].archivedAt >= a[l].archivedAt
  }

  /** `usort` with `strtotime($b) - strtotime($a)`, as an in-place insertion sort. */
  method SortNewestFirst(a: array<ArchivedItem>)
    modifies a
    ensures NewestFirst(a[..])
    ensures multiset(a[..]) == multiset(old(a[..]))
  {
    for i := 0 to a.Length
      invariant NewestFirst(a[..i])
      invariant multiset(a[..]) == multiset(old(a[..]))
    {
      var j := i;
      while j > 0 && a[j - 1].archivedAt < a[j].archivedAt
        invariant 0 <= j <= i
        invariant OrderedAround(a[..], i + 1, j)
        invariant forall l :: j < l <= i ==> a[j].archivedAt >= a[l].archivedAt
        invariant multiset(a[..]) == multiset(old(a[..]))
      {
        Swap(a, j - 1, j);
        j := j - 1;
      }
    }
  }

  /**
   * `ArchiveController::index`: accumulate the selected kinds' items through
   * five merges, then sort them newest first.
   */
  method ArchivedIndex(db: Tables, q: FeedQuery) returns (items: seq<ArchivedItem>)
    ensures multiset(items) == multiset(Unsorted(db, q))
    ensures NewestFirst(items)
  {
    ghost var c := if Selected(q.kind, CourseKind) then CourseFeed(db, q) else [];
    ghost var d := if Selected(q.kind, DepartmentKind) then DepartmentFeed(db, q) else [];
    ghost var y := if Selected(q.kind, YearKind) then YearFeed(db, q) else [];
    ghost var st := if Selected(q.kind, StudentKind) then StudentFeed(db, q) else [];
    ghost var fa := if Selected(q.kind, FacultyKind) then FacultyFeed(db, q) else [];
    items := [];
    if q.kind == "all" || q.kind == "courses" {
      items := items + CourseFeed(db, q);
    }
    assert items == c;
    if q.kind == "all" || q.kind == "departments" {
      items := items + DepartmentFeed(db, q);
    }
    assert items == c + d;
    if q.kind == "all" || q.kind == "academic_years" {
      items := items + YearFeed(db, q);
    }
    assert items == c + d + y;
    if q.kind == "all" || q.kind == "students" {
      items := items + StudentFeed(db, q);
    }
    assert items == c + d + y + st;
    if q.kind == "all" || q.kind == "faculty" {
      items := items + FacultyFeed(db, q);
    }
    assert items == Unsorted(db, q);
    var a := new ArchivedItem[|items|](i requires 0 <= i < |items| => items[i]);
    assert a[..] == items;
    SortNewestFirst(a);
    items := a[..];
  }

  // ---------------------------------------------------------------------------
  // Properties

  /** `it` is the projection of an archived row of its kind that the query keeps. */
  ghost predicate FromRow(db: Tables, q: FeedQuery, it: ArchivedItem) {
    match it.kind
    case CourseKind => FromRowOf(db.courses, db, q, KeepCourse, ProjectCourse, it)
    case DepartmentKind => FromRowOf(db.departments, db, q, KeepDepartment, ProjectDepartment, it)
    case YearKind => FromRowOf(db.years, db, q, KeepYear, ProjectYear, it)
    case StudentKind => FromRowOf(db.students, db, q, KeepStudent, ProjectStudent, it)
    case FacultyKind => FromRowOf(db.faculty, db, q, KeepFaculty, ProjectFaculty, it)
  }

  /** Every item of the feed is of a selected kind and comes from an archived row the filters keep. */
  lemma FeedSound(db: Tables, q: FeedQuery, it: ArchivedItem)
    requires it in Unsorted(db, q)
    ensures Selected(q.kind, it.kind)
    ensures FromRow(db, q, it)
  {
    if Selected(q.kind, CourseKind) && it in CourseFeed(db, q) {
      var i :| 0 <= i < |db.courses| && db.courses[i].archivedAt.Some?
               && it == ProjectCourse(db.courses[i], db.courses[i].archivedAt.value, db);
    } else if Selected(q.kind, DepartmentKind) && it in DepartmentFeed(db, q) {
      var i :| 0 <= i < |db.departments| && db.departments[i].archivedAt.Some?
               && it == ProjectDepartment(db.departments[i], db.departments[i].archivedAt.value, db);
    } else if Selected(q.kind, YearKind) && it in YearFeed(db, q) {
      var i :| 0 <= i < |db.years| && db.years[i].archivedAt.Some?
               && it == ProjectYear(db.years[i], db.years[i].archivedAt.value, db);
    } else if Selected(q.kind, StudentKind) && it in StudentFeed(db, q) {
      var i :| 0 <= i < |db.students| && db.students[i].archivedAt.Some?
               && it == ProjectStudent(db.students[i], db.students[i].archivedAt.value, db);
    } else {
      var i :| 0 <= i < |db.faculty| && db.faculty[i].archivedAt.Some?
               && it == ProjectFaculty(db.faculty[i], db.faculty[i].archivedAt.value, db);
    }
  }

  /** Every archived row of a selected kind that the filters keep is in the feed. */
  lemma FeedComplete(db: Tables, q: FeedQuery)
    ensures forall i :: (0 <= i < |db.courses| && Selected(q.kind, CourseKind)
      && db.courses[i].archivedAt.Some? && KeepCourse(db.courses[i], q)) ==>
      ProjectCourse(db.courses[i], db.courses[i].archivedAt.value, db) in Unsorted(db, q)
    ensures forall i :: (0 <= i < |db.departments| && Selected(q.kind, DepartmentKind)
      && db.departments[i].archivedAt.Some? && KeepDepartment(db.departments[i], q)) ==>
      ProjectDepartment(db.departments[i], db.departments[i].archivedAt.value, db) in Unsorted(db, q)
    ensures forall i :: (0 <= i < |db.years| && Selected(q.kind, YearKind)
      && db.years[i].archivedAt.Some? && KeepYear(db.years[i], q)) ==>
      ProjectYear(db.years[i], db.years[i].archivedAt.value, db) in Unsorted(db, q)
    ensures forall i :: (0 <= i < |db.students| && Selected(q.kind, StudentKind)
      && db.students[i].archivedAt.Some? && KeepStudent(db.students[i], q)) ==>
      ProjectStudent(db.students[i], db.students[i].archivedAt.value, db) in Unsorted(db, q)
    ensures forall i :: (0 <= i < |db.faculty| && Selected(q.kind, FacultyKind)
      && db.faculty[i].archivedAt.Some? && KeepFaculty(db.faculty[i], q)) ==>
      ProjectFaculty(db.faculty[i], db.faculty[i].archivedAt.value, db) in Unsorted(db, q)
  {
  }

  /** A type outside the six accepted values selects nothing: the feed is empty. */
  lemma UnknownTypeEmpty(db: Tables, q: FeedQuery)
    requires q.kind != "all"
    requires forall k: Kind :: q.kind != TypeParam(k)
    ensures Unsorted(db, q) == []
  {
  }

  /** A row of `t` with this id is live. */
  ghost predicate LiveIdIn<T>(t: Table<T>, id: int) {
    exists i :: 0 <= i < |t| && t[i].id == id && t[i].IsLive()
  }

  /** With unique ids, an item that came from an archived row names no live row. */
  lemma ArchivedOnly<T>(t: Table<T>, db: Tables, q: FeedQuery, keep: (Row<T>, FeedQuery) -> bool,
                        project: (Row<T>, int, Tables) -> ArchivedItem, it: ArchivedItem)
    requires IdsAscending(t)
    requires FromRowOf(t, db, q, keep, project, it)
    requires forall i :: 0 <= i < |t| && t[i].archivedAt.Some? ==>
      project(t[i], t[i].archivedAt.value, db).id == t[i].id
    ensures !LiveIdIn(t, it.id)
  {
    var i :| 0 <= i < |t| && t[i].archivedAt.Some? && it == project(t[i], t[i].archivedAt.value, db);
    assert forall j :: 0 <= j < |t| && t[j].id == it.id ==> j == i;
  }

  /** A live row of the store never appears in the feed, since ids are unique per table. */
  lemma LiveRowsNeverListed(db: Tables, q: FeedQuery, it: ArchivedItem)
    requires IdsAscending(db.courses) && IdsAscending(db.departments) && IdsAscending(db.years)
    requires IdsAscending(db.students) && IdsAscending(db.faculty)
    requires it in Unsorted(db, q)
    ensures it.kind == CourseKind ==> !LiveIdIn(db.courses, it.id)
    ensures it.kind == DepartmentKind ==> !LiveIdIn(db.departments, it.id)
    ensures it.kind == YearKind ==> !LiveIdIn(db.years, it.id)
    ensures it.kind == StudentKind ==> !LiveIdIn(db.students, it.id)
    ensures it.kind == FacultyKind ==> !LiveIdIn(db.faculty, it.id)
  {
    FeedSound(db, q, it);
    match it.kind
    case CourseKind => ArchivedOnly(db.courses, db, q, KeepCourse, ProjectCourse, it);
    case DepartmentKind => ArchivedOnly(db.departments, db, q, KeepDepartment, ProjectDepartment, it);
    case YearKind => ArchivedOnly(db.years, db, q, KeepYear, ProjectYear, it);
    case StudentKind => ArchivedOnly(db.students, db, q, KeepStudent, ProjectStudent, it);
    case FacultyKind => ArchivedOnly(db.faculty, db, q, KeepFaculty, ProjectFaculty, it);
  }

  /** `"0"` is falsy in PHP, so searching for it filters nothing, exactly like an empty search. */
  lemma ZeroSearchIgnored(db: Tables, q: FeedQuery)
    ensures Unsorted(db, q.(search := "0")) == Unsorted(db, q.(search := ""))
  {
    var z, e := q.(search := "0"), q.(search := "");
    CollectCongruent(db.courses, db, z, e, KeepCourse, ProjectCourse);
    CollectCongruent(db.departments, db, z, e, KeepDepartment, ProjectDepartment);
    CollectCongruent(db.years, db, z, e, KeepYear, ProjectYear);
    CollectCongruent(db.students, db, z, e, KeepStudent, ProjectStudent);
    CollectCongruent(db.faculty, db, z, e, KeepFaculty, ProjectFaculty);
  }

  /**
   * Searching the archived years for "2023" keeps 2022-2023 and drops 2019-2020:
   * a year matches when its start or its end contains the search.
   */
  lemma YearSearchExample(departments: Table<DepartmentFields>)
    ensures
      var db := Tables(departments, [], [Row(1, YearFields("2022", "2023"), Some(5)),
                                         Row(2, YearFields("2019", "2020"), Some(7))], [], []);
      Unsorted(db, FeedQuery("academic_years", "2023", "", "", ""))
        == [ArchivedItem(YearKind, 1, "2022 - 2023", None, None, 5)]
  {
    var y1 := Row(1, YearFields("2022", "2023"), Some(5));
    var y2 := Row(2, YearFields("2019", "2020"), Some(7));
    var db := Tables(departments, [], [y1, y2], [], []);
    var q := FeedQuery("academic_years", "2023", "", "", "");
    assert "2023"[0..4] == "2023";
    assert OccursAt("2023", "2023", 0);
    assert KeepYear(y1, q);
    assert !Contains("2019", "2023") by {
      assert "2019"[0..4][2] != "2023"[2];
    }
    assert !Contains("2020", "2023") by {
      assert "2020"[0..4][3] != "2023"[3];
    }
    assert !KeepYear(y2, q);
    assert [y1, y2][1..] == [y2];
    assert Collect([y2], db, q, KeepYear, ProjectYear) == [];
    assert YearLabel(y1.fields) == "2022 - 2023";
    assert YearFeed(db, q) == [ProjectYear(y1, 5, db)];
    assert !Selected(q.kind, CourseKind) && !Selected(q.kind, DepartmentKind);
    assert !Selected(q.kind, StudentKind) && !Selected(q.kind, FacultyKind);
  }
}
