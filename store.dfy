/**
 * The write side of the five resource controllers, as one object holding the
 * five tables. Every action looks its row up first (`findOrFail`, whose
 * failure the actions report as 500), then validates (422), then writes one
 * row. `store` appends a live row under the next id; `update` replaces the
 * columns of one row; `archive` and `restore` set or clear its `archived_at`.
 *
 * The store keeps `ValidTables`: ids ascending in every table, course names
 * and faculty and student emails unique across live and archived rows, every
 * row well formed, and every foreign key naming an existing row.
 */
module Store {
  import opened Common
  import opened Records
  import opened Validation

  // ---------------------------------------------------------------------------
  // The invariant

  ghost predicate DepartmentsValid(t: Table<DepartmentFields>) {
    IdsAscending(t) && forall i :: 0 <= i < |t| ==> WellFormedDepartment(t[i].fields)
  }

  ghost predicate CoursesValid(t: Table<CourseFields>, departments: Table<DepartmentFields>) {
    && IdsAscending(t) && UniqueColumn(t, CourseNameColumn)
    && forall i :: 0 <= i < |t| ==>
         WellFormedCourse(t[i].fields) && HasId(departments, t[i].fields.departmentId)
  }

  ghost predicate YearsValid(t: Table<YearFields>) {
    IdsAscending(t) && forall i :: 0 <= i < |t| ==> WellFormedYear(t[i].fields)
  }

  ghost predicate FacultyValid(t: Table<FacultyFields>, departments: Table<DepartmentFields>) {
    && IdsAscending(t) && UniqueColumn(t, FacultyEmailColumn)
    && forall i :: 0 <= i < |t| ==>
         WellFormedFaculty(t[i].fields) && HasId(departments, t[i].fields.departmentId)
  }

  ghost predicate StudentsValid(t: Table<StudentFields>, db: Tables) {
    && IdsAscending(t) && UniqueColumn(t, StudentEmailColumn)
    && forall i :: 0 <= i < |t| ==>
         && WellFormedStudent(t[i].fields)
         && HasId(db.departments, t[i].fields.departmentId)
         && HasId(db.courses, t[i].fields.courseId)
         && HasId(db.years, t[i].fields.academicYearId)
  }

  ghost predicate ValidTables(db: Tables) {
    && DepartmentsValid(db.departments)
    && CoursesValid(db.courses, db.departments)
    && YearsValid(db.years)
    && FacultyValid(db.faculty, db.departments)
    && StudentsValid(db.students, db)
  }

  // ---------------------------------------------------------------------------
  // How single-row writes affect the invariant

  /** Position by position, the same ids. */
  ghost predicate SameIds<T>(t: Table<T>, u: Table<T>) {
    |t| == |u| && forall i :: 0 <= i < |t| ==> t[i].id == u[i].id
  }

  lemma SameIdsKeep<T>(t: Table<T>, u: Table<T>)
    requires SameIds(t, u)
    ensures IdsAscending(t) ==> IdsAscending(u)
    ensures forall x :: HasId(t, x) <==> HasId(u, x)
  {
    forall x ensures HasId(t, x) <==> HasId(u, x) {
      if HasId(t, x) {
        var i :| 0 <= i < |t| && t[i].id == x;
        assert u[i].id == x;
      }
      if HasId(u, x) {
        var i :| 0 <= i < |u| && u[i].id == x;
        assert t[i].id == x;
      }
    }
  }

  /** Appending the next id keeps ids ascending and every id already present. */
  lemma AppendKeepsIds<T>(t: Table<T>, f: T)
    requires IdsAscending(t)
    ensures IdsAscending(t + [Row(NextId(t), f, None)])
    ensures forall x :: HasId(t, x) ==> HasId(t + [Row(NextId(t), f, None)], x)
    ensures HasId(t + [Row(NextId(t), f, None)], NextId(t))
  {
    var u := t + [Row(NextId(t), f, None)];
    forall x | HasId(t, x) ensures HasId(u, x) {
      var i :| 0 <= i < |t| && t[i].id == x;
      assert u[i].id == x;
    }
    assert u[|t|].id == NextId(t);
  }

  /** A value no row holds can be appended without breaking uniqueness. */
  lemma AppendKeepsUnique<T>(t: Table<T>, column: T -> string, row: Row<T>)
    requires UniqueColumn(t, column) && !Taken(t, column, column(row.fields), None)
    ensures UniqueColumn(t + [row], column)
  {
    var u := t + [row];
    forall i, j | 0 <= i < |u| && 0 <= j < |u| && i != j
      ensures column(u[i].fields) != column(u[j].fields)
    {
      if i < |t| && j < |t| {
        assert u[i] == t[i] && u[j] == t[j];
      }
    }
  }

  /** A value no other row holds can replace one row's value without breaking uniqueness. */
  lemma ReplaceKeepsUnique<T>(t: Table<T>, column: T -> string, id: int, f: T)
    requires IdsAscending(t) && UniqueColumn(t, column)
    requires !Taken(t, column, column(f), Some(id))
    ensures UniqueColumn(ReplaceFields(t, id, f), column)
  {
    var u := ReplaceFields(t, id, f);
    forall i, j | 0 <= i < |u| && 0 <= j < |u| && i != j
      ensures column(u[i].fields) != column(u[j].fields)
    {
      assert t[i].id != t[j].id by {
        if i < j { assert t[i].id < t[j].id; } else { assert t[j].id < t[i].id; }
      }
    }
  }

  /** Archive and restore touch no id and no column, so they keep the invariant. */
  lemma StampKeepsValid(db: Tables, db': Tables)
    requires ValidTables(db)
    requires SameIds(db.departments, db'.departments) && SameIds(db.courses, db'.courses)
    requires SameIds(db.years, db'.years) && SameIds(db.faculty, db'.faculty)
    requires SameIds(db.students, db'.students)
    requires forall i :: 0 <= i < |db.departments| ==> db'.departments[i].fields == db.departments[i].fields
    requires forall i :: 0 <= i < |db.courses| ==> db'.courses[i].fields == db.courses[i].fields
    requires forall i :: 0 <= i < |db.years| ==> db'.years[i].fields == db.years[i].fields
    requires forall i :: 0 <= i < |db.faculty| ==> db'.faculty[i].fields == db.faculty[i].fields
    requires forall i :: 0 <= i < |db.students| ==> db'.students[i].fields == db.students[i].fields
    ensures ValidTables(db')
  {
    SameIdsKeep(db.departments, db'.departments);
    SameIdsKeep(db.courses, db'.courses);
    SameIdsKeep(db.years, db'.years);
    SameIdsKeep(db.faculty, db'.faculty);
    SameIdsKeep(db.students, db'.students);
  }

  /** Rewriting one faculty member with a resolvable department and an email no other member holds keeps the invariant. */
  lemma ReplaceFacultyKeepsValid(db: Tables, id: int, f: FacultyFields)
    requires ValidTables(db)
    requires WellFormedFaculty(f) && HasId(db.departments, f.departmentId)
    requires !Taken(db.faculty, FacultyEmailColumn, f.email, Some(id))
    ensures ValidTables(db.(faculty := ReplaceFields(db.faculty, id, f)))
  {
    ReplaceKeepsUnique(db.faculty, FacultyEmailColumn, id, f);
    SameIdsKeep(db.faculty, ReplaceFields(db.faculty, id, f));
  }

  /** Rewriting one student with resolvable keys and an email no other student holds keeps the invariant. */
  lemma ReplaceStudentKeepsValid(db: Tables, id: int, f: StudentFields)
    requires ValidTables(db)
    requires WellFormedStudent(f) && HasId(db.departments, f.departmentId)
    requires HasId(db.courses, f.courseId) && HasId(db.years, f.academicYearId)
    requires !Taken(db.students, StudentEmailColumn, f.email, Some(id))
    ensures ValidTables(db.(students := ReplaceFields(db.students, id, f)))
  {
    ReplaceKeepsUnique(db.students, StudentEmailColumn, id, f);
    SameIdsKeep(db.students, ReplaceFields(db.students, id, f));
  }

  /**
   * Archiving a student does not free the email: the unique rule looks at
   * archived rows too, so a new student with that email is still refused.
   */
  lemma ArchivedEmailStillBlocks(db: Tables, k: int, now: int, inp: StudentInput)
    requires 0 <= k < |db.students| && inp.email == Some(db.students[k].fields.email)
    ensures !StudentRulesPass(inp, db.(students := SetArchivedAt(db.students, db.students[k].id, Some(now))), None)
  {
    var db' := db.(students := SetArchivedAt(db.students, db.students[k].id, Some(now)));
    assert db'.students[k].fields == db.students[k].fields;
    DuplicateStudentEmailRejected(inp, db', k);
  }

  // ---------------------------------------------------------------------------
  // The store

  class RecordStore {
    var departments: Table<DepartmentFields>
    var courses: Table<CourseFields>
    var years: Table<YearFields>
    var faculty: Table<FacultyFields>
    var students: Table<StudentFields>

    function Snapshot(): Tables
      reads this
    {
      Tables(departments, courses, years, faculty, students)
    }

    ghost predicate Valid()
      reads this
    {
      ValidTables(Snapshot())
    }

    /** A freshly migrated database: five empty tables. */
    constructor()
      ensures Valid()
      ensures Snapshot() == Tables([], [], [], [], [])
    {
      departments, courses, years, faculty, students := [], [], [], [], [];
    }

    // -------------------------------------------------------------------------
    // Departments

    /** `DepartmentController::store`. */
    method CreateDepartment(inp: DepartmentInput) returns (r: Result<Row<DepartmentFields>>)
      requires Valid()
      modifies this
      ensures Valid()
      ensures !DepartmentRulesPass(inp) ==> r == Err(ValidationError) && Snapshot() == old(Snapshot())
      ensures DepartmentRulesPass(inp) ==>
        && r == Ok(Row(NextId(old(departments)), DepartmentFieldsOf(inp), None))
        && Snapshot() == old(Snapshot()).(departments := old(departments) + [r.value])
    {
      if !DepartmentRulesPass(inp) {
        return Err(ValidationError);
      }
      var row := Row(NextId(departments), DepartmentFieldsOf(inp), None);
      AppendKeepsIds(departments, row.fields);
      departments := departments + [row];
      r := Ok(row);
    }

    /** `DepartmentController::update`. */
    method UpdateDepartment(id: int, inp: DepartmentInput) returns (r: Result<Row<DepartmentFields>>)
      requires Valid()
      modifies this
      ensures Valid()
      ensures !HasId(old(departments), id) ==> r == Err(InternalError) && Snapshot() == old(Snapshot())
      ensures HasId(old(departments), id) && !DepartmentRulesPass(inp) ==>
        r == Err(ValidationError) && Snapshot() == old(Snapshot())
      ensures HasId(old(departments), id) && DepartmentRulesPass(inp) ==>
        && r.Ok? && r.value.id == id && r.value.fields == DepartmentFieldsOf(inp)
        && Snapshot() == old(Snapshot()).(departments := ReplaceFields(old(departments), id, DepartmentFieldsOf(inp)))
    {
      var found := Find(departments, id);
      if found.None? {
        return Err(InternalError);
      }
      if !DepartmentRulesPass(inp) {
        return Err(ValidationError);
      }
      var f := DepartmentFieldsOf(inp);
      var old_departments := departments;
      departments := ReplaceFields(departments, id, f);
      SameIdsKeep(old_departments, departments);
      r := Ok(found.value.(fields := f));
    }

    /** `DepartmentController::archive`: `archived_at := now` on the row, 500 when there is none. */
    method ArchiveDepartment(id: int, now: int) returns (r: Result<()>)
      requires Valid()
      modifies this
      ensures Valid()
      ensures r.Ok? <==> HasId(old(departments), id)
      ensures r.Err? ==> r.error == InternalError && Snapshot() == old(Snapshot())
      ensures r.Ok? ==> Snapshot() == old(Snapshot()).(departments := SetArchivedAt(old(departments), id, Some(now)))
    {
      if !HasId(departments, id) {
        return Err(InternalError);
      }
      var db := Snapshot();
      departments := SetArchivedAt(departments, id, Some(now));
      StampKeepsValid(db, Snapshot());
      r := Ok(());
    }

    /** `DepartmentController::restore`: `archived_at := null` on the row, 500 when there is none. */
    method RestoreDepartment(id: int) returns (r: Result<()>)
      requires Valid()
      modifies this
      ensures Valid()
      ensures r.Ok? <==> HasId(old(departments), id)
      ensures r.Err? ==> r.error == InternalError && Snapshot() == old(Snapshot())
      ensures r.Ok? ==> Snapshot() == old(Snapshot()).(departments := SetArchivedAt(old(departments), id, None))
    {
      if !HasId(departments, id) {
        return Err(InternalError);
      }
      var db := Snapshot();
      departments := SetArchivedAt(departments, id, None);
      StampKeepsValid(db, Snapshot());
      r := Ok(());
    }

    // -------------------------------------------------------------------------
    // Courses

    /** `CourseController::store`: the name must be unused by every course, archived or not. */
    method CreateCourse(inp: CourseInput) returns (r: Result<Row<CourseFields>>)
      requires Valid()
      modifies this
      ensures Valid()
      ensures !CourseRulesPass(inp, old(Snapshot()), None) ==>
        r == Err(ValidationError) && Snapshot() == old(Snapshot())
      ensures CourseRulesPass(inp, old(Snapshot()), None) ==>
        && r == Ok(Row(NextId(old(courses)), CourseFieldsOf(inp, old(Snapshot()), None), None))
        && Snapshot() == old(Snapshot()).(courses := old(courses) + [r.value])
    {
      if !CourseRulesPass(inp, Snapshot(), None) {
        return Err(ValidationError);
      }
      var row := Row(NextId(courses), CourseFieldsOf(inp, Snapshot(), None), None);
      AppendKeepsIds(courses, row.fields);
      AppendKeepsUnique(courses, CourseNameColumn, row);
      courses := courses + [row];
      r := Ok(row);
    }

    /** `CourseController::update`: the name must be unused by every other course. */
    method UpdateCourse(id: int, inp: CourseInput) returns (r: Result<Row<CourseFields>>)
      requires Valid()
      modifies this
      ensures Valid()
      ensures !HasId(old(courses), id) ==> r == Err(InternalError) && Snapshot() == old(Snapshot())
      ensures HasId(old(courses), id) && !CourseRulesPass(inp, old(Snapshot()), Some(id)) ==>
        r == Err(ValidationError) && Snapshot() == old(Snapshot())
      ensures HasId(old(courses), id) && CourseRulesPass(inp, old(Snapshot()), Some(id)) ==>
        && r.Ok? && r.value.id == id
        && r.value.fields == CourseFieldsOf(inp, old(Snapshot()), Some(id))
        && Snapshot() == old(Snapshot()).(courses := ReplaceFields(old(courses), id, r.value.fields))
    {
      var found := Find(courses, id);
      if found.None? {
        return Err(InternalError);
      }
      if !CourseRulesPass(inp, Snapshot(), Some(id)) {
        return Err(ValidationError);
      }
      var f := CourseFieldsOf(inp, Snapshot(), Some(id));
      var old_courses := courses;
      ReplaceKeepsUnique(courses, CourseNameColumn, id, f);
      courses := ReplaceFields(courses, id, f);
      SameIdsKeep(old_courses, courses);
      r := Ok(found.value.(fields := f));
    }

    method ArchiveCourse(id: int, now: int) returns (r: Result<()>)
      requires Valid()
      modifies this
      ensures Valid()
      ensures r.Ok? <==> HasId(old(courses), id)
      ensures r.Err? ==> r.error == InternalError && Snapshot() == old(Snapshot())
      ensures r.Ok? ==> Snapshot() == old(Snapshot()).(courses := SetArchivedAt(old(courses), id, Some(now)))
    {
      if !HasId(courses, id) {
        return Err(InternalError);
      }
      var db := Snapshot();
      courses := SetArchivedAt(courses, id, Some(now));
      StampKeepsValid(db, Snapshot());
      r := Ok(());
    }

    method RestoreCourse(id: int) returns (r: Result<()>)
      requires Valid()
      modifies this
      ensures Valid()
      ensures r.Ok? <==> HasId(old(courses), id)
      ensures r.Err? ==> r.error == InternalError && Snapshot() == old(Snapshot())
      ensures r.Ok? ==> Snapshot() == old(Snapshot()).(courses := SetArchivedAt(old(courses), id, None))
    {
      if !HasId(courses, id) {
        return Err(InternalError);
      }
      var db := Snapshot();
      courses := SetArchivedAt(courses, id, None);
      StampKeepsValid(db, Snapshot());
      r := Ok(());
    }

    // -------------------------------------------------------------------------
    // Academic years

    /** `AcademicYearController::store`. */
    method CreateYear(inp: YearInput) returns (r: Result<Row<YearFields>>)
      requires Valid()
      modifies this
      ensures Valid()
      ensures !YearRulesPass(inp) ==> r == Err(ValidationError) && Snapshot() == old(Snapshot())
      ensures YearRulesPass(inp) ==>
        && r == Ok(Row(NextId(old(years)), YearFieldsOf(inp), None))
        && Snapshot() == old(Snapshot()).(years := old(years) + [r.value])
    {
      if !YearRulesPass(inp) {
        return Err(ValidationError);
      }
      var row := Row(NextId(years), YearFieldsOf(inp), None);
      AppendKeepsIds(years, row.fields);
      years := years + [row];
      r := Ok(row);
    }

    /** `AcademicYearController::update`. */
    method UpdateYear(id: int, inp: YearInput) returns (r: Result<Row<YearFields>>)
      requires Valid()
      modifies this
      ensures Valid()
      ensures !HasId(old(years), id) ==> r == Err(InternalError) && Snapshot() == old(Snapshot())
      ensures HasId(old(years), id) && !YearRulesPass(inp) ==>
        r == Err(ValidationError) && Snapshot() == old(Snapshot())
      ensures HasId(old(years), id) && YearRulesPass(inp) ==>
        && r.Ok? && r.value.id == id && r.value.fields == YearFieldsOf(inp)
        && Snapshot() == old(Snapshot()).(years := ReplaceFields(old(years), id, YearFieldsOf(inp)))
    {
      var found := Find(years, id);
      if found.None? {
        return Err(InternalError);
      }
      if !YearRulesPass(inp) {
        return Err(ValidationError);
      }
      var f := YearFieldsOf(inp);
      var old_years := years;
      years := ReplaceFields(years, id, f);
      SameIdsKeep(old_years, years);
      r := Ok(found.value.(fields := f));
    }

    method ArchiveYear(id: int, now: int) returns (r: Result<()>)
      requires Valid()
      modifies this
      ensures Valid()
      ensures r.Ok? <==> HasId(old(years), id)
      ensures r.Err? ==> r.error == InternalError && Snapshot() == old(Snapshot())
      ensures r.Ok? ==> Snapshot() == old(Snapshot()).(years := SetArchivedAt(old(years), id, Some(now)))
    {
      if !HasId(years, id) {
        return Err(InternalError);
      }
      var db := Snapshot();
      years := SetArchivedAt(years, id, Some(now));
      StampKeepsValid(db, Snapshot());
      r := Ok(());
    }

    method RestoreYear(id: int) returns (r: Result<()>)
      requires Valid()
      modifies this
      ensures Valid()
      ensures r.Ok? <==> HasId(old(years), id)
      ensures r.Err? ==> r.error == InternalError && Snapshot() == old(Snapshot())
      ensures r.Ok? ==> Snapshot() == old(Snapshot()).(years := SetArchivedAt(old(years), id, None))
    {
      if !HasId(years, id) {
        return Err(InternalError);
      }
      var db := Snapshot();
      years := SetArchivedAt(years, id, None);
      StampKeepsValid(db, Snapshot());
      r := Ok(());
    }

    // -------------------------------------------------------------------------
    // Faculty

    /** `FacultyController::store`: an omitted or null `hired_date` becomes `today`. */
    method CreateFaculty(inp: FacultyInput, today: string) returns (r: Result<Row<FacultyFields>>)
      requires Valid()
      modifies this
      ensures Valid()
      ensures !FacultyRulesPass(inp, old(Snapshot()), None) ==>
        r == Err(ValidationError) && Snapshot() == old(Snapshot())
      ensures FacultyRulesPass(inp, old(Snapshot()), None) ==>
        && FacultyComplete(inp)
        && r == Ok(Row(NextId(old(faculty)),
                       FacultyFieldsOf(inp, if inp.hiredDate.Given? then inp.hiredDate.value else today),
                       None))
        && Snapshot() == old(Snapshot()).(faculty := old(faculty) + [r.value])
    {
      if !FacultyRulesPass(inp, Snapshot(), None) {
        return Err(ValidationError);
      }
      var hired := if inp.hiredDate.Given? then inp.hiredDate.value else today;
      FacultyValidated(inp, Snapshot(), None, hired);
      var row := Row(NextId(faculty), FacultyFieldsOf(inp, hired), None);
      AppendKeepsIds(faculty, row.fields);
      AppendKeepsUnique(faculty, FacultyEmailColumn, row);
      faculty := faculty + [row];
      r := Ok(row);
    }

    /**
     * `FacultyController::update`: an omitted `hired_date` keeps the stored
     * date; an explicit null reaches the NOT NULL column and fails with 500.
     */
    method UpdateFaculty(id: int, inp: FacultyInput) returns (r: Result<Row<FacultyFields>>)
      requires Valid()
      modifies this
      ensures Valid()
      ensures !HasId(old(faculty), id) ==> r == Err(InternalError) && Snapshot() == old(Snapshot())
      ensures HasId(old(faculty), id) && !FacultyRulesPass(inp, old(Snapshot()), Some(id)) ==>
        r == Err(ValidationError) && Snapshot() == old(Snapshot())
      ensures HasId(old(faculty), id) && FacultyRulesPass(inp, old(Snapshot()), Some(id))
              && inp.hiredDate.Null? ==>
        r == Err(InternalError) && Snapshot() == old(Snapshot())
      ensures HasId(old(faculty), id) && FacultyRulesPass(inp, old(Snapshot()), Some(id))
              && !inp.hiredDate.Null? ==>
        && FacultyComplete(inp)
        && r.Ok? && r.value.id == id
        && r.value.fields == FacultyFieldsOf(inp, if inp.hiredDate.Given? then inp.hiredDate.value
                                                  else Find(old(faculty), id).value.fields.hiredDate)
        && Snapshot() == old(Snapshot()).(faculty := ReplaceFields(old(faculty), id, r.value.fields))
    {
      var found := Find(faculty, id);
      if found.None? {
        return Err(InternalError);
      }
      if !FacultyRulesPass(inp, Snapshot(), Some(id)) {
        return Err(ValidationError);
      }
      if inp.hiredDate.Null? {
        return Err(InternalError);
      }
      var hired := if inp.hiredDate.Given? then inp.hiredDate.value else found.value.fields.hiredDate;
      FacultyValidated(inp, Snapshot(), Some(id), hired);
      var f := FacultyFieldsOf(inp, hired);
      ReplaceFacultyKeepsValid(Snapshot(), id, f);
      faculty := ReplaceFields(faculty, id, f);
      r := Ok(found.value.(fields := f));
    }

    method ArchiveFaculty(id: int, now: int) returns (r: Result<()>)
      requires Valid()
      modifies this
      ensures Valid()
      ensures r.Ok? <==> HasId(old(faculty), id)
      ensures r.Err? ==> r.error == InternalError && Snapshot() == old(Snapshot())
      ensures r.Ok? ==> Snapshot() == old(Snapshot()).(faculty := SetArchivedAt(old(faculty), id, Some(now)))
    {
      if !HasId(faculty, id) {
        return Err(InternalError);
      }
      var db := Snapshot();
      faculty := SetArchivedAt(faculty, id, Some(now));
      StampKeepsValid(db, Snapshot());
      r := Ok(());
    }

    method RestoreFaculty(id: int) returns (r: Result<()>)
      requires Valid()
      modifies this
      ensures Valid()
      ensures r.Ok? <==> HasId(old(faculty), id)
      ensures r.Err? ==> r.error == InternalError && Snapshot() == old(Snapshot())
      ensures r.Ok? ==> Snapshot() == old(Snapshot()).(faculty := SetArchivedAt(old(faculty), id, None))
    {
      if !HasId(faculty, id) {
        return Err(InternalError);
      }
      var db := Snapshot();
      faculty := SetArchivedAt(faculty, id, None);
      StampKeepsValid(db, Snapshot());
      r := Ok(());
    }

    // -------------------------------------------------------------------------
    // Students

    /**
     * `StudentController::store`. Without an academic year the student gets
     * the first row of the years table, archived or not; with no year at all
     * the request fails with 422 and nothing is written.
     */
    method CreateStudent(inp: StudentInput) returns (r: Result<Row<StudentFields>>)
      requires Valid()
      modifies this
      ensures Valid()
      ensures !StudentRulesPass(inp, old(Snapshot()), None) ==>
        r == Err(ValidationError) && Snapshot() == old(Snapshot())
      ensures StudentRulesPass(inp, old(Snapshot()), None) && !inp.academicYearId.Given? && |old(years)| == 0 ==>
        r == Err(ValidationError) && Snapshot() == old(Snapshot())
      ensures StudentRulesPass(inp, old(Snapshot()), None) && (inp.academicYearId.Given? || |old(years)| > 0) ==>
        && StudentComplete(inp)
        && r.Ok? && r.value.id == NextId(old(students)) && r.value.IsLive()
        && HasId(old(years), r.value.fields.academicYearId)
        && (inp.academicYearId.Given? ==> r.value.fields.academicYearId == inp.academicYearId.value)
        && (!inp.academicYearId.Given? ==> r.value.fields.academicYearId == old(years)[0].id)
        && r.value.fields == StudentFieldsOf(inp, r.value.fields.academicYearId)
        && Snapshot() == old(Snapshot()).(students := old(students) + [r.value])
    {
      if !StudentRulesPass(inp, Snapshot(), None) {
        return Err(ValidationError);
      }
      var yearId: nat;
      if inp.academicYearId.Given? && inp.academicYearId.value != 0 {
        yearId := inp.academicYearId.value;
      } else {
        if |years| == 0 {
          return Err(ValidationError);
        }
        yearId := years[0].id;
      }
      StudentValidated(inp, Snapshot(), None, yearId);
      var row := Row(NextId(students), StudentFieldsOf(inp, yearId), None);
      AppendKeepsIds(students, row.fields);
      AppendKeepsUnique(students, StudentEmailColumn, row);
      students := students + [row];
      r := Ok(row);
    }

    /**
     * `StudentController::update`: an omitted `academic_year_id` keeps the
     * stored year; an explicit null reaches the NOT NULL column and fails with 500.
     */
    method UpdateStudent(id: int, inp: StudentInput) returns (r: Result<Row<StudentFields>>)
      requires Valid()
      modifies this
      ensures Valid()
      ensures !HasId(old(students), id) ==> r == Err(InternalError) && Snapshot() == old(Snapshot())
      ensures HasId(old(students), id) && !StudentRulesPass(inp, old(Snapshot()), Some(id)) ==>
        r == Err(ValidationError) && Snapshot() == old(Snapshot())
      ensures HasId(old(students), id) && StudentRulesPass(inp, old(Snapshot()), Some(id))
              && inp.academicYearId.Null? ==>
        r == Err(InternalError) && Snapshot() == old(Snapshot())
      ensures HasId(old(students), id) && StudentRulesPass(inp, old(Snapshot()), Some(id))
              && !inp.academicYearId.Null? ==>
        && StudentComplete(inp)
        && r.Ok? && r.value.id == id
        && r.value.fields == StudentFieldsOf(inp, if inp.academicYearId.Given? then inp.academicYearId.value
                                                  else Find(old(students), id).value.fields.academicYearId)
        && Snapshot() == old(Snapshot()).(students := ReplaceFields(old(students), id, r.value.fields))
    {
      var found := Find(students, id);
      if found.None? {
        return Err(InternalError);
      }
      if !StudentRulesPass(inp, Snapshot(), Some(id)) {
        return Err(ValidationError);
      }
      if inp.academicYearId.Null? {
        return Err(InternalError);
      }
      var yearId: nat := if inp.academicYearId.Given? then inp.academicYearId.value
                         else found.value.fields.academicYearId;
      assert HasId(years, yearId) by {
        if !inp.academicYearId.Given? {
          var k :| 0 <= k < |students| && students[k] == found.value;
        }
      }
      StudentValidated(inp, Snapshot(), Some(id), yearId);
      var f := StudentFieldsOf(inp, yearId);
      ReplaceStudentKeepsValid(Snapshot(), id, f);
      students := ReplaceFields(students, id, f);
      r := Ok(found.value.(fields := f));
    }

    method ArchiveStudent(id: int, now: int) returns (r: Result<()>)
      requires Valid()
      modifies this
      ensures Valid()
      ensures r.Ok? <==> HasId(old(students), id)
      ensures r.Err? ==> r.error == InternalError && Snapshot() == old(Snapshot())
      ensures r.Ok? ==> Snapshot() == old(Snapshot()).(students := SetArchivedAt(old(students), id, Some(now)))
    {
      if !HasId(students, id) {
        return Err(InternalError);
      }
      var db := Snapshot();
      students := SetArchivedAt(students, id, Some(now));
      StampKeepsValid(db, Snapshot());
      r := Ok(());
    }

    method RestoreStudent(id: int) returns (r: Result<()>)
      requires Valid()
      modifies this
      ensures Valid()
      ensures r.Ok? <==> HasId(old(students), id)
      ensures r.Err? ==> r.error == InternalError && Snapshot() == old(Snapshot())
      ensures r.Ok? ==> Snapshot() == old(Snapshot()).(students := SetArchivedAt(old(students), id, None))
    {
      if !HasId(students, id) {
        return Err(InternalError);
      }
      var db := Snapshot();
      students := SetArchivedAt(students, id, None);
      StampKeepsValid(db, Snapshot());
      r := Ok(());
    }
  }
}
