/**
 * The request validation of the `store` and `update` actions. A request
 * field is `None` when it was not sent. Each entity has a rule predicate
 * (the controller's VALIDATION_RULES, with its `unique` rule where it has
 * one), a function that builds the stored columns from a request that
 * passed, and a well-formedness predicate that every stored row keeps.
 *
 * The `email` and `date` format rules belong to the framework's validator;
 * a request carries their verdict in `formatsValid`.
 */
module Validation {
  import opened Common
  import opened Records

  /** `required|string|max:n`. */
  predicate RequiredText(v: Option<string>, max: nat) {
    v.Some? && !Blank(v.value) && |v.value| <= max
  }

  /** `required|string` (and `required|email`, `required|date` before the format check). */
  predicate Required(v: Option<string>) {
    v.Some? && !Blank(v.value)
  }

  /** `required|exists:<table>,<id column>`: archived rows count as existing. */
  predicate Exists<T>(v: Option<int>, t: Table<T>) {
    v.Some? && HasId(t, v.value)
  }

  /** `digits:4`: exactly four ASCII digits. */
  predicate FourDigits(s: string) {
    |s| == 4 && forall i :: 0 <= i < 4 ==> '0' <= s[i] <= '9'
  }

  /**
   * `unique:<table>,<column>[,<ignore id>,<id column>]`: some row other than
   * the ignored one already holds `v`, archived or not.
   */
  predicate Taken<T>(t: Table<T>, column: T -> string, v: string, ignore: Option<int>) {
    exists i :: 0 <= i < |t| && column(t[i].fields) == v && ignore != Some(t[i].id)
  }

  /** No two rows of `t` hold the same value in `column`. */
  ghost predicate UniqueColumn<T>(t: Table<T>, column: T -> string) {
    forall i, j :: 0 <= i < |t| && 0 <= j < |t| && i != j ==> column(t[i].fields) != column(t[j].fields)
  }

  lemma OwnValueNotTaken<T>(t: Table<T>, column: T -> string, k: int)
    requires IdsAscending(t) && UniqueColumn(t, column) && 0 <= k < |t|
    ensures !Taken(t, column, column(t[k].fields), Some(t[k].id))
  {
  }

  // ---------------------------------------------------------------------------
  // Departments

  datatype DepartmentInput = DepartmentInput(name: Option<string>, head: Option<string>)

  /** Name and head required, at most 255 characters each; no uniqueness rule. */
  predicate DepartmentRulesPass(inp: DepartmentInput) {
    RequiredText(inp.name, 255) && RequiredText(inp.head, 255)
  }

  predicate WellFormedDepartment(f: DepartmentFields) {
    !Blank(f.name) && |f.name| <= 255 && !Blank(f.head) && |f.head| <= 255
  }

  function DepartmentFieldsOf(inp: DepartmentInput): (f: DepartmentFields)
    requires DepartmentRulesPass(inp)
    ensures WellFormedDepartment(f)
  {
    DepartmentFields(inp.name.value, inp.head.value)
  }

  /** The request that resubmits a stored department unchanged. */
  function DepartmentInputOf(f: DepartmentFields): DepartmentInput {
    DepartmentInput(Some(f.name), Some(f.head))
  }

  lemma DepartmentResubmission(f: DepartmentFields)
    requires WellFormedDepartment(f)
    ensures DepartmentRulesPass(DepartmentInputOf(f))
    ensures DepartmentFieldsOf(DepartmentInputOf(f)) == f
  {
  }

  // ---------------------------------------------------------------------------
  // Courses

  datatype CourseInput = CourseInput(name: Option<string>, departmentId: Option<int>)

  function CourseNameColumn(f: CourseFields): string { f.name }

  /** Name required (max 255) and unused by any other course; department exists. */
  predicate CourseRulesPass(inp: CourseInput, db: Tables, ignore: Option<int>) {
    && RequiredText(inp.name, 255)
    && Exists(inp.departmentId, db.departments)
    && !Taken(db.courses, CourseNameColumn, inp.name.value, ignore)
  }

  predicate WellFormedCourse(f: CourseFields) {
    !Blank(f.name) && |f.name| <= 255
  }

  function CourseFieldsOf(inp: CourseInput, db: Tables, ignore: Option<int>): (f: CourseFields)
    requires CourseRulesPass(inp, db, ignore)
    ensures WellFormedCourse(f) && HasId(db.departments, f.departmentId)
    ensures !Taken(db.courses, CourseNameColumn, f.name, ignore)
  {
    CourseFields(inp.name.value, inp.departmentId.value as nat)
  }

  function CourseInputOf(f: CourseFields): CourseInput {
    CourseInput(Some(f.name), Some(f.departmentId))
  }

  /** A name held by any course, archived or live, blocks a new course. */
  lemma DuplicateCourseNameRejected(inp: CourseInput, db: Tables, k: int)
    requires 0 <= k < |db.courses| && inp.name == Some(db.courses[k].fields.name)
    ensures !CourseRulesPass(inp, db, None)
  {
    assert CourseNameColumn(db.courses[k].fields) == inp.name.value;
  }

  /** An update may keep the course's own name. */
  lemma CourseResubmission(db: Tables, k: int)
    requires IdsAscending(db.courses) && UniqueColumn(db.courses, CourseNameColumn)
    requires 0 <= k < |db.courses|
    requires WellFormedCourse(db.courses[k].fields)
    requires HasId(db.departments, db.courses[k].fields.departmentId)
    ensures CourseRulesPass(CourseInputOf(db.courses[k].fields), db, Some(db.courses[k].id))
    ensures CourseFieldsOf(CourseInputOf(db.courses[k].fields), db, Some(db.courses[k].id))
            == db.courses[k].fields
  {
    OwnValueNotTaken(db.courses, CourseNameColumn, k);
  }

  // ---------------------------------------------------------------------------
  // Academic years

  datatype YearInput = YearInput(start: Option<string>, end: Option<string>)

  /** Start and end are each exactly four digits; their order is not checked. */
  predicate YearRulesPass(inp: YearInput) {
    inp.start.Some? && FourDigits(inp.start.value) && inp.end.Some? && FourDigits(inp.end.value)
  }

  predicate WellFormedYear(f: YearFields) {
    FourDigits(f.start) && FourDigits(f.end)
  }

  function YearFieldsOf(inp: YearInput): (f: YearFields)
    requires YearRulesPass(inp)
    ensures WellFormedYear(f)
  {
    YearFields(inp.start.value, inp.end.value)
  }

  function YearInputOf(f: YearFields): YearInput {
    YearInput(Some(f.start), Some(f.end))
  }

  /** Any two four-digit labels pass, in either order. */
  lemma YearOrderUnchecked(a: string, b: string)
    requires FourDigits(a) && FourDigits(b)
    ensures YearRulesPass(YearInput(Some(a), Some(b))) && YearRulesPass(YearInput(Some(b), Some(a)))
  {
  }

  lemma YearResubmission(f: YearFields)
    requires WellFormedYear(f)
    ensures YearRulesPass(YearInputOf(f)) && YearFieldsOf(YearInputOf(f)) == f
  {
  }

  // ---------------------------------------------------------------------------
  // Faculty

  datatype FacultyInput = FacultyInput(
    fullName: Option<string>, email: Option<string>, phone: Option<string>,
    sex: Option<string>, dateOfBirth: Option<string>, address: Option<string>,
    departmentId: Option<int>, position: Option<string>, status: Option<string>,
    hiredDate: Nullable<string>, formatsValid: bool)

  function FacultyEmailColumn(f: FacultyFields): string { f.email }

  /** Every field of the form present, enumerations parsed. */
  predicate FacultyComplete(inp: FacultyInput) {
    && inp.fullName.Some? && inp.email.Some? && inp.phone.Some?
    && inp.sex.Some? && ParseSex(inp.sex.value).Some?
    && inp.dateOfBirth.Some? && inp.address.Some? && inp.departmentId.Some? && inp.departmentId.value >= 0
    && inp.position.Some? && inp.status.Some? && ParseFacultyStatus(inp.status.value).Some?
  }

  /** FacultyController's VALIDATION_RULES with the unique email rule. */
  predicate FacultyRulesPass(inp: FacultyInput, db: Tables, ignore: Option<int>) {
    && RequiredText(inp.fullName, 255)
    && Required(inp.email)
    && RequiredText(inp.phone, 20)
    && inp.sex.Some? && ParseSex(inp.sex.value).Some?
    && Required(inp.dateOfBirth)
    && Required(inp.address)
    && Exists(inp.departmentId, db.departments)
    && Required(inp.position)
    && inp.status.Some? && ParseFacultyStatus(inp.status.value).Some?
    && inp.formatsValid
    && !Taken(db.faculty, FacultyEmailColumn, inp.email.value, ignore)
  }

  predicate WellFormedFaculty(f: FacultyFields) {
    && !Blank(f.fullName) && |f.fullName| <= 255
    && !Blank(f.email)
    && !Blank(f.phone) && |f.phone| <= 20
    && !Blank(f.dateOfBirth) && !Blank(f.address) && !Blank(f.position)
  }

  lemma FacultyRulesComplete(inp: FacultyInput, db: Tables, ignore: Option<int>)
    requires FacultyRulesPass(inp, db, ignore)
    ensures FacultyComplete(inp)
  {
    var i :| 0 <= i < |db.departments| && db.departments[i].id == inp.departmentId.value;
  }

  function FacultyFieldsOf(inp: FacultyInput, hiredDate: string): (f: FacultyFields)
    requires FacultyComplete(inp)
    ensures f.hiredDate == hiredDate
  {
    FacultyFields(
      inp.fullName.value, inp.email.value, inp.phone.value, ParseSex(inp.sex.value).value,
      inp.dateOfBirth.value, inp.address.value, inp.departmentId.value as nat,
      inp.position.value, ParseFacultyStatus(inp.status.value).value, hiredDate)
  }

  /** A request that passed yields a well-formed row whose email no other row holds. */
  lemma FacultyValidated(inp: FacultyInput, db: Tables, ignore: Option<int>, hiredDate: string)
    requires FacultyRulesPass(inp, db, ignore)
    ensures FacultyComplete(inp)
    ensures WellFormedFaculty(FacultyFieldsOf(inp, hiredDate))
    ensures HasId(db.departments, FacultyFieldsOf(inp, hiredDate).departmentId)
    ensures !Taken(db.faculty, FacultyEmailColumn, FacultyFieldsOf(inp, hiredDate).email, ignore)
  {
    FacultyRulesComplete(inp, db, ignore);
  }

  function FacultyInputOf(f: FacultyFields): FacultyInput {
    FacultyInput(
      Some(f.fullName), Some(f.email), Some(f.phone), Some(SexName(f.sex)), Some(f.dateOfBirth),
      Some(f.address), Some(f.departmentId), Some(f.position), Some(FacultyStatusName(f.status)),
      Given(f.hiredDate), true)
  }

  /** An email held by any faculty row, archived or live, blocks a new member. */
  lemma DuplicateFacultyEmailRejected(inp: FacultyInput, db: Tables, k: int)
    requires 0 <= k < |db.faculty| && inp.email == Some(db.faculty[k].fields.email)
    ensures !FacultyRulesPass(inp, db, None)
  {
    assert FacultyEmailColumn(db.faculty[k].fields) == inp.email.value;
  }

  /** An update may keep the member's own email. */
  lemma FacultyResubmission(db: Tables, k: int)
    requires IdsAscending(db.faculty) && UniqueColumn(db.faculty, FacultyEmailColumn)
    requires 0 <= k < |db.faculty|
    requires WellFormedFaculty(db.faculty[k].fields)
    requires HasId(db.departments, db.faculty[k].fields.departmentId)
    ensures FacultyRulesPass(FacultyInputOf(db.faculty[k].fields), db, Some(db.faculty[k].id))
    ensures FacultyFieldsOf(FacultyInputOf(db.faculty[k].fields), db.faculty[k].fields.hiredDate)
            == db.faculty[k].fields
  {
    var f := db.faculty[k].fields;
    OwnValueNotTaken(db.faculty, FacultyEmailColumn, k);
    EnumRoundTrips(f.sex, StudentStatus.Active, f.status);
  }

  // ---------------------------------------------------------------------------
  // Students

  datatype StudentInput = StudentInput(
    fullName: Option<string>, email: Option<string>, phone: Option<string>,
    sex: Option<string>, dateOfBirth: Option<string>, address: Option<string>,
    departmentId: Option<int>, courseId: Option<int>, status: Option<string>,
    academicYearId: Nullable<int>, formatsValid: bool)

  function StudentEmailColumn(f: StudentFields): string { f.email }

  predicate StudentComplete(inp: StudentInput) {
    && inp.fullName.Some? && inp.email.Some? && inp.phone.Some?
    && inp.sex.Some? && ParseSex(inp.sex.value).Some?
    && inp.dateOfBirth.Some? && inp.address.Some?
    && inp.departmentId.Some? && inp.departmentId.value >= 0
    && inp.courseId.Some? && inp.courseId.value >= 0
    && inp.status.Some? && ParseStudentStatus(inp.status.value).Some?
  }

  /** StudentController's VALIDATION_RULES with the unique email rule. */
  predicate StudentRulesPass(inp: StudentInput, db: Tables, ignore: Option<int>) {
    && RequiredText(inp.fullName, 255)
    && Required(inp.email)
    && RequiredText(inp.phone, 20)
    && inp.sex.Some? && ParseSex(inp.sex.value).Some?
    && Required(inp.dateOfBirth)
    && Required(inp.address)
    && Exists(inp.departmentId, db.departments)
    && Exists(inp.courseId, db.courses)
    && inp.status.Some? && ParseStudentStatus(inp.status.value).Some?
    && (inp.academicYearId.Given? ==> HasId(db.years, inp.academicYearId.value))
    && inp.formatsValid
    && !Taken(db.students, StudentEmailColumn, inp.email.value, ignore)
  }

  predicate WellFormedStudent(f: StudentFields) {
    && !Blank(f.fullName) && |f.fullName| <= 255
    && !Blank(f.email)
    && !Blank(f.phone) && |f.phone| <= 20
    && !Blank(f.dateOfBirth) && !Blank(f.address)
  }

  lemma StudentRulesComplete(inp: StudentInput, db: Tables, ignore: Option<int>)
    requires StudentRulesPass(inp, db, ignore)
    ensures StudentComplete(inp)
  {
    var i :| 0 <= i < |db.departments| && db.departments[i].id == inp.departmentId.value;
    var j :| 0 <= j < |db.courses| && db.courses[j].id == inp.courseId.value;
  }

  function StudentFieldsOf(inp: StudentInput, yearId: nat): (f: StudentFields)
    requires StudentComplete(inp)
    ensures f.academicYearId == yearId
  {
    StudentFields(
      inp.fullName.value, inp.email.value, inp.phone.value, ParseSex(inp.sex.value).value,
      inp.dateOfBirth.value, inp.address.value, inp.departmentId.value as nat,
      inp.courseId.value as nat, yearId, ParseStudentStatus(inp.status.value).value)
  }

  /** A request that passed yields a well-formed row whose email no other row holds. */
  lemma StudentValidated(inp: StudentInput, db: Tables, ignore: Option<int>, yearId: nat)
    requires StudentRulesPass(inp, db, ignore)
    ensures StudentComplete(inp)
    ensures WellFormedStudent(StudentFieldsOf(inp, yearId))
    ensures HasId(db.departments, StudentFieldsOf(inp, yearId).departmentId)
    ensures HasId(db.courses, StudentFieldsOf(inp, yearId).courseId)
    ensures !Taken(db.students, StudentEmailColumn, StudentFieldsOf(inp, yearId).email, ignore)
  {
    StudentRulesComplete(inp, db, ignore);
  }

  function StudentInputOf(f: StudentFields): StudentInput {
    StudentInput(
      Some(f.fullName), Some(f.email), Some(f.phone), Some(SexName(f.sex)), Some(f.dateOfBirth),
      Some(f.address), Some(f.departmentId), Some(f.courseId), Some(StudentStatusName(f.status)),
      Given(f.academicYearId), true)
  }

  /** An email held by any student, archived or live, blocks a new student. */
  lemma DuplicateStudentEmailRejected(inp: StudentInput, db: Tables, k: int)
    requires 0 <= k < |db.students| && inp.email == Some(db.students[k].fields.email)
    ensures !StudentRulesPass(inp, db, None)
  {
    assert StudentEmailColumn(db.students[k].fields) == inp.email.value;
  }

  /** On update an email is refused exactly when a different student holds it. */
  lemma StudentUpdateEmailRule(inp: StudentInput, db: Tables, id: int, k: int)
    requires 0 <= k < |db.students| && inp.email == Some(db.students[k].fields.email)
    ensures db.students[k].id != id ==> !StudentRulesPass(inp, db, Some(id))
  {
    assert StudentEmailColumn(db.students[k].fields) == inp.email.value;
  }

  /** An update may keep the student's own email and every other column. */
  lemma StudentResubmission(db: Tables, k: int)
    requires IdsAscending(db.students) && UniqueColumn(db.students, StudentEmailColumn)
    requires 0 <= k < |db.students|
    requires WellFormedStudent(db.students[k].fields)
    requires HasId(db.departments, db.students[k].fields.departmentId)
    requires HasId(db.courses, db.students[k].fields.courseId)
    requires HasId(db.years, db.students[k].fields.academicYearId)
    ensures StudentRulesPass(StudentInputOf(db.students[k].fields), db, Some(db.students[k].id))
    ensures StudentFieldsOf(StudentInputOf(db.students[k].fields), db.students[k].fields.academicYearId)
            == db.students[k].fields
  {
    var f := db.students[k].fields;
    OwnValueNotTaken(db.students, StudentEmailColumn, k);
    EnumRoundTrips(f.sex, f.status, FacultyStatus.Active);
  }
}
