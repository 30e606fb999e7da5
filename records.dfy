/**
 * The five tables of the record store. Every row has an auto-increment
 * primary key, the columns its form fills in, and a nullable `archived_at`:
 * `None` means live, `Some(t)` means archived at instant `t`. Rows are never
 * deleted; archive and restore write `archived_at` of one row and nothing else.
 */
module Records {
  import opened Common

  datatype Row<T> = Row(id: nat, fields: T, archivedAt: Option<int>) {
    /** The `notArchived` scope: `archived_at IS NULL`. */
    predicate IsLive() { archivedAt.None? }
  }

  type Table<T> = seq<Row<T>>

  datatype Sex = Male | Female
  datatype StudentStatus = Active | Inactive | Graduated
  datatype FacultyStatus = Active | Inactive

  datatype DepartmentFields = DepartmentFields(name: string, head: string)
  datatype CourseFields = CourseFields(name: string, departmentId: nat)
  /** Academic years hold their start and end as four-character strings. */
  datatype YearFields = YearFields(start: string, end: string)
  datatype FacultyFields = FacultyFields(
    fullName: string, email: string, phone: string, sex: Sex, dateOfBirth: string,
    address: string, departmentId: nat, position: string, status: FacultyStatus,
    hiredDate: string)
  datatype StudentFields = StudentFields(
    fullName: string, email: string, phone: string, sex: Sex, dateOfBirth: string,
    address: string, departmentId: nat, courseId: nat, academicYearId: nat,
    status: StudentStatus)

  /** The whole store as one value. */
  datatype Tables = Tables(
    departments: Table<DepartmentFields>,
    courses: Table<CourseFields>,
    years: Table<YearFields>,
    faculty: Table<FacultyFields>,
    students: Table<StudentFields>)

  // ---------------------------------------------------------------------------
  // Enumerated columns and their spellings

  function SexName(x: Sex): string {
    match x
    case Male => "Male"
    case Female => "Female"
  }

  /** The `in:Male,Female` rule. */
  function ParseSex(s: string): (r: Option<Sex>)
    ensures r.Some? <==> s == "Male" || s == "Female"
    ensures r.Some? ==> SexName(r.value) == s
  {
    if s == "Male" then Some(Male) else if s == "Female" then Some(Female) else None
  }

  function StudentStatusName(x: StudentStatus): string {
    match x
    case Active => "Active"
    case Inactive => "Inactive"
    case Graduated => "Graduated"
  }

  /** The `in:Active,Inactive,Graduated` rule. */
  function ParseStudentStatus(s: string): (r: Option<StudentStatus>)
    ensures r.Some? <==> s == "Active" || s == "Inactive" || s == "Graduated"
    ensures r.Some? ==> StudentStatusName(r.value) == s
  {
    if s == "Active" then Some(StudentStatus.Active)
    else if s == "Inactive" then Some(StudentStatus.Inactive)
    else if s == "Graduated" then Some(Graduated)
    else None
  }

  function FacultyStatusName(x: FacultyStatus): string {
    match x
    case Active => "Active"
    case Inactive => "Inactive"
  }

  /** The `in:Active,Inactive` rule. */
  function ParseFacultyStatus(s: string): (r: Option<FacultyStatus>)
    ensures r.Some? <==> s == "Active" || s == "Inactive"
    ensures r.Some? ==> FacultyStatusName(r.value) == s
  {
    if s == "Active" then Some(FacultyStatus.Active)
    else if s == "Inactive" then Some(FacultyStatus.Inactive)
    else None
  }

  /** Every enumerated value survives being written out and read back. */
  lemma EnumRoundTrips(x: Sex, y: StudentStatus, z: FacultyStatus)
    ensures ParseSex(SexName(x)) == Some(x)
    ensures ParseStudentStatus(StudentStatusName(y)) == Some(y)
    ensures ParseFacultyStatus(FacultyStatusName(z)) == Some(z)
  {
  }

  // ---------------------------------------------------------------------------
  // Primary keys

  predicate HasId<T>(t: Table<T>, id: int) {
    exists i :: 0 <= i < |t| && t[i].id == id
  }

  /** Ids are positive and strictly increasing in insertion order, so unique. */
  ghost predicate IdsAscending<T>(t: Table<T>) {
    (forall i :: 0 <= i < |t| ==> t[i].id >= 1)
    && (forall i, j :: 0 <= i < j < |t| ==> t[i].id < t[j].id)
  }

  /** The id the next insert receives: one past the largest id so far. */
  function NextId<T>(t: Table<T>): (n: nat)
    requires IdsAscending(t)
    ensures n >= 1
    ensures forall i :: 0 <= i < |t| ==> t[i].id < n
  {
    if |t| == 0 then 1 else t[|t| - 1].id + 1
  }

  /** `findOrFail`'s lookup, which sees archived rows too. */
  function Find<T>(t: Table<T>, id: int): (r: Option<Row<T>>)
    ensures r.Some? <==> HasId(t, id)
    ensures r.Some? ==> r.value.id == id && r.value in t
  {
    if |t| == 0 then None
    else if t[0].id == id then Some(t[0])
    else
      assert forall i :: 1 <= i < |t| ==> t[i] == t[1..][i - 1];
      Find(t[1..], id)
  }

  /** With unique ids the row found is the row at that id's position. */
  lemma FindAt<T>(t: Table<T>, k: int)
    requires IdsAscending(t) && 0 <= k < |t|
    ensures Find(t, t[k].id) == Some(t[k])
  {
    var r := Find(t, t[k].id);
    var j :| 0 <= j < |t| && t[j] == r.value;
    assert j == k;
  }

  // ---------------------------------------------------------------------------
  // Single-row writes

  /** `update(['archived_at' => stamp])` on the row `id`; every other row and column kept. */
  function SetArchivedAt<T>(t: Table<T>, id: int, stamp: Option<int>): (r: Table<T>)
    ensures |r| == |t|
    ensures forall i :: 0 <= i < |t| ==>
      r[i] == if t[i].id == id then t[i].(archivedAt := stamp) else t[i]
  {
    seq(|t|, i requires 0 <= i < |t| => if t[i].id == id then t[i].(archivedAt := stamp) else t[i])
  }

  /** `update($validated)` on the row `id`: new columns, same id and `archived_at`. */
  function ReplaceFields<T>(t: Table<T>, id: int, f: T): (r: Table<T>)
    ensures |r| == |t|
    ensures forall i :: 0 <= i < |t| ==>
      r[i] == if t[i].id == id then t[i].(fields := f) else t[i]
  {
    seq(|t|, i requires 0 <= i < |t| => if t[i].id == id then t[i].(fields := f) else t[i])
  }

  /** The live rows of a table, in table order. */
  function Live<T(!new)>(t: Table<T>): (r: Table<T>)
    ensures |r| <= |t|
    ensures forall i :: 0 <= i < |r| ==> r[i].IsLive()
    ensures forall x :: x in r <==> x in t && x.IsLive()
    ensures forall x :: multiset(r)[x] == if x.IsLive() then multiset(t)[x] else 0
  {
    if |t| == 0 then []
    else
      assert t == [t[0]] + t[1..];
      if t[0].IsLive() then [t[0]] + Live(t[1..])
    else Live(t[1..])
  }

  /** The rows of `t` whose id is not `id`, in table order. */
  function Without<T(!new)>(t: Table<T>, id: int): (r: Table<T>)
    ensures forall x :: x in r <==> x in t && x.id != id
  {
    if |t| == 0 then []
    else if t[0].id != id then [t[0]] + Without(t[1..], id)
    else Without(t[1..], id)
  }

  /** Archiving hides exactly the rows with that id from the live set. */
  lemma {:induction false} ArchiveHidesRow<T(!new)>(t: Table<T>, id: int, now: int)
    ensures Live(SetArchivedAt(t, id, Some(now))) == Without(Live(t), id)
  {
    if |t| > 0 {
      var a := SetArchivedAt(t, id, Some(now));
      assert a[1..] == SetArchivedAt(t[1..], id, Some(now));
      ArchiveHidesRow(t[1..], id, now);
      if t[0].IsLive() {
        assert Live(t)[1..] == Live(t[1..]);
      }
    }
  }

  /** Restoring puts every row with that id back into the live set. */
  lemma RestoreShowsRow<T(!new)>(t: Table<T>, id: int, k: int)
    requires 0 <= k < |t| && t[k].id == id
    ensures t[k].(archivedAt := None) in Live(SetArchivedAt(t, id, None))
  {
    assert SetArchivedAt(t, id, None)[k] == t[k].(archivedAt := None);
  }

  /** Archive followed by restore gives back a table whose row `id` was live. */
  lemma ArchiveRestoreRoundTrip<T>(t: Table<T>, id: int, now: int)
    requires forall i :: 0 <= i < |t| && t[i].id == id ==> t[i].IsLive()
    ensures SetArchivedAt(SetArchivedAt(t, id, Some(now)), id, None) == t
  {
    var r := SetArchivedAt(SetArchivedAt(t, id, Some(now)), id, None);
    assert forall i :: 0 <= i < |t| ==> r[i] == t[i];
  }

  /** A second archive overwrites the first timestamp with the new one. */
  lemma ArchiveTwiceOverwrites<T>(t: Table<T>, id: int, first: int, second: int)
    ensures SetArchivedAt(SetArchivedAt(t, id, Some(first)), id, Some(second))
         == SetArchivedAt(t, id, Some(second))
  {
    var a := SetArchivedAt(SetArchivedAt(t, id, Some(first)), id, Some(second));
    var b := SetArchivedAt(t, id, Some(second));
    assert forall i :: 0 <= i < |t| ==> a[i] == b[i];
  }
}
