/**
 * The dashboard statistics: live student and faculty totals, live students
 * per course and live faculty per department. Grouped entries take their
 * label from the related row, archived or not, and fall back to "Unknown";
 * department slices cycle through an eight-colour palette.
 */
module Dashboard {
  import opened Common
  import opened Records

  // ---------------------------------------------------------------------------
  // Totals

  /** `notArchived()->count()`. */
  function LiveCount<T(!new)>(t: Table<T>): nat {
    |Live(t)|
  }

  /** Archiving one live row lowers the live total by exactly one. */
  lemma {:induction false} ArchiveLowersLiveCount<T(!new)>(t: Table<T>, k: int, now: int)
    requires IdsAscending(t) && 0 <= k < |t| && t[k].IsLive()
    ensures LiveCount(SetArchivedAt(t, t[k].id, Some(now))) == LiveCount(t) - 1
  {
    var id := t[k].id;
    var a := SetArchivedAt(t, id, Some(now));
    assert a[1..] == SetArchivedAt(t[1..], id, Some(now));
    if k == 0 {
      assert forall i :: 0 <= i < |t[1..]| ==> t[1..][i].id != id;
      assert SetArchivedAt(t[1..], id, Some(now)) == t[1..];
      assert !a[0].IsLive();
    } else {
      assert t[0].id != id;
      ArchiveLowersLiveCount(t[1..], k - 1, now);
      assert t[1..][k - 1] == t[k];
    }
  }

  /** Restoring one archived row raises the live total by exactly one. */
  lemma {:induction false} RestoreRaisesLiveCount<T(!new)>(t: Table<T>, k: int)
    requires IdsAscending(t) && 0 <= k < |t| && !t[k].IsLive()
    ensures LiveCount(SetArchivedAt(t, t[k].id, None)) == LiveCount(t) + 1
  {
    var id := t[k].id;
    var a := SetArchivedAt(t, id, None);
    assert a[1..] == SetArchivedAt(t[1..], id, None);
    if k == 0 {
      assert forall i :: 0 <= i < |t[1..]| ==> t[1..][i].id != id;
      assert SetArchivedAt(t[1..], id, None) == t[1..];
      assert a[0].IsLive();
    } else {
      assert t[0].id != id;
      RestoreRaisesLiveCount(t[1..], k - 1);
      assert t[1..][k - 1] == t[k];
    }
  }

  // ---------------------------------------------------------------------------
  // GROUP BY

  /** One row of `select key, count(*) ... group by key`. */
  datatype Group = Group(key: nat, count: nat)

  /** The keys that have a group. */
  function Keys(g: seq<Group>): set<nat> {
    if |g| == 0 then {} else {g[0].key} + Keys(g[1..])
  }

  /** No key has two groups. */
  predicate KeysDistinct(g: seq<Group>) {
    |g| == 0 || (g[0].key !in Keys(g[1..]) && KeysDistinct(g[1..]))
  }

  /** The count held for `x`, or 0 when `x` has no group. */
  function CountOf(g: seq<Group>, x: nat): nat {
    if |g| == 0 then 0 else if g[0].key == x then g[0].count else CountOf(g[1..], x)
  }

  /** The sum of the counts. */
  function Total(g: seq<Group>): nat {
    if |g| == 0 then 0 else g[0].count + Total(g[1..])
  }

  lemma {:induction false} KeyAt(g: seq<Group>, i: int)
    requires 0 <= i < |g|
    ensures g[i].key in Keys(g)
  {
    if i > 0 {
      KeyAt(g[1..], i - 1);
    }
  }

  lemma {:induction false} CountAt(g: seq<Group>, i: int)
    requires KeysDistinct(g) && 0 <= i < |g|
    ensures CountOf(g, g[i].key) == g[i].count
  {
    if i > 0 {
      KeyAt(g[1..], i - 1);
      CountAt(g[1..], i - 1);
    }
  }

  /** Counts one more row with key `k`: bumps its group, or opens one at the end. */
  function Bump(g: seq<Group>, k: nat): (r: seq<Group>)
    requires KeysDistinct(g)
    ensures Keys(r) == Keys(g) + {k}
    ensures KeysDistinct(r)
    ensures forall x :: CountOf(r, x) == CountOf(g, x) + (if x == k then 1 else 0)
    ensures Total(r) == Total(g) + 1
  {
    if |g| == 0 then
      var r := [Group(k, 1)];
      assert r[1..] == [];
      r
    else if g[0].key == k then
      var r := [g[0].(count := g[0].count + 1)] + g[1..];
      assert r[1..] == g[1..];
      r
    else
      var r := [g[0]] + Bump(g[1..], k);
      assert r[1..] == Bump(g[1..], k);
      r
  }

  /** Groups `keys` in first-appearance order, with the number of occurrences of each. */
  function GroupBy(keys: seq<nat>): (r: seq<Group>)
    ensures KeysDistinct(r)
    ensures forall x :: x in Keys(r) <==> x in keys
    ensures forall x :: CountOf(r, x) == multiset(keys)[x]
    ensures Total(r) == |keys|
  {
    if |keys| == 0 then []
    else
      var n := |keys| - 1;
      assert keys == keys[..n] + [keys[n]];
      Bump(GroupBy(keys[..n]), keys[n])
  }

  /** Every group holds at least one row, and exactly as many as carry its key. */
  lemma GroupCounts(keys: seq<nat>, i: int)
    requires 0 <= i < |GroupBy(keys)|
    ensures GroupBy(keys)[i].key in keys
    ensures GroupBy(keys)[i].count == multiset(keys)[GroupBy(keys)[i].key] >= 1
  {
    var g := GroupBy(keys);
    CountAt(g, i);
    KeyAt(g, i);
  }

  // ---------------------------------------------------------------------------
  // The statistics

  /** The `course_id` column of the live students, one entry per student. */
  function CourseKeys(students: Table<StudentFields>): (r: seq<nat>)
    ensures |r| == LiveCount(students)
  {
    var live := Live(students);
    seq(|live|, i requires 0 <= i < |live| => live[i].fields.courseId)
  }

  /** The `department_id` column of the live faculty, one entry per member. */
  function DepartmentKeys(faculty: Table<FacultyFields>): (r: seq<nat>)
    ensures |r| == LiveCount(faculty)
  {
    var live := Live(faculty);
    seq(|live|, i requires 0 <= i < |live| => live[i].fields.departmentId)
  }

  /** The eager-loaded course's name, archived or not, or "Unknown" when it does not resolve. */
  function CourseNameOr(courses: Table<CourseFields>, id: nat): (s: string)
    ensures !HasId(courses, id) ==> s == "Unknown"
    ensures HasId(courses, id) ==> exists i :: 0 <= i < |courses| && courses[i].id == id && s == courses[i].fields.name
  {
    match Find(courses, id)
    case Some(c) =>
      var i :| 0 <= i < |courses| && courses[i] == c;
      c.fields.name
    case None => "Unknown"
  }

  /** The eager-loaded department's head, archived or not, or "Unknown". */
  function DepartmentHeadOr(departments: Table<DepartmentFields>, id: nat): (s: string)
    ensures !HasId(departments, id) ==> s == "Unknown"
    ensures HasId(departments, id) ==>
      exists i :: 0 <= i < |departments| && departments[i].id == id && s == departments[i].fields.head
  {
    match Find(departments, id)
    case Some(d) =>
      var i :| 0 <= i < |departments| && departments[i] == d;
      d.fields.head
    case None => "Unknown"
  }

  datatype CoursePoint = CoursePoint(course: string, students: nat)
  datatype DepartmentSlice = DepartmentSlice(name: string, value: nat, color: string)

  const ChartColors: seq<string> :=
    ["#4A90E2", "#7B68A6", "#C44E9C", "#50C8E8", "#F39C12", "#E74C3C", "#9B59B6", "#1ABC9C"]

  function SumStudents(r: seq<CoursePoint>): nat {
    if |r| == 0 then 0 else r[0].students + SumStudents(r[1..])
  }

  function SumValues(r: seq<DepartmentSlice>): nat {
    if |r| == 0 then 0 else r[0].value + SumValues(r[1..])
  }

  function CoursePoints(g: seq<Group>, courses: Table<CourseFields>): (r: seq<CoursePoint>)
    ensures |r| == |g|
    ensures forall i :: 0 <= i < |g| ==>
      r[i].students == g[i].count && r[i].course == CourseNameOr(courses, g[i].key)
    ensures SumStudents(r) == Total(g)
  {
    if |g| == 0 then []
    else
      var r := [CoursePoint(CourseNameOr(courses, g[0].key), g[0].count)] + CoursePoints(g[1..], courses);
      assert r[1..] == CoursePoints(g[1..], courses);
      r
  }

  /** `studentsPerCourse`: one point per course among the live students. */
  function StudentsPerCourse(db: Tables): (r: seq<CoursePoint>)
    ensures SumStudents(r) == LiveCount(db.students)
    ensures |r| == |GroupBy(CourseKeys(db.students))|
    ensures forall i :: 0 <= i < |r| ==>
      var c := GroupBy(CourseKeys(db.students))[i].key;
      && c in CourseKeys(db.students)
      && r[i].course == CourseNameOr(db.courses, c)
      && r[i].students == multiset(CourseKeys(db.students))[c] >= 1
  {
    var keys := CourseKeys(db.students);
    var g := GroupBy(keys);
    var r := CoursePoints(g, db.courses);
    forall i | 0 <= i < |r| ensures r[i].students == multiset(keys)[g[i].key] >= 1 && g[i].key in keys {
      GroupCounts(keys, i);
    }
    r
  }

  function DepartmentSlices(g: seq<Group>, departments: Table<DepartmentFields>, offset: nat)
    : (r: seq<DepartmentSlice>)
    ensures |r| == |g|
    ensures forall i :: 0 <= i < |g| ==>
      && r[i].value == g[i].count
      && r[i].name == DepartmentHeadOr(departments, g[i].key)
      && r[i].color == ChartColors[(offset + i) % |ChartColors|]
    ensures SumValues(r) == Total(g)
  {
    if |g| == 0 then []
    else
      var head := DepartmentSlice(DepartmentHeadOr(departments, g[0].key), g[0].count,
                                  ChartColors[offset % |ChartColors|]);
      var r := [head] + DepartmentSlices(g[1..], departments, offset + 1);
      assert r[1..] == DepartmentSlices(g[1..], departments, offset + 1);
      r
  }

  /** `facultyPerDepartment`: one coloured slice per department among the live faculty. */
  function FacultyPerDepartment(db: Tables): (r: seq<DepartmentSlice>)
    ensures SumValues(r) == LiveCount(db.faculty)
    ensures forall i :: 0 <= i < |r| ==> r[i].color == ChartColors[i % 8]
    ensures |r| == |GroupBy(DepartmentKeys(db.faculty))|
    ensures forall i :: 0 <= i < |r| ==>
      var d := GroupBy(DepartmentKeys(db.faculty))[i].key;
      && d in DepartmentKeys(db.faculty)
      && r[i].name == DepartmentHeadOr(db.departments, d)
      && r[i].value == multiset(DepartmentKeys(db.faculty))[d] >= 1
  {
    var keys := DepartmentKeys(db.faculty);
    var g := GroupBy(keys);
    var r := DepartmentSlices(g, db.departments, 0);
    forall i | 0 <= i < |r| ensures r[i].value == multiset(keys)[g[i].key] >= 1 && g[i].key in keys {
      GroupCounts(keys, i);
    }
    r
  }

  /** The eight palette entries are pairwise different. */
  lemma PaletteDistinct(a: int, b: int)
    requires 0 <= a < b < |ChartColors|
    ensures ChartColors[a] != ChartColors[b]
  {
    var c := ChartColors;
    assert c[0][1] == '4' && c[1][1] == '7' && c[2][1] == 'C' && c[3][1] == '5';
    assert c[4][1] == 'F' && c[5][1] == 'E' && c[6][1] == '9' && c[7][1] == '1';
  }

  /** Neighbouring slices get different colours, and the palette repeats every eight slices. */
  lemma PaletteCycle(i: nat)
    ensures ChartColors[i % 8] != ChartColors[(i + 1) % 8]
    ensures ChartColors[i % 8] == ChartColors[(i + 8) % 8]
  {
    var a, b := i % 8, (i + 1) % 8;
    assert b == if a == 7 then 0 else a + 1;
    if a < b { PaletteDistinct(a, b); } else { PaletteDistinct(b, a); }
  }

  /** The colouring of the department slices: distinct neighbours, period eight. */
  lemma ColorsCycle(db: Tables, i: nat)
    requires i + 1 < |FacultyPerDepartment(db)|
    ensures FacultyPerDepartment(db)[i].color != FacultyPerDepartment(db)[i + 1].color
    ensures i + 8 < |FacultyPerDepartment(db)| ==>
      FacultyPerDepartment(db)[i].color == FacultyPerDepartment(db)[i + 8].color
  {
    PaletteCycle(i);
  }

  datatype Stats = Stats(
    totalStudents: nat, totalFaculty: nat,
    studentsPerCourse: seq<CoursePoint>, facultyPerDepartment: seq<DepartmentSlice>)

  /** `getStats`: the four figures, each over live rows only. */
  function GetStats(db: Tables): (r: Stats)
    ensures r.totalStudents == LiveCount(db.students) && r.totalFaculty == LiveCount(db.faculty)
    ensures r.studentsPerCourse == StudentsPerCourse(db)
    ensures r.facultyPerDepartment == FacultyPerDepartment(db)
    ensures r.totalStudents == SumStudents(r.studentsPerCourse)
    ensures r.totalFaculty == SumValues(r.facultyPerDepartment)
  {
    Stats(LiveCount(db.students), LiveCount(db.faculty), StudentsPerCourse(db), FacultyPerDepartment(db))
  }
}
