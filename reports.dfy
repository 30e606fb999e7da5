/**
 * The report endpoints: the filter options (live courses and live
 * departments, each in name order) and the student and faculty reports,
 * which list live rows under optional filters and echo those filters back.
 * A report filter applies when its parameter is present and PHP-truthy.
 */
module Reports {
  import opened Common
  import opened Records
  import opened Sorting
  import opened Listings

  // ---------------------------------------------------------------------------
  // ReportController::index

  datatype CourseOption = CourseOption(id: nat, name: string)
  datatype DepartmentOption = DepartmentOption(id: nat, name: string, head: string)
  datatype ReportOptions = ReportOptions(courses: seq<CourseOption>, departments: seq<DepartmentOption>)

  function DepartmentName(x: Row<DepartmentFields>): string { x.fields.name }

  /** `get(['course_id', 'course_name'])` of one row. */
  function CourseOptionOf(x: Row<CourseFields>): CourseOption {
    CourseOption(x.id, x.fields.name)
  }

  /** `get(['department_id', 'department_name', 'department_head'])` of one row. */
  function DepartmentOptionOf(x: Row<DepartmentFields>): DepartmentOption {
    DepartmentOption(x.id, x.fields.name, x.fields.head)
  }

  function OptionName(o: CourseOption): string { o.name }
  function DepartmentOptionName(o: DepartmentOption): string { o.name }

  /** The course options: the live courses, as id and name, in course-name order. */
  function CourseOptions(courses: Table<CourseFields>): (r: seq<CourseOption>)
    ensures forall o :: o in r <==> exists x :: x in courses && x.IsLive() && o == CourseOptionOf(x)
    ensures multiset(r) == multiset(Map(Live(courses), CourseOptionOf))
    ensures SortedBy(r, OptionName, Ascending)
  {
    var cs := SortBy(Live(courses), CourseName, Ascending);
    var r := Map(cs, CourseOptionOf);
    MapKeepsOrder(cs, CourseName, CourseOptionOf, OptionName, Ascending);
    MapPermutation(cs, Live(courses), CourseOptionOf);
    MapMembers(Live(courses), CourseOptionOf);
    assert forall o :: o in r <==> o in Map(Live(courses), CourseOptionOf) by {
      forall o ensures o in r <==> o in Map(Live(courses), CourseOptionOf) {
        assert o in r <==> multiset(r)[o] > 0;
      }
    }
    r
  }

  /** The department options: the live departments, as id, name and head, in department-name order. */
  function DepartmentOptions(departments: Table<DepartmentFields>): (r: seq<DepartmentOption>)
    ensures forall o :: o in r <==> exists x :: x in departments && x.IsLive() && o == DepartmentOptionOf(x)
    ensures multiset(r) == multiset(Map(Live(departments), DepartmentOptionOf))
    ensures SortedBy(r, DepartmentOptionName, Ascending)
  {
    var ds := SortBy(Live(departments), DepartmentName, Ascending);
    var r := Map(ds, DepartmentOptionOf);
    MapKeepsOrder(ds, DepartmentName, DepartmentOptionOf, DepartmentOptionName, Ascending);
    MapPermutation(ds, Live(departments), DepartmentOptionOf);
    MapMembers(Live(departments), DepartmentOptionOf);
    assert forall o :: o in r <==> o in Map(Live(departments), DepartmentOptionOf) by {
      forall o ensures o in r <==> o in Map(Live(departments), DepartmentOptionOf) {
        assert o in r <==> multiset(r)[o] > 0;
      }
    }
    r
  }

  /** `ReportController::index`: both option lists. */
  function Options(db: Tables): ReportOptions {
    ReportOptions(CourseOptions(db.courses), DepartmentOptions(db.departments))
  }

  // ---------------------------------------------------------------------------
  // generateStudentReport

  /** The request's `course_id`, `department_id` and `status`; `None` when absent. */
  datatype StudentReportQuery = StudentReportQuery(
    courseId: Option<string>, departmentId: Option<string>, status: Option<string>)

  datatype StudentReport = StudentReport(
    reportType: string, totalRecords: nat, generatedAt: string,
    filters: StudentReportQuery, data: seq<Row<StudentFields>>)

  /** Each filter restricts the rows only when its parameter is present and truthy. */
  predicate StudentReportMatches(x: Row<StudentFields>, q: StudentReportQuery) {
    && (Truthy(q.courseId) ==> IdIs(x.fields.courseId, q.courseId.value))
    && (Truthy(q.departmentId) ==> IdIs(x.fields.departmentId, q.departmentId.value))
    && (Truthy(q.status) ==> StudentStatusName(x.fields.status) == q.status.value)
  }

  /** The student report at the instant `now`. */
  function GenerateStudentReport(students: Table<StudentFields>, q: StudentReportQuery, now: string)
    : (r: StudentReport)
    ensures r.reportType == "students" && r.generatedAt == now && r.filters == q
    ensures r.totalRecords == |r.data|
    ensures forall x :: multiset(r.data)[x] ==
                        if x.IsLive() && StudentReportMatches(x, q) then multiset(students)[x] else 0
    ensures SortedBy(r.data, StudentName, Ascending)
  {
    var data := SortBy(Filter(students, (x: Row<StudentFields>) => x.IsLive() && StudentReportMatches(x, q)),
                       StudentName, Ascending);
    StudentReport("students", |data|, now, q, data)
  }

  /** A status outside the three the table can hold matches no row: the report is empty. */
  lemma UnknownStatusEmptyReport(students: Table<StudentFields>, q: StudentReportQuery, now: string)
    requires q.status.Some? && !PhpFalsy(q.status.value)
    requires ParseStudentStatus(q.status.value).None?
    ensures GenerateStudentReport(students, q, now).data == []
    ensures GenerateStudentReport(students, q, now).totalRecords == 0
  {
    var d := GenerateStudentReport(students, q, now).data;
    if |d| > 0 {
      assert multiset(d)[d[0]] > 0;
      EnumRoundTrips(Male, d[0].fields.status, FacultyStatus.Active);
      assert false;
    }
  }

  /**
   * Where a filter value is both truthy and non-blank, the report and the
   * student listing select the same live students.
   */
  lemma ReportAgreesWithListing(students: Table<StudentFields>, course: Option<string>,
                                department: Option<string>, now: string)
    requires Truthy(course) == Filled(course) && Truthy(department) == Filled(department)
    ensures multiset(GenerateStudentReport(students, StudentReportQuery(course, department, None), now).data)
         == multiset(StudentListing(students, StudentQuery(None, department, course, None)))
  {
    var rq := StudentReportQuery(course, department, None);
    var lq := StudentQuery(None, department, course, None);
    var report, listing := GenerateStudentReport(students, rq, now).data, StudentListing(students, lq);
    forall x ensures multiset(report)[x] == multiset(listing)[x] {
      SameSelection(x, course, department);
    }
    assert multiset(report) == multiset(listing);
  }

  /** One row: the report's filters and the listing's agree where truthy and filled coincide. */
  lemma SameSelection(x: Row<StudentFields>, course: Option<string>, department: Option<string>)
    requires Truthy(course) == Filled(course) && Truthy(department) == Filled(department)
    ensures StudentReportMatches(x, StudentReportQuery(course, department, None))
         == StudentMatches(x, StudentQuery(None, department, course, None))
  {
  }

  // ---------------------------------------------------------------------------
  // generateFacultyReport

  /** The request's `department_id` and `status`; there is no course filter. */
  datatype FacultyReportQuery = FacultyReportQuery(departmentId: Option<string>, status: Option<string>)

  datatype FacultyReport = FacultyReport(
    reportType: string, totalRecords: nat, generatedAt: string,
    filters: FacultyReportQuery, data: seq<Row<FacultyFields>>)

  predicate FacultyReportMatches(x: Row<FacultyFields>, q: FacultyReportQuery) {
    && (Truthy(q.departmentId) ==> IdIs(x.fields.departmentId, q.departmentId.value))
    && (Truthy(q.status) ==> FacultyStatusName(x.fields.status) == q.status.value)
  }

  /** The faculty report at the instant `now`. */
  function GenerateFacultyReport(faculty: Table<FacultyFields>, q: FacultyReportQuery, now: string)
    : (r: FacultyReport)
    ensures r.reportType == "faculty" && r.generatedAt == now && r.filters == q
    ensures r.totalRecords == |r.data|
    ensures forall x :: multiset(r.data)[x] ==
                        if x.IsLive() && FacultyReportMatches(x, q) then multiset(faculty)[x] else 0
    ensures SortedBy(r.data, FacultyName, Ascending)
  {
    var data := SortBy(Filter(faculty, (x: Row<FacultyFields>) => x.IsLive() && FacultyReportMatches(x, q)),
                       FacultyName, Ascending);
    FacultyReport("faculty", |data|, now, q, data)
  }

  /** "Graduated" is a student status only: filtering faculty by it yields an empty report. */
  lemma GraduatedFacultyReportEmpty(faculty: Table<FacultyFields>, d: Option<string>, now: string)
    ensures GenerateFacultyReport(faculty, FacultyReportQuery(d, Some("Graduated")), now).data == []
  {
    var r := GenerateFacultyReport(faculty, FacultyReportQuery(d, Some("Graduated")), now).data;
    if |r| > 0 {
      assert false;
    }
  }
}
