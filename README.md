# Soft-archive record store

This project models the record store behind a school administration API written in Laravel. The store has five tables:
- departments;
- courses, each in a department;
- academic years;
- faculty, each in a department;
- students, each in a department, a course and an academic year.

Every row carries a nullable `archived_at`, and rows are never deleted. Archiving writes the current instant and restoring writes null. The listings, the reports, the report options and the dashboard counts read only the rows whose `archived_at` is null, and the archive page reads only the other rows. Some reads ignore `archived_at` and see both kinds:
- `show` finds an archived row by its id (`Listings.Show`);
- the `exists` rule accepts an archived department, course or year as a foreign key, and the `unique` rule counts archived rows as holders (`Validation.Exists`, `Validation.Taken`);
- the dashboard labels a group with the name of its course or the head of its department even when that row is archived (`Dashboard.CourseNameOr`, `Dashboard.DepartmentHeadOr`);
- the archive feed labels an item with its related department and course whether or not those are archived (`ArchiveFeed.DepartmentLabel`, `ArchiveFeed.CourseLabel`).

The model covers the eight controllers that implement this:
- **Writes.** Each resource controller has `store`, `update`, `archive` and `restore`. They are the methods of the `Store.RecordStore` class.
  - The class holds the five tables as fields.
  - The methods keep a store-wide invariant: ids ascending, unique course names and emails, well-formed rows, foreign keys that resolve.
  - Each method states the whole new state and every error answer.
- **Reads.**
  - `index` filters, then orders; `show` finds a row even when it is archived. These are in `Listings`.
  - The cross-entity archived feed is in `ArchiveFeed`. It is built imperatively, five appends followed by an in-place sort on an array, and proved against a pure specification.
  - The dashboard aggregates are in `Dashboard`; they group by course or department and cycle through an 8-colour palette.
  - The report endpoints are in `Reports`.
- **Validation.** The `VALIDATION_RULES` of each controller, with its `unique` and `exists` rules, are in `Validation`.

Modelling choices:
- **Time** (`now()`, today's date) is a parameter.
- **HTTP errors** are a `Result` whose error is one of 422 (validation), 404 (`show` only) or 500. The 500 covers every exception the generic handler catches, including `findOrFail` inside `update`, `archive` and `restore`.
- **Request parameters** are `Option<string>` when the code asks `has`/`filled`, and plain strings with their defaults when it uses `get(key, default)`.
- **Nullable fields** (`academic_year_id`, `hired_date`) are `Absent | Null | Given(v)`.
- **Id parameters** are compared with the canonical decimal text of the id.

Modules, one file each:
- `common.dfy`: Option/Result, PHP and Laravel parameter tests, substring search, decimal ids, string order, filter and map.
- `records.dfy`: rows, tables, enumerations, id lookup, single-row writes.
- `sorting.dfy`: a verified sort by a string key, ascending or descending.
- `validation.dfy`: the rule predicates and the rows they produce.
- `listings.dfy`: `index` and `show` of the five resource controllers.
- `archive_feed.dfy`: `ArchiveController::index`.
- `dashboard.dfy`: `DashboardController`.
- `reports.dfy`: `ReportController`.
- `store.dfy`: the `RecordStore` class and its write methods.

## Model

| member | source | states |
|---|---|---|
| Common.HttpError.Status | app/Http/Controllers/StudentController.php:88-93 | validation failures answer 422, not-found answers 404 and every other caught exception answers 500, each status for exactly one error kind |
| Common.NatToStringInjective | app/Http/Controllers/StudentController.php:43 | distinct ids have distinct decimal texts, so an exact-match id parameter selects at most one id |
| Common.IdIs | app/Http/Controllers/StudentController.php:43 | an id column equals a request parameter exactly when the parameter is the id's decimal text |
| Common.Filled | app/Http/Controllers/FacultyController.php:33 | `filled(key)`: the parameter is present and not blank after trimming |
| Common.PhpFalsy | app/Http/Controllers/ArchiveController.php:29 | PHP's truthiness of a string parameter: only the empty string and "0" are false |
| Common.Truthy | app/Http/Controllers/ReportController.php:48 | `has(key) && $request->key`: the parameter is present and PHP-truthy |
| Common.Filter | app/Http/Controllers/StudentController.php:29-30 | a `where` keeps exactly the elements satisfying the condition, in order, with their multiplicities |
| Records.ParseSex | app/Http/Controllers/StudentController.php:15 | `in:Male,Female` accepts exactly those two spellings and reads back the spelling given |
| Records.ParseStudentStatus | app/Http/Controllers/StudentController.php:20 | `in:Active,Inactive,Graduated` accepts exactly those three spellings |
| Records.ParseFacultyStatus | app/Http/Controllers/FacultyController.php:20 | `in:Active,Inactive` accepts exactly those two spellings |
| Records.EnumRoundTrips | app/Http/Controllers/StudentController.php:15-20 | every stored sex and status value passes its own `in:` rule and parses back to itself |
| Records.NextId | app/Http/Controllers/CourseController.php:37 | a created row gets an id at least 1 and larger than every id in its table |
| Records.Find | app/Http/Controllers/StudentController.php:115 | `findOrFail` finds a row exactly when the id is in the table, archived rows included, and returns a row of the table with that id |
| Records.FindAt | app/Http/Controllers/StudentController.php:115 | with unique ids the row found is the row holding that id |
| Records.SetArchivedAt | app/Http/Controllers/StudentController.php:141 | `update(['archived_at' => ...])` changes only `archived_at` of the rows with that id; every other row and column is kept |
| Records.ReplaceFields | app/Http/Controllers/StudentController.php:122 | `update($validated)` replaces the columns of the row with that id and keeps its id and `archived_at`; other rows are kept |
| Records.Live | app/Http/Controllers/CourseController.php:20 | the `notArchived` scope keeps exactly the rows whose `archived_at` is null, with their multiplicities |
| Records.ArchiveHidesRow | app/Http/Controllers/StudentController.php:140-141 | after archiving, the live rows are the former live rows minus exactly the archived id |
| Records.RestoreShowsRow | app/Http/Controllers/StudentController.php:156-157 | after restoring, the row with that id is live again |
| Records.ArchiveRestoreRoundTrip | app/Http/Controllers/CourseController.php:84-98 | archiving a live row and then restoring it gives back the original table |
| Records.ArchiveTwiceOverwrites | app/Http/Controllers/CourseController.php:85 | archiving an archived row again overwrites its timestamp with the new instant |
| Sorting.SortBy | app/Http/Controllers/StudentController.php:48 | `orderBy` returns a permutation of its input that is ordered by the key in the requested direction |
| Sorting.MapKeepsOrder | app/Http/Controllers/ReportController.php:20-22 | projecting sorted rows to selected columns keeps them sorted by the projected key |
| Validation.Taken | app/Http/Controllers/StudentController.php:64 | the `unique` rule refuses a value held by any row other than the ignored one, archived rows included |
| Validation.OwnValueNotTaken | app/Http/Controllers/StudentController.php:118 | with unique values, a row's own value is never taken once the row itself is ignored |
| Validation.DepartmentRulesPass | app/Http/Controllers/DepartmentController.php:11-14 | the department rules pass exactly when name and head are present, not blank and at most 255 characters |
| Validation.DepartmentFieldsOf | app/Http/Controllers/DepartmentController.php:11-14 | a department that passed its rules has a non-blank name and head of at most 255 characters each |
| Validation.DepartmentResubmission | app/Http/Controllers/DepartmentController.php:55 | every stored department passes its rules when resubmitted unchanged, and yields the same columns |
| Validation.CourseRulesPass | app/Http/Controllers/CourseController.php:11-36 | the course rules pass exactly when the name is present, not blank, at most 255 characters and held by no course other than the ignored one, and the department id names a department row, archived or not |
| Validation.CourseFieldsOf | app/Http/Controllers/CourseController.php:11-14 | a course that passed has a well-formed name, an existing department and a name no other course holds |
| Validation.DuplicateCourseNameRejected | app/Http/Controllers/CourseController.php:32-36 | `store` refuses a course name held by any course, archived or live |
| Validation.CourseResubmission | app/Http/Controllers/CourseController.php:64-68 | `update` accepts a course keeping its own name, and stores the same columns |
| Validation.YearRulesPass | app/Http/Controllers/AcademicYearController.php:11-14 | the year rules pass exactly when start and end are both present and exactly four digits |
| Validation.YearFieldsOf | app/Http/Controllers/AcademicYearController.php:11-14 | an academic year that passed has a start and an end of exactly four digits each |
| Validation.YearOrderUnchecked | app/Http/Controllers/AcademicYearController.php:60-63 | any two four-digit labels pass in either order; start before end is not checked |
| Validation.YearResubmission | app/Http/Controllers/AcademicYearController.php:60-65 | every stored year passes the update rules unchanged and yields the same columns |
| Validation.FacultyRulesPass | app/Http/Controllers/FacultyController.php:11-22 | the faculty rules pass exactly when every required field is present, name and phone are within 255 and 20 characters, sex and status are among the listed spellings, the department exists, the formats are valid and no other faculty row holds the email |
| Validation.FacultyRulesComplete | app/Http/Controllers/FacultyController.php:11-22 | a faculty request that passed carries every field, a parsed sex and status and an existing department |
| Validation.FacultyFieldsOf | app/Http/Controllers/FacultyController.php:64-66 | the stored row takes its hire date from the value chosen by the controller |
| Validation.FacultyValidated | app/Http/Controllers/FacultyController.php:59-63 | a faculty request that passed yields a well-formed row with an existing department and an email no other faculty row holds |
| Validation.DuplicateFacultyEmailRejected | app/Http/Controllers/FacultyController.php:59-63 | `store` refuses an email held by any faculty row, archived or live |
| Validation.FacultyResubmission | app/Http/Controllers/FacultyController.php:99-103 | `update` accepts a member keeping their own email, and stores the same columns |
| Validation.StudentRulesPass | app/Http/Controllers/StudentController.php:11-22 | the student rules pass exactly when every required field is present, sex and status are among the listed spellings, department and course exist, a given year exists, the formats are valid and no other student holds the email |
| Validation.StudentRulesComplete | app/Http/Controllers/StudentController.php:11-22 | a student request that passed carries every field, a parsed sex and status and existing department and course |
| Validation.StudentFieldsOf | app/Http/Controllers/StudentController.php:81-84 | the stored row takes its academic year from the id the controller settled on |
| Validation.StudentValidated | app/Http/Controllers/StudentController.php:63-67 | a student request that passed yields a well-formed row with existing department and course and an email no other student holds |
| Validation.DuplicateStudentEmailRejected | app/Http/Controllers/StudentController.php:63-67 | `store` refuses an email held by any student, archived or live |
| Validation.StudentUpdateEmailRule | app/Http/Controllers/StudentController.php:117-121 | `update` refuses an email held by a different student |
| Validation.StudentResubmission | app/Http/Controllers/StudentController.php:117-122 | `update` accepts a student keeping their own email and every other column, and stores the same columns |
| Listings.StudentListing | app/Http/Controllers/StudentController.php:29-48 | the listing is exactly the live students that match every filled filter, with multiplicities, sorted by full name |
| Listings.StudentIndex | app/Http/Controllers/StudentController.php:33-48 | the controller's loop, which appends one `where` per filled parameter, selects exactly the listing's students |
| Listings.FacultyIndex | app/Http/Controllers/FacultyController.php:30-46 | exactly the live faculty whose name or email contains the search and whose department matches, sorted by full name |
| Listings.CourseIndex | app/Http/Controllers/CourseController.php:16-24 | exactly the live courses, sorted by course name |
| Listings.DepartmentIndex | app/Http/Controllers/DepartmentController.php:16-23 | exactly the live departments, sorted by department head |
| Listings.YearIndex | app/Http/Controllers/AcademicYearController.php:16-23 | exactly the live academic years, sorted by start year, descending |
| Listings.Show | app/Http/Controllers/CourseController.php:49-57 | `show` returns the row with that id, archived or not, and 404 exactly when there is none |
| Listings.DepartmentFilterPinsOneId | app/Http/Controllers/StudentController.php:39-43 | with a filled department filter every listed student belongs to the same department |
| Listings.ArchivedStudentUnlisted | app/Http/Controllers/StudentController.php:29-30 | an archived student appears in no listing |
| Listings.RestoredStudentListed | app/Http/Controllers/StudentController.php:153-157 | archive followed by restore puts a matching student back in the listing |
| ArchiveFeed.DepartmentLabel | app/Http/Controllers/ArchiveController.php:41 | `department->department_head ?? '-'`: the head of the department with that id, archived or not, and "-" when there is none |
| ArchiveFeed.CourseLabel | app/Http/Controllers/ArchiveController.php:114 | `course->course_name ?? '-'`: the name of the course with that id, archived or not, and "-" when there is none |
| ArchiveFeed.YearLabel | app/Http/Controllers/ArchiveController.php:83 | a year's label is its start, " - " and its end |
| ArchiveFeed.YearLabelRoundTrip | app/Http/Controllers/ArchiveController.php:83 | a year's label is `start - end`, and both labels can be read back from it |
| ArchiveFeed.ProjectCourse | app/Http/Controllers/ArchiveController.php:36-45 | a course item: kind `course`, the course's id and name, its department's head, no course label, its `archived_at` |
| ArchiveFeed.ProjectDepartment | app/Http/Controllers/ArchiveController.php:56-65 | a department item: labelled by the department's head, with no department or course label |
| ArchiveFeed.ProjectYear | app/Http/Controllers/ArchiveController.php:79-88 | a year item: labelled `start - end`, with no department or course label |
| ArchiveFeed.ProjectStudent | app/Http/Controllers/ArchiveController.php:108-117 | a student item: the full name, the department's head and the course's name |
| ArchiveFeed.ProjectFaculty | app/Http/Controllers/ArchiveController.php:131-140 | a faculty item: the full name and the department's head, no course label |
| ArchiveFeed.KeepCourse | app/Http/Controllers/ArchiveController.php:29-34 | a truthy search must occur in the course name and a truthy department id must equal the course's |
| ArchiveFeed.KeepDepartment | app/Http/Controllers/ArchiveController.php:52-54 | a truthy search must occur in the department head; no other filter applies |
| ArchiveFeed.KeepYear | app/Http/Controllers/ArchiveController.php:72-77 | a truthy search must occur in the start or in the end |
| ArchiveFeed.KeepStudent | app/Http/Controllers/ArchiveController.php:95-106 | a truthy search must occur in the full name, and each truthy id parameter must equal the student's department, course or year |
| ArchiveFeed.KeepFaculty | app/Http/Controllers/ArchiveController.php:124-129 | a truthy search must occur in the full name and a truthy department id must equal the member's |
| ArchiveFeed.MatchingRows | app/Http/Controllers/ArchiveController.php:27-34 | the rows one kind's query reads are the archived rows its filters accept, each as often as in the table, and no others |
| ArchiveFeed.Collect | app/Http/Controllers/ArchiveController.php:27-46 | every item of one kind comes from an archived row that passed the filters, and every such row contributes its projection |
| ArchiveFeed.CollectOnePerRow | app/Http/Controllers/ArchiveController.php:36-46 | `get()->map(...)` gives exactly one item per row the query reads, in table order, the i-th item projecting the i-th row with its `archived_at` |
| ArchiveFeed.Unsorted | app/Http/Controllers/ArchiveController.php:26-142 | the merged list before sorting: the items of each kind that `type` selects, in the order courses, departments, years, students, faculty |
| ArchiveFeed.AllFeedLength | app/Http/Controllers/ArchiveController.php:26-142 | with `type=all` the feed holds one item per archived row, of any kind, that passes its kind's filters |
| ArchiveFeed.CollectCongruent | app/Http/Controllers/ArchiveController.php:29-34 | two queries whose filters agree on every row yield the same items |
| ArchiveFeed.SortNewestFirst | app/Http/Controllers/ArchiveController.php:145-147 | the `usort` leaves a permutation of the items ordered by `archived_at`, newest first |
| ArchiveFeed.ArchivedIndex | app/Http/Controllers/ArchiveController.php:14-149 | the response is a permutation of the five per-kind lists, concatenated, ordered newest first |
| ArchiveFeed.FeedSound | app/Http/Controllers/ArchiveController.php:26-142 | every item's kind is selected by `type`, and the item projects an archived row of that kind that passed its filters |
| ArchiveFeed.FeedComplete | app/Http/Controllers/ArchiveController.php:26-142 | every archived row of a selected kind that passes its filters appears, projected |
| ArchiveFeed.UnknownTypeEmpty | app/Http/Controllers/ArchiveController.php:26-121 | a `type` other than `all` and the five kind names yields no items |
| ArchiveFeed.LiveRowsNeverListed | app/Http/Controllers/ArchiveController.php:27-122 | no item carries the id of a live row of its kind |
| ArchiveFeed.ZeroSearchIgnored | app/Http/Controllers/ArchiveController.php:29-124 | a search of "0" is PHP-falsy and applies no filter, exactly like an empty search |
| ArchiveFeed.YearSearchExample | app/Http/Controllers/ArchiveController.php:72-87 | the search "2023" finds the archived year 2022-2023 by its end and skips 2019-2020 |
| Dashboard.LiveCount | app/Http/Controllers/DashboardController.php:31-39 | `notArchived()->count()`: the number of rows whose `archived_at` is null |
| Dashboard.ArchiveLowersLiveCount | app/Http/Controllers/DashboardController.php:31-39 | archiving a live row lowers the live total by exactly one |
| Dashboard.RestoreRaisesLiveCount | app/Http/Controllers/DashboardController.php:31-39 | restoring an archived row raises the live total by exactly one |
| Dashboard.Bump | app/Http/Controllers/DashboardController.php:44-45 | counting one more row adds its key to the groups, keeps keys distinct and raises that key's count alone |
| Dashboard.GroupBy | app/Http/Controllers/DashboardController.php:44-45 | `groupBy` with `count(*)` makes one group per distinct key, and each count is that key's number of rows |
| Dashboard.GroupCounts | app/Http/Controllers/DashboardController.php:44-47 | every group's key occurs among the rows and its count is at least one |
| Dashboard.CourseNameOr | app/Http/Controllers/DashboardController.php:46-49 | a group's label is the name of its course, archived or not, whenever a course has that id, and `Unknown` when none has |
| Dashboard.DepartmentHeadOr | app/Http/Controllers/DashboardController.php:59-62 | a group's label is its department's head, archived or not, whenever a department has that id, and `Unknown` when none has |
| Dashboard.StudentsPerCourse | app/Http/Controllers/DashboardController.php:41-52 | one point per distinct course among live students, labelled by course name, counting that course's live students; the counts sum to the live student total |
| Dashboard.FacultyPerDepartment | app/Http/Controllers/DashboardController.php:54-66 | one slice per distinct department among live faculty, counting its live members and coloured `CHART_COLORS[i mod 8]`; the values sum to the live faculty total |
| Dashboard.PaletteDistinct | app/Http/Controllers/DashboardController.php:11-14 | the eight palette colours are pairwise distinct |
| Dashboard.ColorsCycle | app/Http/Controllers/DashboardController.php:64 | neighbouring slices differ in colour and the colours repeat with period 8 |
| Dashboard.GetStats | app/Http/Controllers/DashboardController.php:19-29 | the totals count the live students and live faculty of the tables, the two breakdowns are the per-course and per-department groupings of those tables, and each total equals the sum of its breakdown |
| Reports.CourseOptions | app/Http/Controllers/ReportController.php:20-22 | one option per live course, with multiplicity, as id and name, sorted by course name |
| Reports.DepartmentOptions | app/Http/Controllers/ReportController.php:24-26 | one option per live department, with multiplicity, as id, name and head, sorted by department name |
| Reports.Options | app/Http/Controllers/ReportController.php:17-36 | the response of the options endpoint: the course options and the department options together |
| Reports.GenerateStudentReport | app/Http/Controllers/ReportController.php:41-74 | exactly the live students matching each present and truthy filter, sorted by full name; `total_records` is their number and the filters are echoed |
| Reports.UnknownStatusEmptyReport | app/Http/Controllers/ReportController.php:58-59 | a truthy status that no student can hold yields an empty report |
| Reports.ReportAgreesWithListing | app/Http/Controllers/ReportController.php:48-54 | where truthy and filled coincide, the report selects the same students as the student listing |
| Reports.SameSelection | app/Http/Controllers/ReportController.php:48-54 | for one row, the report's course and department filters accept it exactly when the listing's do, where truthy and filled coincide |
| Reports.GenerateFacultyReport | app/Http/Controllers/ReportController.php:84-111 | exactly the live faculty matching department and status, sorted by full name; `total_records` is their number and the filters are echoed |
| Reports.GraduatedFacultyReportEmpty | app/Http/Controllers/ReportController.php:96-97 | a faculty report filtered by `Graduated` is empty |
| Store.SameIdsKeep | app/Http/Controllers/StudentController.php:122 | a write that keeps every row's id keeps ids ascending and keeps every foreign key resolving |
| Store.AppendKeepsIds | app/Http/Controllers/StudentController.php:84 | appending a row under the next id keeps ids ascending and every existing id |
| Store.AppendKeepsUnique | app/Http/Controllers/StudentController.php:63-67 | appending a value no row holds keeps the column unique |
| Store.ReplaceKeepsUnique | app/Http/Controllers/StudentController.php:117-122 | replacing one row's value with one no other row holds keeps the column unique |
| Store.StampKeepsValid | app/Http/Controllers/StudentController.php:137-157 | archive and restore keep the store invariant |
| Store.ReplaceFacultyKeepsValid | app/Http/Controllers/FacultyController.php:99-104 | an update with a resolvable department and an email no other member holds keeps the store invariant |
| Store.ReplaceStudentKeepsValid | app/Http/Controllers/StudentController.php:117-122 | an update with resolvable keys and an email no other student holds keeps the store invariant |
| Store.ArchivedEmailStillBlocks | app/Http/Controllers/StudentController.php:63-65 | archiving a student does not free their email for a new student |
| Store.RecordStore.constructor | database/migrations/2024_10_20_000005_create_students_table.php:26-34 | an empty store satisfies the invariant |
| Store.RecordStore.CreateDepartment | app/Http/Controllers/DepartmentController.php:28-40 | 422 and no change when the rules fail; otherwise exactly one live row appended under the next id |
| Store.RecordStore.UpdateDepartment | app/Http/Controllers/DepartmentController.php:51-64 | 500 and no change for an unknown id, then 422 and no change when the rules fail; otherwise only that row's columns replaced |
| Store.RecordStore.ArchiveDepartment | app/Http/Controllers/DepartmentController.php:66-76 | 500 and no change for an unknown id; otherwise only that department's `archived_at` set, and the courses, faculty and students in it untouched |
| Store.RecordStore.RestoreDepartment | app/Http/Controllers/DepartmentController.php:78-88 | 500 and no change for an unknown id; otherwise only that row's `archived_at` cleared |
| Store.RecordStore.CreateCourse | app/Http/Controllers/CourseController.php:29-47 | 422 and no change when the rules or the unique name fail; otherwise one live row appended |
| Store.RecordStore.UpdateCourse | app/Http/Controllers/CourseController.php:59-79 | 500 for an unknown id before validation, 422 when the rules fail, otherwise only that row's columns replaced |
| Store.RecordStore.ArchiveCourse | app/Http/Controllers/CourseController.php:81-92 | 500 and no change for an unknown id; otherwise only that row's `archived_at` set to now |
| Store.RecordStore.RestoreCourse | app/Http/Controllers/CourseController.php:94-105 | 500 and no change for an unknown id; otherwise only that row's `archived_at` cleared |
| Store.RecordStore.CreateYear | app/Http/Controllers/AcademicYearController.php:25-37 | 422 and no change unless both labels are four digits; otherwise one live row appended |
| Store.RecordStore.UpdateYear | app/Http/Controllers/AcademicYearController.php:55-74 | 500 for an unknown id, 422 when the rules fail, otherwise only that row's labels replaced |
| Store.RecordStore.ArchiveYear | app/Http/Controllers/AcademicYearController.php:79-88 | 500 and no change for an unknown id; otherwise only that row's `archived_at` set |
| Store.RecordStore.RestoreYear | app/Http/Controllers/AcademicYearController.php:90-99 | 500 and no change for an unknown id; otherwise only that row's `archived_at` cleared |
| Store.RecordStore.CreateFaculty | app/Http/Controllers/FacultyController.php:56-76 | 422 and no change when the rules or the unique email fail; otherwise one live row appended whose hire date is the one given, or today when it was omitted or null |
| Store.RecordStore.UpdateFaculty | app/Http/Controllers/FacultyController.php:94-114 | 500 for an unknown id, 422 when the rules fail, 500 for an explicit null hire date; otherwise only that row's columns replaced, an omitted hire date kept |
| Store.RecordStore.ArchiveFaculty | app/Http/Controllers/FacultyController.php:119-130 | 500 and no change for an unknown id; otherwise only that row's `archived_at` set |
| Store.RecordStore.RestoreFaculty | app/Http/Controllers/FacultyController.php:135-146 | 500 and no change for an unknown id; otherwise only that row's `archived_at` cleared |
| Store.RecordStore.CreateStudent | app/Http/Controllers/StudentController.php:60-94 | 422 and no change when the rules or the unique email fail, or when no year is given and the years table is empty; otherwise one live row appended whose year is the one given or else the first year row, archived or not |
| Store.RecordStore.UpdateStudent | app/Http/Controllers/StudentController.php:112-132 | 500 for an unknown id, 422 when the rules fail, 500 for an explicit null year; otherwise only that row's columns replaced, an omitted year kept |
| Store.RecordStore.ArchiveStudent | app/Http/Controllers/StudentController.php:137-148 | 500 and no change for an unknown id; otherwise only that row's `archived_at` set to now |
| Store.RecordStore.RestoreStudent | app/Http/Controllers/StudentController.php:153-164 | 500 and no change for an unknown id; otherwise only that row's `archived_at` cleared |

## Left out

- Authentication, sessions, routes and the React front end: they only call these endpoints.
- The framework's `email` and `date` format validators: each input carries their verdict as one boolean, `formatsValid`.
- The `TrimStrings` and `ConvertEmptyStringsToNull` middleware: parameters reach the model as sent. A blank value fails `required` and `filled` as the validator would judge it.
- Request values that are not strings (JSON numbers, arrays) and MySQL's numeric coercion when an id column is compared with a parameter such as `"07"`: an id matches only its canonical decimal text.
- SQL `LIKE` collation: search is plain, case-sensitive substring containment, and `%` and `_` in a search term are taken literally.
- `ORDER BY` collation: strings are ordered by character code. The order of rows with equal keys is not specified, and neither is the order of feed items with equal timestamps.
- Dashboard.GroupBy: groups come out in the order each key first appears among the live rows. SQL leaves the order of `GROUP BY` results unspecified.
- Store.RecordStore.CreateStudent: without a given year the model takes the first row of the years table. The source's query matches every row and takes whichever `first()` returns.
- `strtotime` and timestamps: `archived_at` is an integer instant, and `created_at` and `updated_at` are not modelled.
- Database failures other than a missing row and the NOT NULL failure of an explicit null (connection loss, a constraint the validator did not foresee) and the 500 they produce.
- Concurrency: each request runs alone. The race between two requests' validation and write is not modelled, so two simultaneous `store` calls with the same course name or email, which the source can let through or turn into a 500 at the database's unique index, are outside the model.
- The feed's five queries as separate failure points: the whole feed succeeds or fails as one, as its single `try` makes it.
- The relations that `with(...)` and `load(...)` attach to responses, and the JSON rendering of rows.
- Column equality collation: a `where` on a string column, `unique` and the `status` filters compare strings exactly. MySQL's default collation compares them without regard to case or trailing spaces. `exists` compares integer ids, so collation does not reach it.
- Validation.Taken: an email or course name that differs from a stored one only in letter case counts as free, where the deployed database would report it taken.
- Reports.UnknownStatusEmptyReport: a status spelled with other letter case, such as `active`, counts as unknown and yields an empty report. Under MySQL's default collation it would match the `Active` rows.
- Reports.GenerateStudentReport: the `status` filter matches only the exact stored spelling.
- Reports.GenerateFacultyReport: the `status` filter matches only the exact stored spelling.
- Integer width: ids and counts are unbounded naturals. The store never approaches the database's integer limits.
