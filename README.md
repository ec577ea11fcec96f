# scholar-cool: a verified model of the school dashboard's data layer and view logic

scholar-cool is a browser dashboard for a school office. It keeps students, courses, grades,
attendance marks and an activity log. It lets staff import students and grades from CSV
files, record grades and attendance, and generate reports. This project models in Dafny the
parts of it that compute rather than draw. Each module follows one source file:

- `Tables` (tables.dfy) holds what the five in-memory services share:
  - a store is an array of records keyed by a numeric `Id`;
  - lookup goes through `parseInt(id)`;
  - a new record gets the next `Id`, `max(ids, 0) + 1`;
  - an update merges the data over the record with spread;
  - a delete splices the record out;
  - a thrown "not found" error is an `Err` result.
- `Students`, `Grades`, `Courses`, `Attendance` and `Activities` (the `*_service.dfy` files)
  model the services. Each is a class whose array field the methods change in place. Every
  method's postcondition gives the new array as a function of the old one. Lemmas about those
  functions state what the services promise: fresh `Id`s, unique `Id`s kept unique, a lookup
  after an update, a removed record gone, and enrolment without duplicates.
- `CsvUtils` (csv_utils.dfy) models the import's row validation and normalisation.
  - The two validators are methods with the source's loops. They are proved equal to a
    report function.
  - Lemmas state which rows pass, the order of the report and the shape of normalised
    records.
  - Two letter scales are modelled separately. The import uses thirteen steps, proved
    monotone through a threshold table. The grades page uses five, in `GradesPage`.
- `StudentTable` models search, status filter, sort, pagination and the sort toggle.
- `GradesPage`, `ReportsPage`, `AttendancePage` and `CoursesPage` model the pages' pure view
  logic, plus the store updates the attendance and course pages trigger.
- `ImportExport` models the import dialog:
  - its file-acceptance rule and the outcome of an import;
  - the truncated error list;
  - the template CSV text it offers for download.
- `StudentModal` models the student form:
  - the defaults applied on opening;
  - the dotted-name `handleChange`;
  - the communication-history add, edit and remove.
  A class `StudentForm` holds `formData` and its handlers.
- `Js` (js.dfy) and `Arrays` (arrays.dfy) give the JavaScript semantics the rest relies on:
  - values, truthiness and `||`;
  - `parseInt` and `parseFloat` on decimal text;
  - `trim`, ASCII `toLowerCase`, `includes`, `join` and `split`;
  - `filter`, `find`, `slice` and a stable sort.
  `CsvCells` (csv_cells.dfy) reads a comma-separated line back into cells. A cell that opens
  with a double quote runs to the next quote, so it may hold commas. A cell with an embedded
  (doubled) quote is beyond this reader. It is used to show what the downloaded template holds.

Numbers are exact: JavaScript doubles are modelled as `real`, and integers as `int`.
`Math.round(x)` is `Floor(x + 0.5)`. Clocks are parameters: `today` for the ISO date, `now`
for `Date.now()`, and `instant` for `new Date(timestamp)`. `Date.parse` is the parameter
`isDate`.

## Model

| member | source | states |
|---|---|---|
| Tables.Record | src/services/api/studentService.js:19 | a record handed out holds exactly the stored properties plus `Id`; each property keeps its stored value, and the `Id` is the record's |
| Tables.Records | src/services/api/studentService.js:8-12 | `[...rows]` gives the stored records, one per row, in store order |
| Tables.MaxId | src/services/api/studentService.js:26 | the maximum is non-negative, at least every stored `Id`, and either 0 or some record's `Id` |
| Tables.NextId | src/services/api/studentService.js:26-29 | the next `Id` is positive and strictly greater than every stored `Id` |
| Tables.FindId | src/services/api/studentService.js:40 | the index found is the first record with that `Id`, and `None` means no record has it |
| Tables.Lookup | src/services/api/studentService.js:14-21 | a lookup succeeds exactly when the parsed key is some record's `Id`, and then returns the first such record with its stored properties and that `Id`; otherwise it fails with the service's not-found message |
| Tables.CreatedUnique | src/services/api/studentService.js:26-33 | a created record's `Id` is held by no existing record, so unique ids stay unique |
| Tables.CreatedFound | src/services/api/studentService.js:32-34 | the created record is found at the end of the array under its new `Id`, with the stored properties |
| Tables.ReplacedKeepsIds | src/services/api/studentService.js:45-49 | an update keeps every record's `Id`, keeps ids unique and leaves every lookup index unchanged |
| Tables.UpdateThenLookup | src/services/api/studentService.js:45-51 | after an update, looking the same key up returns the new properties under the same `Id` |
| Tables.RemovedGone | src/services/api/studentService.js:57-62 | a delete shortens the array by one and keeps the other records in order; with unique ids the deleted `Id` can no longer be found |
| Tables.MergedWithIdsShape | src/services/api/gradeService.js:56-62 | an updated grade or mark stores as `studentId` and `courseId` exactly `parseInt` of the data's ids, the integer read or NaN; its other properties come from the data where the data has them and from the stored record elsewhere |
| Tables.PartialUpdateLosesStudentId | src/services/api/gradeService.js:60 | an update whose data lacks `studentId` stores NaN as the student id |
| Tables.RowsWhere | src/services/api/gradeService.js:22-25 | a filter returns no more records than the store holds |
| Tables.RowsWhereIff | src/services/api/gradeService.js:22-30 | a filter keeps exactly the records whose property is strictly equal to the value, and keeps none for NaN |
| Students.NewStudentFields | src/services/api/studentService.js:27-31 | a created student keeps every property of the data except `Id`; `enrollmentDate` is the data's when truthy and `today` otherwise |
| Students.StudentService.constructor | src/services/api/studentService.js:4-6 | the store starts as the given seed records |
| Students.StudentService.GetAll | src/services/api/studentService.js:8-12 | returns every stored student, in store order |
| Students.StudentService.GetById | src/services/api/studentService.js:14-21 | returns the student with `Id` `parseInt(id)`, or "Student not found" |
| Students.StudentService.Create | src/services/api/studentService.js:23-35 | appends one student with the next `Id`, returns it, and keeps ids unique |
| Students.StudentService.Update | src/services/api/studentService.js:37-52 | an unknown `Id` fails and changes nothing; otherwise only that record changes, to its properties merged with the data, and ids stay unique |
| Students.StudentService.Delete | src/services/api/studentService.js:54-64 | an unknown `Id` fails and changes nothing; otherwise exactly that record is removed and can no longer be looked up |
| Grades.NewGradeShape | src/services/api/gradeService.js:36-42 | a created grade stores `parseInt` of the data's `studentId` and `courseId` (the integer read, or NaN), the data's `dateRecorded` when truthy and `today` otherwise; its other properties are the data's |
| Grades.GradeService.constructor | src/services/api/gradeService.js:4-6 | the store starts as the given seed records |
| Grades.GradeService.GetAll | src/services/api/gradeService.js:8-11 | returns every stored grade, in store order |
| Grades.GradeService.GetById | src/services/api/gradeService.js:13-20 | returns the grade with `Id` `parseInt(id)`, or "Grade not found" |
| Grades.GradeService.GetByStudentId | src/services/api/gradeService.js:22-25 | returns exactly the grades whose `studentId` is strictly equal to `parseInt(studentId)`, in store order, and none for an unreadable id |
| Grades.GradeService.GetByCourseId | src/services/api/gradeService.js:27-30 | returns exactly the grades whose `courseId` is strictly equal to `parseInt(courseId)`, in store order |
| Grades.GradeService.Create | src/services/api/gradeService.js:32-46 | appends one grade with the next `Id` and parsed ids, returns it, and keeps ids unique |
| Grades.GradeService.Update | src/services/api/gradeService.js:48-65 | an unknown `Id` fails and changes nothing; otherwise only that record changes, to the merge with re-parsed ids |
| Grades.GradeService.Delete | src/services/api/gradeService.js:67-77 | an unknown `Id` fails and changes nothing; otherwise exactly that grade is removed |
| Courses.NewCourseFields | src/services/api/courseService.js:26-30 | a created course keeps the data's properties except `Id`; `enrolledStudents` is the data's when truthy and `[]` otherwise |
| Courses.WithStudentSpec | src/services/api/courseService.js:73-75 | enrolling puts the student on the list, keeps everyone already there in order, adds at most one entry, a second enrolment changes nothing, and a list without repeats keeps none |
| Courses.ChangeList | src/services/api/courseService.js:65-90 | the store after `enrollStudent`/`unenrollStudent` change the found course's list, "Course not found", or a TypeError when the list lacks the method called; a string list that `includes` the id's text is enrolled into without a change; EnrollStudent, UnenrollStudent, TextListEnrolment and the WithStudent/WithoutStudent lemmas state it |
| Courses.TextListEnrolment | src/services/api/courseService.js:73-77 | with the string "12" as the list, enrolling student 1 succeeds unchanged (`"12".includes(1)`), enrolling student 3 fails at `push`, and unenrolling fails for want of `filter` |
| Courses.WithoutStudentSpec | src/services/api/courseService.js:88 | unenrolling keeps exactly the entries not strictly equal to the student, removes every occurrence of a number, and only drops entries |
| Courses.EnrollThenUnenroll | src/services/api/courseService.js:73-88 | enrolling a new student by a readable id and then unenrolling them gives back the list |
| Courses.UnreadableIdSticks | src/services/api/courseService.js:73-88 | an unreadable student id is enrolled as NaN and unenrolling it leaves it there |
| Courses.CourseService.constructor | src/services/api/courseService.js:4-6 | the store starts as the given seed records |
| Courses.CourseService.GetAll | src/services/api/courseService.js:8-11 | returns every stored course, in store order |
| Courses.CourseService.GetById | src/services/api/courseService.js:13-20 | returns the course with `Id` `parseInt(id)`, or "Course not found" |
| Courses.CourseService.Create | src/services/api/courseService.js:22-34 | appends one course with the next `Id`, returns it, and keeps ids unique |
| Courses.CourseService.Update | src/services/api/courseService.js:36-51 | an unknown `Id` fails and changes nothing; otherwise only that record changes, to its merge with the data |
| Courses.CourseService.Delete | src/services/api/courseService.js:53-63 | an unknown `Id` fails and changes nothing; otherwise exactly that course is removed |
| Courses.CourseService.EnrollStudent | src/services/api/courseService.js:65-78 | an unknown course, or a list that is neither an array nor a string containing the id's text, fails and changes nothing; a string containing it succeeds with the store unchanged; otherwise only that course's list changes, to the list with the student added once |
| Courses.CourseService.UnenrollStudent | src/services/api/courseService.js:80-90 | an unknown course fails and changes nothing; otherwise only that course's list changes, to the entries not strictly equal to the student |
| Attendance.NewAttendanceShape | src/services/api/attendanceService.js:36-42 | a created mark stores `parseInt` of the data's `studentId` and `courseId` (the integer read, or NaN), the data's `recordedBy` when truthy and "System" otherwise; its other properties are the data's |
| Attendance.AttendanceService.constructor | src/services/api/attendanceService.js:4-6 | the store starts as the given seed records |
| Attendance.AttendanceService.GetAll | src/services/api/attendanceService.js:8-11 | returns every stored mark, in store order |
| Attendance.AttendanceService.GetById | src/services/api/attendanceService.js:13-20 | returns the mark with `Id` `parseInt(id)`, or "Attendance record not found" |
| Attendance.AttendanceService.GetByStudentId | src/services/api/attendanceService.js:22-25 | returns exactly the marks whose `studentId` is strictly equal to `parseInt(studentId)`, in store order, and none for an unreadable id |
| Attendance.AttendanceService.GetByDate | src/services/api/attendanceService.js:27-30 | returns exactly the marks whose `date` is strictly equal to the argument, in store order |
| Attendance.AttendanceService.Create | src/services/api/attendanceService.js:32-46 | appends one mark with the next `Id`, returns it, and keeps ids unique |
| Attendance.AttendanceService.Update | src/services/api/attendanceService.js:48-65 | an unknown `Id` fails and changes nothing; otherwise only that record changes, to the merge with re-parsed ids |
| Attendance.AttendanceService.Delete | src/services/api/attendanceService.js:67-77 | an unknown `Id` fails and changes nothing; otherwise exactly that mark is removed |
| Activities.NewActivityFields | src/services/api/activityService.js:26-30 | a created activity keeps the data's properties except `Id`; its `timestamp` is the data's when truthy and `now` otherwise |
| Activities.LaterIsStrictWeakOrder | src/services/api/activityService.js:10 | the newest-first comparator is a strict weak order, so the sort is well defined |
| Activities.NewestFirstSpec | src/services/api/activityService.js:8-11 | the sorted log is a permutation of the stored one, each activity no older than those after it |
| Activities.NewestFirst | src/services/api/activityService.js:8-11 | the log sorted newest first; NewestFirstSpec states it is a permutation ordered by instant |
| Activities.RecentSpec | src/services/api/activityService.js:36-41 | with a non-negative limit, the recent list is the newest `min(limit, n)` activities: a prefix of the sorted log, none older than an activity left out |
| Activities.Recent | src/services/api/activityService.js:36-41 | the sorted log cut at `limit`; RecentSpec and RecentNegativeLimit state it |
| Activities.RecentNegativeLimit | src/services/api/activityService.js:40 | a negative limit `-k` drops the `k` oldest activities |
| Activities.ActivityService.constructor | src/services/api/activityService.js:4-6 | the store starts as the given seed records |
| Activities.ActivityService.GetAll | src/services/api/activityService.js:8-11 | returns all stored activities newest first, one per stored activity, leaving the store as it is |
| Activities.ActivityService.GetById | src/services/api/activityService.js:13-20 | returns the activity with `Id` `parseInt(id)`, or "Activity not found" |
| Activities.ActivityService.Create | src/services/api/activityService.js:22-34 | appends one activity with the next `Id`, returns it, and keeps ids unique |
| Activities.ActivityService.GetRecent | src/services/api/activityService.js:36-41 | returns the newest `limit` stored activities (default 10), as many as the limit allows |
| CsvUtils.MissingMessages | src/utils/csvUtils.js:49-53 | the missing-field messages are empty exactly when no listed field is absent or blank; every blank field has its message, and every message names a blank listed field |
| CsvUtils.CheckRequired | src/utils/csvUtils.js:49-53 | the loop over the required fields pushes exactly the missing-field messages, in field order |
| CsvUtils.CheckStudentRow | src/utils/csvUtils.js:47-63 | one student row's messages: the missing fields, then the e-mail format, then the date |
| CsvUtils.CheckGradeRow | src/utils/csvUtils.js:82-110 | one grade row's messages: missing fields, then the id, points and maximum checks, then points above the maximum |
| CsvUtils.ValidateStudentData | src/utils/csvUtils.js:42-75 | the loop builds the report of the student check over all rows |
| CsvUtils.ValidateGradeData | src/utils/csvUtils.js:77-122 | the loop builds the report of the grade check over all rows |
| CsvUtils.ReportOf | src/utils/csvUtils.js:65-71 | a report has at most one entry per row |
| CsvUtils.ReportEntries | src/utils/csvUtils.js:65-71 | every entry holds a 1-based row number, that row, and its non-empty messages |
| CsvUtils.ReportOrdered | src/utils/csvUtils.js:46-71 | entries appear in increasing row order, so no row is reported twice |
| CsvUtils.ReportComplete | src/utils/csvUtils.js:65-71 | every row with a message is reported |
| CsvUtils.ReportEmptyIff | src/utils/csvUtils.js:65-74 | a report is empty exactly when no row draws a message |
| CsvUtils.EmailHasOneAt | src/utils/csvUtils.js:56 | an address matching the e-mail pattern holds exactly one `@` |
| CsvUtils.IsEmail | src/utils/csvUtils.js:56 | the e-mail pattern `^[^\s@]+@[^\s@]+\.[^\s@]+$`; EmailHasOneAt and LeadingSpaceNotEmail state what it accepts |
| CsvUtils.LeadingSpaceNotEmail | src/utils/csvUtils.js:56 | text starting with white space never matches the e-mail pattern |
| CsvUtils.StudentRowAccepted | src/utils/csvUtils.js:44-63 | a student row draws no message exactly when its four required fields are filled, its e-mail matches and its date parses |
| CsvUtils.BlankEmailTwoMessages | src/utils/csvUtils.js:50-57 | a white-space e-mail draws both the missing-field and the invalid-format message |
| CsvUtils.GradeRowAccepted | src/utils/csvUtils.js:79-110 | a grade row draws no message exactly when its five fields are filled, both ids are positive integers, the points are a non-negative number, the maximum is positive, and the points do not exceed it |
| CsvUtils.BlankIdTwoMessages | src/utils/csvUtils.js:84-97 | a `studentId` or `courseId` cell of white space only is truthy and blank, so it draws both the missing-field and the positive-integer message |
| CsvUtils.EmptyIdOneMessage | src/utils/csvUtils.js:84-97 | an absent or empty id cell draws the missing-field message and not the positive-integer one |
| CsvUtils.PositiveIntMessageOnlyIfBad | src/utils/csvUtils.js:91-97 | a field's positive-integer message appears only when that field is truthy and does not read as a positive integer |
| CsvUtils.NormalizeStudentData | src/utils/csvUtils.js:124-152 | one normalised student per row, in row order |
| CsvUtils.NormalizeStudent | src/utils/csvUtils.js:125-151 | one row of `normalizeStudentData`; NormalizedStudentEmails, NormalizedStudentDefaults and NormalizedStudentTrimmed state its fields |
| CsvUtils.TrimmedOrTrimmed | src/utils/csvUtils.js:126 | `trim() \|\| default` is trimmed when the default is |
| CsvUtils.LowerTrimmedOrLower | src/utils/csvUtils.js:128 | `toLowerCase().trim() \|\| default` is lower-case and trimmed when the default is |
| CsvUtils.NormalizedStudentEmails | src/utils/csvUtils.js:128-142 | the student's and both guardian e-mails are lower-case and trimmed |
| CsvUtils.NormalizedStudentDefaults | src/utils/csvUtils.js:134-150 | the status is a non-empty lower-case word, the relationship is never empty, the history is empty, and a blank enrolment date is today |
| CsvUtils.NormalizedStudentTrimmed | src/utils/csvUtils.js:126-133 | the text fields are trimmed, and the date of birth is copied unchanged |
| CsvUtils.Reached | src/utils/csvUtils.js:160-172 | a percentage reaches at most all the thresholds |
| CsvUtils.ReachedAt | src/utils/csvUtils.js:160-172 | in an increasing table, a percentage reaches exactly the thresholds below the first it misses |
| CsvUtils.LetterGradeByThresholds | src/utils/csvUtils.js:160-172 | the thirteen-step letter is the one whose threshold band holds the percentage |
| CsvUtils.LetterGrade | src/utils/csvUtils.js:160-172 | the thirteen-step letter; LetterGradeByThresholds and ReachedMonotone state it picks by threshold and is monotone |
| CsvUtils.ReachedMonotone | src/utils/csvUtils.js:160-172 | a higher percentage never reaches fewer thresholds, so never earns a worse letter |
| CsvUtils.NormalizeGradeData | src/utils/csvUtils.js:154-187 | one normalised grade per row, in row order |
| CsvUtils.NormalizeGrade | src/utils/csvUtils.js:155-186 | one row of `normalizeGradeData`; NormalizedGradeShape states the points (default 0) and maximum (default 100, also for "0") and the percentage of the stored numbers, AcceptedGradeNormalizes the ranges of a validated row |
| CsvUtils.NormalizedGradeShape | src/utils/csvUtils.js:156-172 | a cell that reads as a non-zero number is stored as read; absent, unreadable or zero points are 0 and such a maximum 100, so the maximum is never zero; a positive maximum gives the rounded percentage of the stored points, a negative one 0; the letter agrees with the stored percentage |
| CsvUtils.PercentageInRange | src/utils/csvUtils.js:158 | points within the maximum round to a percentage between 0 and 100 |
| CsvUtils.AcceptedGradeNormalizes | src/utils/csvUtils.js:77-187 | a row that passes validation normalises to positive ids, points within the maximum, and a percentage between 0 and 100 |
| StudentTable.StrLessAsymmetric | src/components/organisms/StudentTable.jsx:53-56 | JavaScript's string `<` is asymmetric |
| StudentTable.StrLessTransitive | src/components/organisms/StudentTable.jsx:53-56 | JavaScript's string `<` is transitive |
| StudentTable.StrLessTotal | src/components/organisms/StudentTable.jsx:53-56 | two different strings are ordered one way or the other |
| StudentTable.PrecedesIsStrictWeakOrder | src/components/organisms/StudentTable.jsx:44-58 | the comparator, in either direction, is a strict weak order |
| StudentTable.VisibleSpec | src/components/organisms/StudentTable.jsx:30-61 | the list is a permutation of the students passing the search and status filter, holds all of them and no others, and is sorted by the comparator |
| StudentTable.Visible | src/components/organisms/StudentTable.jsx:30-61 | the filtered, sorted list; VisibleSpec states it is a sorted permutation of exactly the matching students |
| StudentTable.EmptySearchMatchesAll | src/components/organisms/StudentTable.jsx:32-36 | an empty search term matches every student |
| StudentTable.AscendingKeys | src/components/organisms/StudentTable.jsx:44-58 | sorted ascending, adjacent rows have non-decreasing lower-cased keys |
| StudentTable.TotalPages | src/components/organisms/StudentTable.jsx:68 | the page count is the least number of ten-item pages that holds the list |
| StudentTable.PageSpec | src/components/organisms/StudentTable.jsx:63-66 | page p, from 1 to the count, is the slice from item 10(p-1), holding between one and ten items |
| StudentTable.Page | src/components/organisms/StudentTable.jsx:63-66 | the current page's slice; PageSpec, ItemOnItsPage and StalePageEmpty state it |
| StudentTable.ItemOnItsPage | src/components/organisms/StudentTable.jsx:63-68 | item i is on page i/10+1 at position i mod 10, and that page exists |
| StudentTable.StalePageEmpty | src/components/organisms/StudentTable.jsx:63-66 | a page past the count shows nothing |
| StudentTable.HandleSort | src/components/organisms/StudentTable.jsx:70-77 | a click sorts by the column; the same column flips the direction, another starts ascending; nothing else changes |
| StudentTable.HandleSortTwice | src/components/organisms/StudentTable.jsx:70-77 | two clicks on the sorted column restore the state |
| StudentTable.DescendingIsReverse | src/components/organisms/StudentTable.jsx:54-56 | descending puts a before b exactly when ascending puts b before a |
| GradesPage.CoarseLetter | src/components/pages/Grades.jsx:98-104 | the letter is one of A to F, A exactly from 90, F exactly below 60 |
| GradesPage.CoarseLetterMonotone | src/components/pages/Grades.jsx:98-104 | a higher percentage never earns a worse letter |
| GradesPage.CoarseAgreesWithImportScale | src/components/pages/Grades.jsx:98-104 | on a whole percentage, the letter is the first character of the import's thirteen-step letter |
| GradesPage.SubmitSpec | src/components/pages/Grades.jsx:63-87 | a grade is refused exactly when both numbers read and the points exceed the maximum (-0 equals 0); otherwise the letter comes from the unrounded percentage, the stored one is within half a hundredth of it, it is plus infinity (an A) exactly for negative points over a maximum of "-0", and between 0 and 100 for non-negative points over a positive maximum |
| GradesPage.Submit | src/components/pages/Grades.jsx:63-87 | `handleSubmit`: the toast refusal or the grade to create; SubmitSpec states when each happens and what the grade holds |
| GradesPage.Percentage | src/components/pages/Grades.jsx:75 | `(points / maxPoints) * 100` with NaN and the signed infinities of a zero divisor; StoredPercentage states its rounding, range and when it is plus infinity |
| GradesPage.LetterOf | src/components/pages/Grades.jsx:76 | `calculateLetterGrade` on the unrounded percentage, plus infinity an A and NaN an F; LetterBeforeRounding and EmptyPointsRecordedAsF state cases of it |
| GradesPage.StoredPercentage | src/components/pages/Grades.jsx:75-82 | for accepted numbers the two-decimal percentage is within half a hundredth of the exact one, in 0..100 for non-negative points over a positive maximum, and plus infinity (with an A) exactly for negative points over -0 |
| GradesPage.NegativeZeroMaximum | src/components/pages/Grades.jsx:67-76 | "-5" points over a maximum of "-0" are not refused by the handler and are recorded as plus infinity with an A |
| GradesPage.RoundBounds | src/components/pages/Grades.jsx:82 | rounding to two decimals moves a number by at most half a hundredth |
| GradesPage.DivideAtMostOne | src/components/pages/Grades.jsx:75 | points within a positive maximum give a percentage between 0 and 100 |
| GradesPage.TwoDecimalsInRange | src/components/pages/Grades.jsx:82 | rounding keeps a percentage between 0 and 100 |
| GradesPage.LetterBeforeRounding | src/components/pages/Grades.jsx:75-83 | 89.996 out of 100 is stored as 90 per cent with a B, while 90 out of 100 gets an A |
| GradesPage.EmptyPointsRecordedAsF | src/components/pages/Grades.jsx:67-83 | an empty points field is not refused and records an F with a NaN percentage |
| GradesPage.StudentNameSpec | src/components/pages/Grades.jsx:118-121 | the name is that of the first student with the grade's id, and "Unknown Student" when none has it |
| GradesPage.CourseFilterSelectsCourse | src/components/pages/Grades.jsx:139-152 | choosing a course lists exactly that course's grades |
| GradesPage.NoFilterListsAll | src/components/pages/Grades.jsx:139-152 | with every box empty the list is all grades, in order |
| GradesPage.SearchFindsUnknownStudents | src/components/pages/Grades.jsx:118-146 | a grade of an unlisted student is found by searching "unknown" |
| ReportsPage.ConvertToGPA | src/components/pages/Reports.jsx:233-239 | the points lie between 0 and 4 |
| ReportsPage.GpaIsLetterRank | src/components/pages/Reports.jsx:233-239 | the points are the rank of the grades page's letter, A being 4 and F 0 |
| ReportsPage.GpaMonotone | src/components/pages/Reports.jsx:233-239 | a higher percentage never earns fewer points |
| ReportsPage.SumBounds | src/components/pages/Reports.jsx:80-84 | a sum of n bounded values lies between n times the bounds |
| ReportsPage.MeanBounds | src/components/pages/Reports.jsx:80-84 | the mean, or 0 for none, of bounded values lies within the bounds |
| ReportsPage.RateBounds | src/components/pages/Reports.jsx:87-89 | a rounded share is between 0 and 100, and 100 when all are counted |
| ReportsPage.DistributionCounts | src/components/pages/Reports.jsx:92-95 | each letter is counted as often as it occurs, and only letters that occur are keys |
| ReportsPage.StudentIds | src/components/pages/Reports.jsx:73-77 | the grouped student ids are distinct and are exactly the ids on the grades |
| ReportsPage.Percentages | src/components/pages/Reports.jsx:185 | one percentage per grade, in order |
| ReportsPage.StudentGpas | src/components/pages/Reports.jsx:79-82 | one figure per student with grades, each between 0 and 4 |
| ReportsPage.OverviewSpec | src/components/pages/Reports.jsx:69-110 | active students never exceed all students; the average is between 0 and 4 and 0 without grades; the attendance rate is between 0 and 100; every letter is counted |
| ReportsPage.OverviewReport | src/components/pages/Reports.jsx:69-110 | `generateOverviewReport`: totals, active count, the mean of per-student GPAs, the present rate and the letter distribution; OverviewSpec states their bounds and counts |
| ReportsPage.GroupBy | src/components/pages/Reports.jsx:135-142 | no more groups than items, and no group is empty |
| ReportsPage.GroupBySpec | src/components/pages/Reports.jsx:135-142 | every item is in its key's group, and each group holds only items with that key |
| ReportsPage.GradePoints | src/components/pages/Reports.jsx:125 | one figure per grade, each between 0 and 4 |
| ReportsPage.StudentReportFound | src/components/pages/Reports.jsx:115-119 | a report is made exactly when a student has the id, and it is that student's |
| ReportsPage.StudentReportFor | src/components/pages/Reports.jsx:112-157 | `generateStudentReport`: the report on the student with the id, or none for "Student not found"; StudentReportFound, StudentReportHistory, StudentReportGrades and StudentReportRanges state its contents |
| ReportsPage.StudentReportHistory | src/components/pages/Reports.jsx:122-154 | the attendance history is exactly the student's marks |
| ReportsPage.StudentReportGrades | src/components/pages/Reports.jsx:121-153 | the course groups hold only the student's grades, and there are no more courses than grades |
| ReportsPage.GroupsHoldOwnGrades | src/components/pages/Reports.jsx:121-142 | grouping the student's grades by course name keeps only grades of that student |
| ReportsPage.StudentReportRanges | src/components/pages/Reports.jsx:124-132 | the student's average is between 0 and 4 and the attendance rate between 0 and 100 |
| ReportsPage.OverviewAverageExample | src/components/pages/Reports.jsx:73-84 | for one student at 95 and 65 per cent the overview's figure is 3.0 |
| ReportsPage.StudentAverageExample | src/components/pages/Reports.jsx:125-127 | for the same student the student report's figure is 2.5 |
| ReportsPage.Performances | src/components/pages/Reports.jsx:211-221 | one performance line per enrolled student, in order |
| ReportsPage.CourseReportFound | src/components/pages/Reports.jsx:169-173 | a report is made exactly when a course has the id, and it is that course's |
| ReportsPage.CourseReportFor | src/components/pages/Reports.jsx:166-224 | `generateCourseReport`: the report on the course with the id, or none for "Course not found"; CourseReportFound, CourseReportRoster and CourseReportRanges state its contents |
| ReportsPage.CourseReportRoster | src/components/pages/Reports.jsx:179-221 | the report lists every student with a grade in the course or on its roster, and only such students, each with their grades in the course |
| ReportsPage.CourseReportRanges | src/components/pages/Reports.jsx:185-208 | pass and attendance rates are between 0 and 100, the pass rate is 0 without grades, and the average is between 0 and 100 for valid percentages |
| AttendancePage.Roster | src/components/pages/Attendance.jsx:37 | the roster holds exactly the active students |
| AttendancePage.TextIsId | src/components/pages/Attendance.jsx:88 | comparing a parsed id's text with an id's text compares the numbers |
| AttendancePage.HandleAttendanceChange | src/components/pages/Attendance.jsx:51-84 | the store after a change updates the first matching mark through its `Id`, or creates one, keeping ids unique |
| AttendancePage.ChangedAttendance | src/components/pages/Attendance.jsx:51-79 | the store after `handleAttendanceChange`; ChangeShowsStatus and ChangeKeepsOthers state what the page then shows |
| AttendancePage.UpdateKeepsKeys | src/components/pages/Attendance.jsx:62-65 | updating a mark with its own copy and a new status keeps its student, date and course, and sets the status |
| AttendancePage.NewMarkMatches | src/components/pages/Attendance.jsx:68-75 | a created mark is the student's, on the day, in the selected course or course 1, with the status, no notes and recorder "System" |
| AttendancePage.ChangeShowsStatus | src/components/pages/Attendance.jsx:51-93 | after marking a student, the page shows that status for the student and day, and ids stay unique and parsed |
| AttendancePage.ChangeKeepsOthers | src/components/pages/Attendance.jsx:51-93 | marking one student on one day changes the status shown for no other student or day |
| AttendancePage.UnmarkedCountsPresent | src/components/pages/Attendance.jsx:86-93 | a student with no matching mark shows "Present" |
| AttendancePage.ShownStatusIsOption | src/components/pages/Attendance.jsx:86-93 | when every mark holds one of the four statuses, so does every shown status |
| AttendancePage.AttendanceStatus | src/components/pages/Attendance.jsx:86-93 | `getAttendanceStatus`: the first matching mark's status, or "Present"; UnmarkedCountsPresent and ShownStatusIsOption state it |
| AttendancePage.CountersCover | src/components/pages/Attendance.jsx:303-307 | the four counters add up to at most the roster, and to the roster when each shown status is one of the four |
| AttendancePage.CountsCoverRoster | src/components/pages/Attendance.jsx:303-307 | on the page, the counters add up to at most the active students, and exactly when all marks hold valid statuses |
| CoursesPage.HandleScheduleDayChange | src/components/pages/Courses.jsx:142-152 | only the schedule's days change |
| CoursesPage.ScheduleDaySpec | src/components/pages/Courses.jsx:147-149 | ticking appends the day; unticking removes every occurrence of it and keeps every other day |
| CoursesPage.TickThenUntick | src/components/pages/Courses.jsx:142-152 | ticking an unticked day and unticking it gives back the form |
| CoursesPage.ScheduleDisplayFull | src/components/pages/Courses.jsx:158-170 | with days, both times and a room, the line is days, time span and room |
| CoursesPage.ScheduleDisplayDoubleSpace | src/components/pages/Courses.jsx:163-169 | a room without both times leaves two spaces between the days and the room |
| CoursesPage.NoDaysNotScheduled | src/components/pages/Courses.jsx:159-161 | a schedule without days reads "Not scheduled" |
| CoursesPage.ScheduleDisplay | src/components/pages/Courses.jsx:158-170 | `getScheduleDisplay`; ScheduleDisplayFull, ScheduleDisplayDoubleSpace and NoDaysNotScheduled state its cases |
| CoursesPage.EnrollRaisesCount | src/components/pages/Courses.jsx:154-156 | after an enrolment the card counts one more student, or the same if already enrolled; a string list that succeeds is left unchanged |
| CoursesPage.EnrollmentCount | src/components/pages/Courses.jsx:154-156 | `getEnrollmentCount`: the list's length when truthy, else 0; EnrollRaisesCount and UnenrollLowersCount state how enrolment moves it |
| CoursesPage.UnenrollLowersCount | src/components/pages/Courses.jsx:154-156 | after an unenrolment the card counts no more students, and fewer when the student was listed |
| CoursesPage.FilteredCourses | src/components/pages/Courses.jsx:172-176 | the list holds exactly the courses whose name, code or teacher contains the term, ignoring case |
| CoursesPage.EmptySearchListsAll | src/components/pages/Courses.jsx:172-176 | an empty search lists every course, in order |
| CoursesPage.CourseData | src/components/pages/Courses.jsx:65-69 | the saved course has credit hours through `parseInt`, the edited course's enrolment list or `[]`, and no `Id` |
| CoursesPage.HandleSubmit | src/components/pages/Courses.jsx:61-87 | saving updates the edited course through its `Id` or creates a new one, keeping ids unique |
| CoursesPage.SaveKeepsEnrolment | src/components/pages/Courses.jsx:68 | saving an edited course keeps its enrolment list; a new course has nobody enrolled |
| ImportExport.HandleFileSelect | src/components/organisms/ImportExportModal.jsx:19-40 | selecting a file never closes the dialog |
| ImportExport.FileSelectSpec | src/components/organisms/ImportExportModal.jsx:19-40 | an acceptable file is chosen and the errors are cleared silently; another file leaves the state and raises the message of the first test it fails; no file does nothing |
| ImportExport.SizeLimitInclusive | src/components/organisms/ImportExportModal.jsx:33-36 | exactly ten mebibytes is accepted, one byte more is refused as too large |
| ImportExport.UpperCaseExtensionAccepted | src/components/organisms/ImportExportModal.jsx:28 | the name test ignores case and stands in for an unknown type |
| ImportExport.TextFileRefused | src/components/organisms/ImportExportModal.jsx:22-31 | a small plain-text file is refused |
| ImportExport.ImportSpec | src/components/organisms/ImportExportModal.jsx:62-81 | the dialog closes, cleared, exactly when the import succeeds; validation errors are kept with a warning; otherwise the state is untouched; a success notice only on success |
| ImportExport.HandleImport | src/components/organisms/ImportExportModal.jsx:62-81 | `handleImport` on the outcome of `onImport`; ImportSpec and SilentFailure state its results |
| ImportExport.SilentFailure | src/components/organisms/ImportExportModal.jsx:77-78 | an error without a message is reported as "Import failed" |
| ImportExport.Texts | src/components/organisms/ImportExportModal.jsx:192 | one text per message |
| ImportExport.ErrorLines | src/components/organisms/ImportExportModal.jsx:190-199 | at most ten error lines, plus one more line when there are more than ten |
| ImportExport.ErrorLinesSpec | src/components/organisms/ImportExportModal.jsx:190-199 | error i is on line i when i is below ten, and the last line counts the rest |
| ImportExport.ErrorCountRecoverable | src/components/organisms/ImportExportModal.jsx:190-199 | two error lists shown the same have the same length |
| ImportExport.MoreLineInjective | src/components/organisms/ImportExportModal.jsx:197 | the "more errors" line determines its count |
| ImportExport.HeaderLines | src/components/organisms/ImportExportModal.jsx:307 | the header part is at most one line |
| ImportExport.TemplateLines | src/components/organisms/ImportExportModal.jsx:306-308 | a one-record template of plain texts is two lines, the keys and the values joined by commas |
| ImportExport.TemplateCsv | src/components/organisms/ImportExportModal.jsx:306-308 | `downloadTemplate`'s text; TemplateLines states its two lines |
| ImportExport.AddressIsThreeCells | src/components/organisms/ImportExportModal.jsx:278 | the template address is three comma-separated cells |
| ImportExport.StudentTemplateMisaligned | src/components/organisms/ImportExportModal.jsx:270-308 | the student template's value line reads back as sixteen cells under fourteen headers |
| ImportExport.QuotedTemplateReadsBack | src/components/organisms/ImportExportModal.jsx:270-308 | with quoted values the line reads back as the fourteen values |
| StudentModal.DefaultValues | src/components/organisms/StudentModal.jsx:15-50 | status opens as "Active", the history as `[]`, every text field as "" |
| StudentModal.Filled | src/components/organisms/StudentModal.jsx:56-92 | opening on a student gives exactly the form's fields, each the student's value when truthy and its default otherwise |
| StudentModal.CreateForm | src/components/organisms/StudentModal.jsx:93-129 | a new student's form has the form's fields, grade level "9" and a student number from the clock |
| StudentModal.CreateFormDefaults | src/components/organisms/StudentModal.jsx:93-129 | every other field of a new student's form is at its default |
| StudentModal.Open | src/components/organisms/StudentModal.jsx:55-130 | an open modal with a student shows it, an open create modal a new student, otherwise the form is kept |
| StudentModal.InitialIsBlankStudent | src/components/organisms/StudentModal.jsx:15-92 | the form before any opening equals opening on a student with no fields |
| StudentModal.FilledIdempotent | src/components/organisms/StudentModal.jsx:56-92 | reopening on the form's own data changes nothing |
| StudentModal.CreateFormIsFilled | src/components/organisms/StudentModal.jsx:56-129 | a new student's form is shown unchanged when reopened |
| StudentModal.HandleChangeAsWritten | src/components/organisms/StudentModal.jsx:147-163 | a name without a dot sets that key; every key other than the first segment is kept |
| StudentModal.TopLevelChange | src/components/organisms/StudentModal.jsx:157-161 | a name without a dot replaces only that top-level key, in both readings |
| StudentModal.PathSplits | src/components/organisms/StudentModal.jsx:149 | a dotted name of dot-free segments splits back into them |
| StudentModal.TwoSegmentChange | src/components/organisms/StudentModal.jsx:148-156 | "a.b" sets `b` inside `a`, keeping a's other keys and every other top-level key |
| StudentModal.ThreeSegmentClobbers | src/components/organisms/StudentModal.jsx:149-155 | "a.b.c" sets `a.b` to the value itself, so nothing under `a.b` can be read any more |
| StudentModal.GuardianStreetClobbersAddress | src/components/organisms/StudentModal.jsx:149-155 | typing a guardian street makes the guardian address that string and loses its city |
| StudentModal.HandleChange | src/components/organisms/StudentModal.jsx:147-163 | a name without a dot sets that key |
| StudentModal.SetPathReadsBack | src/components/organisms/StudentModal.jsx:147-163 | after setting a path, reading it gives the value set |
| StudentModal.SetPathKeepsOthers | src/components/organisms/StudentModal.jsx:147-163 | setting a path leaves every path branching off it unchanged |
| StudentModal.GuardianStreetKeepsCity | src/components/organisms/StudentModal.jsx:501-509 | following every segment, the street reads back and the city is kept |
| StudentModal.ChangeAgreesOnShortNames | src/components/organisms/StudentModal.jsx:147-163 | on names of one or two segments both readings agree |
| StudentModal.SetHistory | src/components/organisms/StudentModal.jsx:548 | replacing the history changes that key only |
| StudentModal.AddCommunication | src/components/organisms/StudentModal.jsx:540-548 | adding appends exactly one entry and keeps every other field |
| StudentModal.NewEntryFields | src/components/organisms/StudentModal.jsx:541-547 | the new entry is a phone call with no notes by "Current User", dated today |
| StudentModal.EditedEntry | src/components/organisms/StudentModal.jsx:575 | the edited entry has the key set and its other fields kept |
| StudentModal.EditCommunication | src/components/organisms/StudentModal.jsx:573-618 | editing changes only that key of the entry at that index, nothing else in the history or the form |
| StudentModal.WithoutIndex | src/components/organisms/StudentModal.jsx:632 | the filtered list is no longer than the list |
| StudentModal.WithoutIndexSpec | src/components/organisms/StudentModal.jsx:632 | filtering a position in range drops exactly that element; another position drops nothing |
| StudentModal.RemoveCommunication | src/components/organisms/StudentModal.jsx:631-633 | removing drops exactly the entry at that index, keeping the order of the rest and every other field |
| StudentModal.AddThenRemove | src/components/organisms/StudentModal.jsx:540-633 | adding an entry and removing it again restores the history |
| StudentModal.StudentForm.constructor | src/components/organisms/StudentModal.jsx:15-50 | the form starts at the initial form data |
| StudentModal.StudentForm.Reopen | src/components/organisms/StudentModal.jsx:55-130 | the state becomes what opening gives from the old state |
| StudentModal.StudentForm.Change | src/components/organisms/StudentModal.jsx:147-163 | the state becomes the old one with the dotted field set |
| StudentModal.StudentForm.AddEntry | src/components/organisms/StudentModal.jsx:540-548 | the history gains exactly the new entry at its end |
| StudentModal.StudentForm.EditEntry | src/components/organisms/StudentModal.jsx:573-618 | the state becomes the old one with the entry edited |
| StudentModal.StudentForm.RemoveEntry | src/components/organisms/StudentModal.jsx:631-633 | the history loses exactly the entry at that index |

## Left out

- `parseCSV` and `generateCSV` (src/utils/csvUtils.js:3-40) wrap an external CSV library and
  a browser download. They are not part of this model.
- `Date.parse` is a parameter `isDate`. `new Date(timestamp)` is a parameter `instant`.
  `new Date()` and `Date.now()` are parameters `today` and `now`.
- JavaScript doubles are exact reals. Rounding error is not modelled, and neither is
  `toFixed` formatting of averages. Negative zero is modelled only where it changes an
  outcome: as the divisor of the grades page's percentage (`MinusSign`).
- `parseInt` and `parseFloat` read optional space, a sign and decimal digits (with a fraction
  for `parseFloat`). Hexadecimal, exponents and `Infinity` text are not modelled.
- `toLowerCase` and `trim` cover ASCII letters and the common white-space characters, not all
  of Unicode.
- Spreading a string or an array (`{...x}`) gives `{}` here, where JavaScript would give
  indexed keys. The source spreads only objects or absent values at these places.
- The async delays, toasts, `console.error`, React state wiring, rendering, drag and drop, and
  the export button are not modelled.
- Courses `handleEdit`, `handleDelete` and the enrolment dialog's wiring are not modelled.
  StudentModal's `handleSubmit` (which hands the form to `onSave`) is not modelled either.
- Which rows the page's import turns into records is not modelled. No bulk-import
  orchestration exists in the files modelled. `onImport` is a parameter `Outcome`.
- `CsvCells` is a reader for one line, not for the whole file. A quoted cell may hold commas;
  a doubled quote inside a cell, and a line break inside a quoted cell, are not handled.
- Records are values here. The source's `getAll`, `getByStudentId` and the like hand out the
  stored objects themselves, and only `getById`, `create` and `update` hand out shallow copies.
  Sharing between a caller and the store (for example the caller's `enrolledStudents` array
  kept by `create` at src/services/api/courseService.js:29 and later pushed into) and in-place
  update through such a shared object are not modelled.
- ReportsPage.GroupBy: groups into a map, not a plain `{}`. With a course named after an
  inherited property ("constructor", "toString"), `acc[courseName]` is a function, `.push`
  throws, and `generateStudentReport` reports a failure (src/components/pages/Reports.jsx:135-160);
  the model makes a report there.
- Activities.LaterIsStrictWeakOrder: `instant` is total, so every timestamp has an instant. An
  unparsable timestamp gives an Invalid Date in the source, the comparator returns NaN, and the
  order of the sort is then left to the engine; the model does not cover that case.
- StudentModal.StudentForm.Change: uses the corrected `HandleChange`, which follows every
  segment of a dotted name. The code as written is `HandleChangeAsWritten`; see Findings.
- ReportsPage.DistributionCounts: states each letter's count, not the sum over letters; the
  sum of the counts is the number of grades only by summing these.
- StudentModal.EditCommunication: takes the entry's new text as `value`. The history editors'
  handlers (src/components/organisms/StudentModal.jsx:570-618) are written `(value) => …`, but
  FormField hands `onChange` to the DOM input (src/components/molecules/FormField.jsx:12-31), so
  what they store is the change event, not its `target.value`; the model leaves `value` free and
  does not model the event object.
- GradesPage.NegativeZeroMaximum: describes `handleSubmit` alone. The browser's form
  validation of the inputs' `required`, `min="0"` and `step="0.5"`
  (src/components/pages/Grades.jsx:266-284) is not modelled; with it, "-5" is stopped before the
  handler runs, so this case needs that validation bypassed.
- CoursesPage.EnrollmentCount: a truthy `enrolledStudents` without a length (a number, say)
  is `None` rather than the page's blank output.
- The Dashboard's GPA average and the Attendance week helpers (date-fns) are outside the
  modelled files.

## Findings

| source | as written | input that shows it | evidently intended | confidence | as-written member | corrected member |
|---|---|---|---|---|---|---|
| src/components/organisms/ImportExportModal.jsx:270-308 | template values are joined with "," unquoted, and the address holds commas | the student template: its value line reads back as 16 cells under 14 headers, every value after the address two columns off | each value sits under its header, for example by quoting cells | not executed | ImportExport.StudentTemplateMisaligned | ImportExport.QuotedTemplateReadsBack |
| src/components/organisms/StudentModal.jsx:149 | `handleChange` splits the name on "." and keeps only its first two segments | `handleChange("parentGuardian.address.street", "1 Elm")` replaces `parentGuardian.address` with "1 Elm", losing city, state and zip | set the street inside the guardian's address and keep its other fields | not executed | StudentModal.GuardianStreetClobbersAddress | StudentModal.GuardianStreetKeepsCity |
