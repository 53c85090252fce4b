# Attendance engine model

A Dafny model of the attendance engine of a Flask attendance-management
application. Faculty record each session's attendance, students submit absence
requests, faculty approve or reject them, and the application derives
per-student and per-course statistics and a JSON course report.

The model has seven modules:

- `Seqs`: filters, counts and uniqueness over sequences. These are the queries
  the application runs against its tables.
- `Dates`: calendar dates, their order, and the `%Y-%m-%d` and `%b %d`
  renderings.
- `Models`: the entities of `models.py`, the `unique_enrollment` and
  `unique_attendance` constraints, foreign keys, and the delete cascades.
- `Utils`: `calculate_attendance` and `get_attendance_stats`.
- `Ledger`: the keyed upsert both ledger writers perform. It finds the row of a
  (student, session) pair, then overwrites its status and notes, or appends a
  row stamped with the current time.
- `Routes`: the class `AttendanceStore`, which holds the attendance table, the
  absence-request table and the emitted low-attendance notifications.
  - Its methods are `take_attendance`, `respond_absence_request` and
    `create_absence_request`.
  - The tables these handlers only read arrive as a `Catalog` value.
- `Report`: `api_course_report`, with its two loops as methods and the report
  as a function. Lemmas cover sorting, flagging, session rows and the overall
  rate.

Two behaviours of the code are worth stating outright:

- The course report's overall rate (routes.py:788-790) is computed from the
  summed per-student statistics, which count unrecorded sessions as absences.
  It is therefore not the raw present-or-late ratio over recorded rows that
  `get_attendance_stats` returns (utils.py:115-123).
  `Report.OverallRateIsNotRawRate` exhibits an input on which the two differ
  (50 against 100).
- `respond_absence_request` writes the decision whatever the request's current
  status (routes.py:636-639): there is no pending-only guard, so
  `RespondAbsenceRequest` answers an already answered request too.

## Model

| member | source | states |
|---|---|---|
| Dates.IsoFormat | routes.py:775 | `strftime('%Y-%m-%d')`: ten characters, zero-padded year, month and day separated by dashes |
| Dates.IsoFormatInjective | routes.py:775 | distinct valid dates render to distinct date strings |
| Dates.MonthDay | routes.py:776 | `strftime('%b %d')`: the English month abbreviation, a space, the zero-padded day |
| Models.StatusOf | models.py:107 | the four stored spellings map to their statuses and any other text to `Other` with that text |
| Models.StatusOfWellFormed | models.py:107 | a parsed status never puts one of the four spellings under `Other`, and a well-formed `Other` reads back to itself |
| Models.RosterMembers | routes.py:553-554 | a student is on a course's roster exactly when an enrollment for that course exists |
| Models.EnrolledCourses | routes.py:220-221 | the absence-request course choices are exactly the courses the student is enrolled in |
| Models.SessionIdsOfCourseDistinct | utils.py:18-19 | the session ids of a course contain no duplicates |
| Models.RosterDistinct | models.py:81-83 | under `unique_enrollment` a course roster names no student twice |
| Models.DeleteSessionCascades | models.py:98 | deleting a session removes exactly that session and its attendance rows, keeps students, courses and enrollments unchanged, and keeps every constraint |
| Models.DeleteCourseCascades | models.py:69-70 | deleting a course removes exactly that course, its enrollments, its sessions and their attendance rows, keeps the students and the other courses, and keeps every constraint |
| Utils.Percentage | utils.py:54-57 | the ratio is 0 for a non-positive denominator and lies in [0, 100] when the part is within the whole |
| Utils.CalculateAttendance | utils.py:6-66 | `total` is the number of the course's sessions; with no sessions every figure is 0; otherwise the percentage is present plus late over the sessions that are not excused (0 when every session is excused) |
| Utils.ExcusedSessionsLeaveDenominator | utils.py:39-57 | four sessions, two excused, one present and one without a row give present 1, absent 1, excused 2 and 50 percent |
| Utils.StatusCountsCover | utils.py:39-42 | the four status counts never exceed the records, and cover them exactly when every status is one of the four |
| Utils.RecordsAtMostSessions | utils.py:33-46 | under `unique_attendance` a student's records in the course number at most the course's sessions, so the unrecorded count is never negative |
| Utils.CountsAddUpToTotal | utils.py:45-51 | with documented statuses, present + absent + late + excused equals the number of sessions |
| Utils.AbsentIncludesUnrecorded | utils.py:45-49 | `absent` is the recorded absences plus the unrecorded sessions, which are never negative |
| Utils.PercentageInRange | utils.py:51-57 | under `unique_attendance` the percentage lies in [0, 100] and `absent` is non-negative |
| Utils.PresentRecordNeverLowers | utils.py:39-57 | adding a `present` record moves one session from absent to present and never lowers the percentage |
| Utils.PercentageGrows | utils.py:55 | a larger numerator over the same denominator never gives a smaller percentage |
| Utils.UnrecordedSessionCountsAsAbsent | utils.py:45-52 | a new session with no rows adds one to `total` and one to `absent`, and changes no other count |
| Utils.BelowReference | utils.py:98-101 | the below-threshold count never exceeds the roster size |
| Utils.RawAttendanceRate | utils.py:115-123 | the raw course rate lies in [0, 100] and is 0 with no rows |
| Utils.GetAttendanceStats | utils.py:68-130 | all zeros for a course without sessions; otherwise the session and student counts, the count below the fixed 75 reference, and the raw present-or-late ratio over all recorded rows of the course |
| Utils.UnrecordedSessionKeepsRawRate | utils.py:104-123 | a session with no rows leaves the raw course rate unchanged |
| Ledger.FindRecord | routes.py:655-658 | finds the first row of the (student, session) pair; returns none exactly when no row has that pair |
| Ledger.UpsertEffect | routes.py:566-579 | after one upsert the pair holds the new status and notes; other rows are unchanged; existing rows keep `recordedAt`; a row is appended, stamped now, only when the pair had none |
| Ledger.UpsertKeepsUnique | models.py:111-113 | an upsert never creates a second row for a pair |
| Ledger.UpsertAlreadyHolds | routes.py:566-570 | an upsert of values already stored changes nothing |
| Ledger.ApplyWritesKeepsUnique | routes.py:562-581 | a batch of upserts keeps `unique_attendance` |
| Ledger.ApplyWritesFrame | routes.py:562-581 | rows of pairs no write touches are unchanged; existing rows keep their pair and `recordedAt`; appended rows belong to touched pairs and are stamped now |
| Ledger.ApplyWritesStores | routes.py:562-581 | after writes to distinct pairs, each pair holds its write |
| Ledger.ApplyWritesAlreadyHold | routes.py:653-671 | writes whose values are all stored already change nothing |
| Ledger.ApplyWritesIdempotent | routes.py:653-671 | replaying writes to distinct pairs, at any later time, changes nothing |
| Routes.FindSession | routes.py:546 | returns a session with the requested id, or none exactly when no session has it |
| Routes.SubmissionWrites | routes.py:562-564 | one write per roster member, in roster order, with its submitted status and its notes (empty when absent); every write is for a roster member and this session; a roster without duplicates gives writes to distinct pairs |
| Routes.LowAttendanceAlertsExactly | routes.py:584-587 | a notification is emitted exactly for each roster member whose recomputed percentage is below the course's own minimum, and carries that percentage |
| Routes.TakeAttendanceRecords | routes.py:556-581 | after a complete submission each roster member has exactly one record for the session with the submitted status and notes; no other record changes; new records are for roster members and this session |
| Routes.ExcuseNote | routes.py:662 | the note is "Excused absence: " followed by the reason |
| Routes.SessionsInRangeMembers | routes.py:647-651 | the sessions selected are exactly those of the course dated from `from_date` to `to_date` inclusive |
| Routes.ExcuseWritesDistinct | routes.py:653-658 | an approval writes each (student, session) pair at most once |
| Routes.ExcuseWritesCover | routes.py:653-671 | an approval writes, for the requesting student only, exactly the sessions in range, each as excused with the reason note |
| Routes.ApprovalExcusesRange | routes.py:642-671 | after approval every in-range session of the course holds an excused record with the reason note, and uniqueness is kept |
| Routes.ApprovalScope | routes.py:642-671 | an approval changes no record of another student, another course, or a session outside the range; added records are the student's, for in-range sessions |
| Routes.ApprovalIdempotent | routes.py:642-671 | approving the same request again leaves the ledger as the first approval left it |
| Routes.CheckRequest | routes.py:220-227 | a request is accepted exactly when the course is among the student's enrollments, the reason is not blank and `from_date` is not after `to_date`; `EndBeforeStart` exactly when only the date order fails |
| Routes.AttendanceStore.Upsert | routes.py:562-581 | the ledger becomes the batch of upserts applied to the old ledger; requests and notifications are unchanged |
| Routes.AttendanceStore.NotifyLowAttendance | routes.py:584-587 | appends the low-attendance notifications for the roster, in roster order; the tables are unchanged |
| Routes.AttendanceStore.TakeAttendance | routes.py:538-596 | `NotFound` for an unknown session and `MissingStatus` for an incomplete submission, changing nothing; otherwise the ledger is upserted and the notifications follow; uniqueness is kept |
| Routes.AttendanceStore.RespondAbsenceRequest | routes.py:618-684 | `NotFound` for an unknown id and `NotAChoice` for a decision outside approved/rejected, changing nothing; otherwise records the decision, notes and time, and on approval excuses the range; uniqueness is kept |
| Routes.AttendanceStore.CreateAbsenceRequest | routes.py:215-240 | stores a pending request with no response exactly when the checks pass; otherwise stores nothing; the ledger is unchanged |
| Report.StudentRowsFaithful | routes.py:736-755 | each student row carries its student's number, full name and statistics, and is flagged exactly when its percentage is below the course minimum |
| Report.SortSorted | routes.py:758 | the sort yields ascending percentages and is a permutation |
| Report.SortStable | routes.py:758 | rows with equal percentages keep their relative order |
| Report.SortKeepsCount | routes.py:758 | sorting does not change how many rows satisfy any predicate |
| Report.SessionTitle | routes.py:776 | a set, non-empty title is used; otherwise "Session on " followed by the `%b %d` rendering of the date |
| Report.SessionRowAt | routes.py:761-782 | the i-th session row describes the i-th session |
| Report.SessionRateInRange | routes.py:767-772 | a session's rate lies in [0, 100] and is 0 when no row has one of the four statuses |
| Report.SessionRateIsRawRate | routes.py:763-772 | with documented statuses, a session's rate is the present-or-late ratio over its rows |
| Report.TotalsCoverEverySession | routes.py:736-744 | with documented statuses, the summed counts total students times sessions |
| Report.TotalsBounded | routes.py:740-744 | under uniqueness the totals are non-negative and present + late never exceeds their sum |
| Report.OverallRateInRange | routes.py:787-792 | under uniqueness the overall rate lies in [0, 100] |
| Report.ValidCatalogIsReady | routes.py:736-738 | in a valid catalog every roster member has a student row and every session has a real date |
| Report.ReportStudentsSorted | routes.py:757-758 | the report's student rows are sorted, a stable permutation of the per-student rows, one per enrolled student |
| Report.ReportStudentsFlagged | routes.py:784-785 | every student row is flagged exactly when below the course minimum; the summary's below-threshold figure counts the flagged rows |
| Report.SortedRowsFlagged | routes.py:754-758 | sorting keeps each row's flag consistent with its percentage |
| Report.ReportSessionRows | routes.py:760-782 | one session row per course session, in order, each with a rate in [0, 100], the raw ratio when statuses are documented |
| Report.ReportOverallRate | routes.py:787-792 | the overall rate lies in [0, 100], comes from the summed per-student counts, and with documented statuses has students times sessions as its denominator |
| Report.OverallRateIsNotRawRate | routes.py:788-790 | with one student, two sessions and one `present` row, the report's rate is 50 while the raw course rate is 100 |
| Report.CollectStudentRows | routes.py:736-755 | the enrollment loop builds the per-student rows in roster order and the four running totals |
| Report.CollectSessionRows | routes.py:761-782 | the session loop builds one row per session in order |
| Report.AssembleReport | routes.py:724-809 | once the course is found, the handler builds exactly the report function: course, summary, sorted students and sessions |
| Report.BuildCourseReport | routes.py:712-809 | `NotFound` for an unknown course; otherwise the complete report: course, summary, sorted students and sessions |

## Left out

- Utils.CalculateAttendance: the percentage is exact; `round(…, 2)` and floating-point arithmetic are not modelled. Every comparison therefore uses the exact value where the code uses the rounded one: the fixed `< 75` of `get_attendance_stats`, the `< min_attendance_percent` of the notifications and of `below_threshold`, and the sort key of the report. For example, 2 of 3 sessions against a minimum of 66.67 is flagged here (66.66… < 66.67) but not by the code (66.67 is not below 66.67).
- Utils.GetAttendanceStats: the rate is exact and not rounded. The grouped query is modelled as one count over the course's rows, which gives the same totals.
- Report.BuildCourseReport: the rates are exact reals, not floats.
- Report.SortByPercentage: Python's in-place sort is modelled as a stable insertion sort on a sequence. The order it produces is the same; the in-place update is not modelled.
- Routes.AttendanceStore.TakeAttendance: the `existing_records` dictionary read before the loop is replaced by a lookup in the current ledger. These agree because the roster names each student once. The GET branch, which only renders a page, is not modelled.
- Routes.AttendanceStore.RespondAbsenceRequest: a request id is its position in the request table.
- Routes.CheckRequest: a field is blank only when it consists of space, tab, newline or carriage return. Other Unicode whitespace is not modelled.
- Routes.CheckRequest: missing or unparsable dates are not modelled. The dates arrive already parsed.
- Dates.MonthDay: assumes the C locale's English month names.
- Dates.IsoFormat: always pads the year to four digits; the C library's `%Y` renders years below 1000 without padding (for example "999").
- Models.Status: the rows are not required to be well formed; a row built as `Other("present")` would be counted as undocumented. Rows read from the stored text through `StatusOf` never are.
- The column default of `min_attendance_percent` (75.0) is not modelled: a course always carries its own minimum.
- Results of queries without `order_by` (the enrollment queries at routes.py:553 and 724, the session queries at routes.py:647-651 and 725, utils.py:18 and 89) are taken in table order; the database does not fix that order. The order of report rows with equal percentages, of the session rows and of the notifications rests on this choice.
- Authentication and the role and ownership checks (`user_type`, `faculty_id`) are taken as passed.
- Left out as I/O: flash messages, redirects, templates, the HTTP status codes of the JSON errors, and the console output of the notification, which becomes a `Notification` value.
- The clocks (`datetime.utcnow()`, `date.today()`) are parameters.
- The length limits of string columns (for example `String(10)` for the status) are not enforced.
- Users, faculty, passwords and profile pages, and the course, session and enrollment management routes are outside this model. The delete cascades are modelled as functions on the tables.
- The JavaScript under `static/` only draws charts from the JSON report and is not part of this model.
