/** The JSON course report of `api_course_report` (routes.py): one row per
    enrolled student, sorted by percentage; one row per session; and a summary
    whose overall rate comes from the summed per-student statistics, so that,
    unlike the raw rate of `get_attendance_stats`, it counts unrecorded
    sessions as absences. */
module Report {
  import opened Seqs
  import opened Dates
  import opened Models
  import opened Utils

  datatype StudentRow = StudentRow(
    studentNumber: string, name: string,
    present: nat, absent: int, late: nat, excused: nat,
    percentage: real, belowThreshold: bool)

  datatype SessionRow = SessionRow(
    date: string, title: string,
    present: nat, absent: nat, late: nat, excused: nat,
    attendanceRate: real)

  datatype CourseInfo = CourseInfo(id: CourseId, code: string, title: string, minAttendance: real)

  datatype Summary = Summary(
    totalStudents: nat, totalSessions: nat,
    overallAttendanceRate: real, studentsBelowThreshold: nat)

  datatype CourseReport = CourseReport(
    course: CourseInfo, summary: Summary,
    students: seq<StudentRow>, sessions: seq<SessionRow>)

  // ---- Student rows ----

  /** One entry of `student_data`: the student's statistics, flagged against
      the course's own minimum. */
  function StudentRowOf(student: Student, stats: AttendanceStats, course: Course): StudentRow {
    StudentRow(student.number, student.fullName, stats.present, stats.absent, stats.late, stats.excused,
               stats.percentage, stats.percentage < course.minAttendancePercent)
  }

  /** Every roster member has a `Student` row. */
  predicate Known(students: map<StudentId, Student>, roster: seq<StudentId>) {
    forall i :: 0 <= i < |roster| ==> roster[i] in students
  }

  /** `student_data` before the sort, in roster order. */
  function StudentRows(cat: Catalog, rows: seq<Attendance>, course: Course, roster: seq<StudentId>): (out: seq<StudentRow>)
    requires Known(cat.students, roster)
    ensures |out| == |roster|
  {
    if |roster| == 0 then []
    else
      var s := roster[|roster| - 1];
      StudentRows(cat, rows, course, roster[..|roster| - 1])
        + [StudentRowOf(cat.students[s], CalculateAttendance(cat.sessions, rows, s, course.id), course)]
  }

  predicate Flagged(r: StudentRow) {
    r.belowThreshold
  }

  /** Each student row carries its student's statistics, and is flagged
      exactly when its percentage is below the course minimum. */
  lemma {:induction false} StudentRowsFaithful(cat: Catalog, rows: seq<Attendance>, course: Course, roster: seq<StudentId>)
    requires Known(cat.students, roster)
    ensures var out := StudentRows(cat, rows, course, roster);
      forall i :: 0 <= i < |roster| ==>
        var st := CalculateAttendance(cat.sessions, rows, roster[i], course.id);
        && out[i].studentNumber == cat.students[roster[i]].number
        && out[i].name == cat.students[roster[i]].fullName
        && out[i].present == st.present && out[i].absent == st.absent
        && out[i].late == st.late && out[i].excused == st.excused
        && out[i].percentage == st.percentage
        && (out[i].belowThreshold <==> out[i].percentage < course.minAttendancePercent)
  {
    if |roster| > 0 {
      StudentRowsFaithful(cat, rows, course, roster[..|roster| - 1]);
    }
  }

  // ---- The sort: `student_data.sort(key=lambda x: x['percentage'])` ----

  predicate SortedByPercentage(s: seq<StudentRow>) {
    forall i, j :: 0 <= i < j < |s| ==> s[i].percentage <= s[j].percentage
  }

  function PercentageIs(p: real): StudentRow -> bool {
    (r: StudentRow) => r.percentage == p
  }

  /** Put `x` in front of the first row whose percentage is not below its own. */
  function Insert(x: StudentRow, s: seq<StudentRow>): (r: seq<StudentRow>)
    ensures |r| == |s| + 1
  {
    if |s| == 0 || x.percentage <= s[0].percentage then [x] + s
    else [s[0]] + Insert(x, s[1..])
  }

  /** A stable insertion sort by percentage. */
  function SortByPercentage(s: seq<StudentRow>): (r: seq<StudentRow>)
    ensures |r| == |s|
  {
    if |s| == 0 then [] else Insert(s[0], SortByPercentage(s[1..]))
  }

  lemma {:induction false} InsertPermutes(x: StudentRow, s: seq<StudentRow>)
    ensures multiset(Insert(x, s)) == multiset(s) + multiset{x}
  {
    if |s| > 0 && x.percentage > s[0].percentage {
      InsertPermutes(x, s[1..]);
      assert s == [s[0]] + s[1..];
    }
  }

  lemma {:induction false} InsertKeepsLowerBound(x: StudentRow, s: seq<StudentRow>, v: real)
    requires v <= x.percentage
    requires forall i :: 0 <= i < |s| ==> v <= s[i].percentage
    ensures forall i :: 0 <= i < |Insert(x, s)| ==> v <= Insert(x, s)[i].percentage
  {
    if |s| > 0 && x.percentage > s[0].percentage {
      InsertKeepsLowerBound(x, s[1..], v);
    }
  }

  lemma {:induction false} InsertSorted(x: StudentRow, s: seq<StudentRow>)
    requires SortedByPercentage(s)
    ensures SortedByPercentage(Insert(x, s))
  {
    if |s| > 0 && x.percentage > s[0].percentage {
      InsertSorted(x, s[1..]);
      InsertKeepsLowerBound(x, s[1..], s[0].percentage);
    } else if |s| > 0 {
      assert forall i :: 0 <= i < |s| ==> x.percentage <= s[i].percentage;
    }
  }

  /** Inserting `x` keeps the relative order of the rows sharing any percentage,
      with `x` first among its equals. */
  lemma {:induction false} InsertStable(x: StudentRow, s: seq<StudentRow>, p: real)
    ensures Filter(Insert(x, s), PercentageIs(p)) == Filter([x] + s, PercentageIs(p))
  {
    if |s| > 0 && x.percentage > s[0].percentage {
      var q := PercentageIs(p);
      var rest := s[1..];
      var head := if q(s[0]) then [s[0]] else [];
      var mine := if q(x) then [x] else [];
      calc {
        Filter(Insert(x, s), q);
        Filter([s[0]] + Insert(x, rest), q);
        { FilterCons(s[0], Insert(x, rest), q); }
        head + Filter(Insert(x, rest), q);
        { InsertStable(x, rest, p); }
        head + Filter([x] + rest, q);
        { FilterCons(x, rest, q); }
        head + (mine + Filter(rest, q));
        { assert head == [] || mine == []; }
        mine + (head + Filter(rest, q));
        { FilterCons(s[0], rest, q); assert s == [s[0]] + rest; }
        mine + Filter(s, q);
        { FilterCons(x, s, q); }
        Filter([x] + s, q);
      }
    }
  }

  lemma {:induction false} InsertCount(x: StudentRow, s: seq<StudentRow>, q: StudentRow -> bool)
    ensures Count(Insert(x, s), q) == Count([x] + s, q)
  {
    if |s| > 0 && x.percentage > s[0].percentage {
      InsertCount(x, s[1..], q);
      CountCons(s[0], Insert(x, s[1..]), q);
      CountCons(x, s[1..], q);
      CountCons(x, s, q);
      assert s == [s[0]] + s[1..];
      CountCons(s[0], s[1..], q);
    }
  }

  /** The sort orders the rows by ascending percentage and is a permutation. */
  lemma {:induction false} SortSorted(s: seq<StudentRow>)
    ensures SortedByPercentage(SortByPercentage(s))
    ensures multiset(SortByPercentage(s)) == multiset(s)
  {
    if |s| > 0 {
      SortSorted(s[1..]);
      InsertSorted(s[0], SortByPercentage(s[1..]));
      InsertPermutes(s[0], SortByPercentage(s[1..]));
      assert s == [s[0]] + s[1..];
    }
  }

  /** The sort is stable: rows with equal percentages keep their order. */
  lemma {:induction false} SortStable(s: seq<StudentRow>, p: real)
    ensures Filter(SortByPercentage(s), PercentageIs(p)) == Filter(s, PercentageIs(p))
  {
    if |s| > 0 {
      SortStable(s[1..], p);
      InsertStable(s[0], SortByPercentage(s[1..]), p);
      FilterCons(s[0], SortByPercentage(s[1..]), PercentageIs(p));
      FilterCons(s[0], s[1..], PercentageIs(p));
      assert s == [s[0]] + s[1..];
    }
  }

  /** Sorting does not change how many rows satisfy any predicate. */
  lemma {:induction false} SortKeepsCount(s: seq<StudentRow>, q: StudentRow -> bool)
    ensures Count(SortByPercentage(s), q) == Count(s, q)
  {
    if |s| > 0 {
      SortKeepsCount(s[1..], q);
      InsertCount(s[0], SortByPercentage(s[1..]), q);
      CountCons(s[0], SortByPercentage(s[1..]), q);
      CountCons(s[0], s[1..], q);
      assert s == [s[0]] + s[1..];
    }
  }

  // ---- Session rows ----

  function OfSession(id: SessionId): Attendance -> bool {
    (r: Attendance) => r.session == id
  }

  /** Every row of the session, of any student (`filter_by(session_id=…)`). */
  function SessionRecords(rows: seq<Attendance>, id: SessionId): seq<Attendance> {
    Filter(rows, OfSession(id))
  }

  /** `s.title or f"Session on {s.session_date.strftime('%b %d')}"`: an unset
      or empty title falls back to the date. */
  function SessionTitle(s: CourseSession): (t: string)
    requires ValidDate(s.date)
    ensures s.title.Some? && s.title.value != "" ==> t == s.title.value
    ensures s.title.None? || s.title.value == "" ==>
      |t| == 17 && t[..11] == "Session on " && t[11..] == MonthDay(s.date)
  {
    if s.title.Some? && s.title.value != "" then s.title.value
    else "Session on " + MonthDay(s.date)
  }

  /** One entry of `session_data`: the four status counts over every row of
      the session, and present-plus-late over their sum. */
  function SessionRowOf(s: CourseSession, rows: seq<Attendance>): SessionRow
    requires ValidDate(s.date)
  {
    var recs := SessionRecords(rows, s.id);
    var p := CountStatus(recs, Present);
    var a := CountStatus(recs, Absent);
    var l := CountStatus(recs, Late);
    var e := CountStatus(recs, Excused);
    SessionRow(IsoFormat(s.date), SessionTitle(s), p, a, l, e, Percentage(p + l, p + a + l + e))
  }

  predicate AllDated(ss: seq<CourseSession>) {
    forall i :: 0 <= i < |ss| ==> ValidDate(ss[i].date)
  }

  /** `session_data`, in session-table order. */
  function SessionRows(ss: seq<CourseSession>, rows: seq<Attendance>): (out: seq<SessionRow>)
    requires AllDated(ss)
    ensures |out| == |ss|
  {
    if |ss| == 0 then []
    else SessionRows(ss[..|ss| - 1], rows) + [SessionRowOf(ss[|ss| - 1], rows)]
  }

  /** Row `i` of the session rows describes the `i`-th session. */
  lemma {:induction false} SessionRowAt(ss: seq<CourseSession>, rows: seq<Attendance>, i: nat)
    requires AllDated(ss) && i < |ss|
    ensures SessionRows(ss, rows)[i] == SessionRowOf(ss[i], rows)
  {
    var init := ss[..|ss| - 1];
    var out := SessionRows(ss, rows);
    assert out == SessionRows(init, rows) + [SessionRowOf(ss[|ss| - 1], rows)];
    if i < |init| {
      SessionRowAt(init, rows, i);
      assert init[i] == ss[i];
      assert out[i] == SessionRows(init, rows)[i];
    }
  }

  /** A session's rate lies in [0, 100], and is 0 when the session has no
      row with one of the four statuses. */
  lemma SessionRateInRange(s: CourseSession, rows: seq<Attendance>)
    requires ValidDate(s.date)
    ensures var row := SessionRowOf(s, rows);
      && 0.0 <= row.attendanceRate <= 100.0
      && (row.present + row.absent + row.late + row.excused == 0 ==> row.attendanceRate == 0.0)
  {
  }

  lemma {:induction false} AttendedSplits(recs: seq<Attendance>)
    ensures Count(recs, Attended) == CountStatus(recs, Present) + CountStatus(recs, Late)
  {
    if |recs| > 0 {
      AttendedSplits(recs[..|recs| - 1]);
    }
  }

  /** When every row of the session carries one of the four statuses, the
      session's rate is the raw present-plus-late ratio over its rows. */
  lemma SessionRateIsRawRate(s: CourseSession, rows: seq<Attendance>)
    requires ValidDate(s.date)
    requires forall r :: r in rows ==> Documented(r.status)
    ensures SessionRowOf(s, rows).attendanceRate == RawAttendanceRate(SessionRecords(rows, s.id))
  {
    var recs := SessionRecords(rows, s.id);
    FilterMembers(rows, OfSession(s.id));
    StatusCountsCover(recs);
    AttendedSplits(recs);
  }

  // ---- Summary ----

  datatype Totals = Totals(present: int, absent: int, late: int, excused: int)

  /** `total_present`, `total_absent`, `total_late`, `total_excused`: the
      per-student counts summed over the roster. */
  function SumStats(sessions: seq<CourseSession>, rows: seq<Attendance>, roster: seq<StudentId>, course: CourseId): Totals {
    if |roster| == 0 then Totals(0, 0, 0, 0)
    else
      var t := SumStats(sessions, rows, roster[..|roster| - 1], course);
      var st := CalculateAttendance(sessions, rows, roster[|roster| - 1], course);
      Totals(t.present + st.present, t.absent + st.absent, t.late + st.late, t.excused + st.excused)
  }

  function TotalAttendance(t: Totals): int {
    t.present + t.absent + t.late + t.excused
  }

  /** `overall_attendance_rate`. */
  function OverallRate(t: Totals): real {
    Percentage(t.present + t.late, TotalAttendance(t))
  }

  /** With every row documented, each student contributes one count per
      session: the denominator is the number of students times sessions. */
  lemma {:induction false} TotalsCoverEverySession(sessions: seq<CourseSession>, rows: seq<Attendance>, roster: seq<StudentId>, course: CourseId)
    requires forall r :: r in rows ==> Documented(r.status)
    ensures TotalAttendance(SumStats(sessions, rows, roster, course)) == |roster| * |SessionsOf(sessions, course)|
  {
    if |roster| > 0 {
      var init := roster[..|roster| - 1];
      var n := |SessionsOf(sessions, course)|;
      TotalsCoverEverySession(sessions, rows, init, course);
      CountsAddUpToTotal(sessions, rows, roster[|roster| - 1], course);
      var t := SumStats(sessions, rows, init, course);
      var st := CalculateAttendance(sessions, rows, roster[|roster| - 1], course);
      assert TotalAttendance(SumStats(sessions, rows, roster, course)) == TotalAttendance(t) + st.total;
      MultiplyStep(|init|, n);
    }
  }

  lemma MultiplyStep(a: int, n: int)
    ensures (a + 1) * n == a * n + n
  {
  }

  /** Under the uniqueness constraint the summed counts are non-negative and
      present-plus-late never exceeds their total. */
  lemma {:induction false} TotalsBounded(sessions: seq<CourseSession>, rows: seq<Attendance>, roster: seq<StudentId>, course: CourseId)
    requires UniqueAttendance(rows)
    ensures var t := SumStats(sessions, rows, roster, course);
      0 <= t.present + t.late <= TotalAttendance(t) && t.absent >= 0 && t.excused >= 0
  {
    if |roster| > 0 {
      TotalsBounded(sessions, rows, roster[..|roster| - 1], course);
      PercentageInRange(sessions, rows, roster[|roster| - 1], course);
    }
  }

  lemma OverallRateInRange(sessions: seq<CourseSession>, rows: seq<Attendance>, roster: seq<StudentId>, course: CourseId)
    requires UniqueAttendance(rows)
    ensures 0.0 <= OverallRate(SumStats(sessions, rows, roster, course)) <= 100.0
  {
    TotalsBounded(sessions, rows, roster, course);
  }

  // ---- The report ----

  /** What the report needs of the catalog: the course's roster members exist
      and its sessions carry real dates. */
  predicate ReportReady(cat: Catalog, course: CourseId) {
    Known(cat.students, Roster(cat.enrollments, course)) && AllDated(SessionsOf(cat.sessions, course))
  }

  lemma ValidCatalogIsReady(cat: Catalog, course: CourseId)
    requires cat.Valid()
    ensures ReportReady(cat, course)
  {
    var roster := Roster(cat.enrollments, course);
    var ss := SessionsOf(cat.sessions, course);
    RosterMembers(cat.enrollments, course);
    FilterMembers(cat.sessions, InCourse(course));
    forall i | 0 <= i < |roster| ensures roster[i] in cat.students {
      assert roster[i] in roster;
      assert Enrollment(roster[i], course) in cat.enrollments;
    }
    forall i | 0 <= i < |ss| ensures ValidDate(ss[i].date) {
      assert ss[i] in ss;
    }
  }

  /** The JSON body of `api_course_report(course_id)`. */
  function CourseReportOf(cat: Catalog, rows: seq<Attendance>, course: Course): CourseReport
    requires ReportReady(cat, course.id)
  {
    var roster := Roster(cat.enrollments, course.id);
    var ss := SessionsOf(cat.sessions, course.id);
    var students := SortByPercentage(StudentRows(cat, rows, course, roster));
    CourseReport(
      CourseInfo(course.id, course.code, course.title, course.minAttendancePercent),
      Summary(|roster|, |ss|, OverallRate(SumStats(cat.sessions, rows, roster, course.id)), Count(students, Flagged)),
      students,
      SessionRows(ss, rows))
  }

  /** The student rows of the report are sorted ascending by percentage, are
      a permutation of the per-student rows, one per roster member, and keep
      rows of equal percentage in roster order. */
  lemma ReportStudentsSorted(cat: Catalog, rows: seq<Attendance>, course: Course)
    requires ReportReady(cat, course.id)
    ensures var r := CourseReportOf(cat, rows, course);
      var unsorted := StudentRows(cat, rows, course, Roster(cat.enrollments, course.id));
      && SortedByPercentage(r.students)
      && multiset(r.students) == multiset(unsorted)
      && (forall p :: Filter(r.students, PercentageIs(p)) == Filter(unsorted, PercentageIs(p)))
      && |r.students| == r.summary.totalStudents
  {
    var unsorted := StudentRows(cat, rows, course, Roster(cat.enrollments, course.id));
    SortSorted(unsorted);
    forall p ensures Filter(SortByPercentage(unsorted), PercentageIs(p)) == Filter(unsorted, PercentageIs(p)) {
      SortStable(unsorted, p);
    }
  }

  /** Every student row of the report is flagged exactly when its percentage is
      below the course's own minimum, and the summary's below-threshold figure
      is the number of flagged rows. */
  lemma ReportStudentsFlagged(cat: Catalog, rows: seq<Attendance>, course: Course)
    requires ReportReady(cat, course.id)
    ensures var r := CourseReportOf(cat, rows, course);
      var unsorted := StudentRows(cat, rows, course, Roster(cat.enrollments, course.id));
      && (forall row :: row in r.students ==> (row.belowThreshold <==> row.percentage < course.minAttendancePercent))
      && r.summary.studentsBelowThreshold == Count(unsorted, Flagged) <= r.summary.totalStudents
  {
    var roster := Roster(cat.enrollments, course.id);
    var unsorted := StudentRows(cat, rows, course, roster);
    StudentRowsFaithful(cat, rows, course, roster);
    SortedRowsFlagged(unsorted, course);
    SortKeepsCount(unsorted, Flagged);
  }

  lemma SortedRowsFlagged(unsorted: seq<StudentRow>, course: Course)
    requires forall i :: 0 <= i < |unsorted| ==> (unsorted[i].belowThreshold <==> unsorted[i].percentage < course.minAttendancePercent)
    ensures forall row :: row in SortByPercentage(unsorted) ==> (row.belowThreshold <==> row.percentage < course.minAttendancePercent)
  {
    SortSorted(unsorted);
    forall row | row in SortByPercentage(unsorted)
      ensures row.belowThreshold <==> row.percentage < course.minAttendancePercent
    {
      assert row in multiset(unsorted);
    }
  }

  /** The report's session rows are the course's sessions in table order, each
      with a rate in [0, 100]; with every row documented that rate is the raw
      ratio over the session's rows. */
  lemma ReportSessionRows(cat: Catalog, rows: seq<Attendance>, course: Course)
    requires ReportReady(cat, course.id)
    ensures var r := CourseReportOf(cat, rows, course);
      var ss := SessionsOf(cat.sessions, course.id);
      && |r.sessions| == r.summary.totalSessions == |ss|
      && (forall i :: 0 <= i < |ss| ==> r.sessions[i] == SessionRowOf(ss[i], rows) && 0.0 <= r.sessions[i].attendanceRate <= 100.0)
      && ((forall x :: x in rows ==> Documented(x.status)) ==>
            forall i :: 0 <= i < |ss| ==> r.sessions[i].attendanceRate == RawAttendanceRate(SessionRecords(rows, ss[i].id)))
  {
    var ss := SessionsOf(cat.sessions, course.id);
    forall i | 0 <= i < |ss|
      ensures SessionRows(ss, rows)[i] == SessionRowOf(ss[i], rows)
      ensures 0.0 <= SessionRowOf(ss[i], rows).attendanceRate <= 100.0
    {
      SessionRowAt(ss, rows, i);
      SessionRateInRange(ss[i], rows);
    }
    if forall x :: x in rows ==> Documented(x.status) {
      forall i | 0 <= i < |ss|
        ensures SessionRowOf(ss[i], rows).attendanceRate == RawAttendanceRate(SessionRecords(rows, ss[i].id))
      {
        SessionRateIsRawRate(ss[i], rows);
      }
    }
  }

  /** The overall rate lies in [0, 100]; with every row documented its
      denominator is students times sessions, so unrecorded sessions count. */
  lemma ReportOverallRate(cat: Catalog, rows: seq<Attendance>, course: Course)
    requires ReportReady(cat, course.id) && UniqueAttendance(rows)
    ensures var r := CourseReportOf(cat, rows, course);
      var t := SumStats(cat.sessions, rows, Roster(cat.enrollments, course.id), course.id);
      && 0.0 <= r.summary.overallAttendanceRate <= 100.0
      && r.summary.overallAttendanceRate == Percentage(t.present + t.late, TotalAttendance(t))
      && ((forall x :: x in rows ==> Documented(x.status)) ==>
            TotalAttendance(t) == r.summary.totalStudents * r.summary.totalSessions)
  {
    var roster := Roster(cat.enrollments, course.id);
    OverallRateInRange(cat.sessions, rows, roster, course.id);
    if forall x :: x in rows ==> Documented(x.status) {
      TotalsCoverEverySession(cat.sessions, rows, roster, course.id);
    }
  }

  /** The report's overall rate and the raw rate of `get_attendance_stats`
      differ: one student, two sessions, one `present` row gives 50 in the
      report and 100 in the statistics. */
  const ExampleSessions: seq<CourseSession> :=
    [CourseSession(1, 7, Date(2024, 3, 4), None), CourseSession(2, 7, Date(2024, 3, 11), None)]
  const ExampleRows: seq<Attendance> := [Attendance(5, 1, Present, "", 0)]

  lemma ExampleSessionIds()
    ensures CourseSessionIds(ExampleSessions, 7) == [1, 2]
  {
  }

  lemma ExampleStudentStats()
    ensures CalculateAttendance(ExampleSessions, ExampleRows, 5, 7) == AttendanceStats(2, 1, 1, 0, 0, 50.0)
  {
    ExampleSessionIds();
    assert StudentRecords(ExampleRows, 5, [1, 2]) == ExampleRows;
  }

  lemma OverallRateIsNotRawRate()
    ensures OverallRate(SumStats(ExampleSessions, ExampleRows, [5], 7)) == 50.0
    ensures RawAttendanceRate(CourseRows(ExampleSessions, ExampleRows, 7)) == 100.0
  {
    ExampleStudentStats();
    assert [5][..0] == [];
    ExampleSessionIds();
    assert CourseRows(ExampleSessions, ExampleRows, 7) == ExampleRows;
  }

  /** The loop over the enrollments of `api_course_report`: one unsorted row
      per roster member, and the four running totals. */
  method CollectStudentRows(cat: Catalog, rows: seq<Attendance>, course: Course, roster: seq<StudentId>)
    returns (studentData: seq<StudentRow>, totals: Totals)
    requires Known(cat.students, roster)
    ensures studentData == StudentRows(cat, rows, course, roster)
    ensures totals == SumStats(cat.sessions, rows, roster, course.id)
  {
    studentData := [];
    var totalPresent, totalAbsent, totalLate, totalExcused := 0, 0, 0, 0;
    for i := 0 to |roster|
      invariant studentData == StudentRows(cat, rows, course, roster[..i])
      invariant Totals(totalPresent, totalAbsent, totalLate, totalExcused) == SumStats(cat.sessions, rows, roster[..i], course.id)
    {
      var student := cat.students[roster[i]];
      var stats := CalculateAttendance(cat.sessions, rows, roster[i], course.id);
      totalPresent := totalPresent + stats.present;
      totalAbsent := totalAbsent + stats.absent;
      totalLate := totalLate + stats.late;
      totalExcused := totalExcused + stats.excused;
      studentData := studentData + [StudentRowOf(student, stats, course)];
      assert roster[..i + 1][..i] == roster[..i];
    }
    assert roster[..|roster|] == roster;
    totals := Totals(totalPresent, totalAbsent, totalLate, totalExcused);
  }

  /** The loop over the sessions of `api_course_report`. */
  method CollectSessionRows(sessions: seq<CourseSession>, rows: seq<Attendance>) returns (sessionData: seq<SessionRow>)
    requires AllDated(sessions)
    ensures sessionData == SessionRows(sessions, rows)
  {
    sessionData := [];
    for i := 0 to |sessions|
      invariant sessionData == SessionRows(sessions[..i], rows)
    {
      sessionData := sessionData + [SessionRowOf(sessions[i], rows)];
      assert sessions[..i + 1][..i] == sessions[..i];
    }
    assert sessions[..|sessions|] == sessions;
  }

  /** The body of `api_course_report` once the course is found: the student
      rows and totals, the sorted rows, the session rows and the summary. */
  method AssembleReport(cat: Catalog, rows: seq<Attendance>, course: Course) returns (report: CourseReport)
    requires ReportReady(cat, course.id)
    ensures report == CourseReportOf(cat, rows, course)
  {
    var roster := Roster(cat.enrollments, course.id);
    var sessions := SessionsOf(cat.sessions, course.id);

    var studentData, totals := CollectStudentRows(cat, rows, course, roster);
    studentData := SortByPercentage(studentData);
    var sessionData := CollectSessionRows(sessions, rows);

    var below := Count(studentData, Flagged);
    var overall := OverallRate(totals);
    report := CourseReport(
      CourseInfo(course.id, course.code, course.title, course.minAttendancePercent),
      Summary(|roster|, |sessions|, overall, below),
      studentData,
      sessionData);
  }

  /** `api_course_report(course_id)`: `NotFound` for an unknown course,
      otherwise the report of the course. */
  method BuildCourseReport(cat: Catalog, rows: seq<Attendance>, courseId: CourseId) returns (r: Result<CourseReport>)
    requires cat.Valid()
    ensures courseId !in cat.courses ==> r == Err(NotFound)
    ensures courseId in cat.courses ==>
      ReportReady(cat, courseId) && r == Ok(CourseReportOf(cat, rows, cat.courses[courseId]))
  {
    if courseId !in cat.courses {
      return Err(NotFound);
    }
    var course := cat.courses[courseId];
    assert course.id == courseId;
    ValidCatalogIsReady(cat, courseId);
    var report := AssembleReport(cat, rows, course);
    return Ok(report);
  }
}
