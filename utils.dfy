/** The aggregation engine (utils.py): one student's statistics in one course,
    and the two course-level figures, which are computed by different rules and
    are kept apart on purpose. Percentages are exact rationals. */
module Utils {
  import opened Seqs
  import opened Dates
  import opened Models

  /** The dictionary returned by `calculate_attendance`. `absent` is an `int`:
      it is the recorded absences plus `total - |records|`, which only the
      uniqueness constraint keeps from going negative. */
  datatype AttendanceStats = AttendanceStats(
    total: nat, present: nat, absent: int, late: nat, excused: nat, percentage: real)

  /** The dictionary returned by `get_attendance_stats`. */
  datatype CourseStats = CourseStats(
    attendanceRate: real, sessionsCount: nat, studentCount: nat, belowThreshold: nat)

  /** The fixed reference of `get_attendance_stats`; it is not the course's own
      `min_attendance_percent`. */
  const ReferenceThreshold: real := 75.0

  /** `part / whole * 100`, and 0 when `whole` is not positive. */
  function Percentage(part: int, whole: int): (p: real)
    ensures whole <= 0 ==> p == 0.0
    ensures 0 <= part <= whole ==> 0.0 <= p <= 100.0
  {
    if whole > 0 then part as real / whole as real * 100.0 else 0.0
  }

  function OfStudentIn(student: StudentId, ids: seq<SessionId>): Attendance -> bool {
    (r: Attendance) => r.student == student && r.session in ids
  }

  /** The rows of `student` whose session is one of `ids`
      (`Attendance.session_id.in_(session_ids)`). */
  function StudentRecords(rows: seq<Attendance>, student: StudentId, ids: seq<SessionId>): seq<Attendance> {
    Filter(rows, OfStudentIn(student, ids))
  }

  function CountStatus(recs: seq<Attendance>, st: Status): (n: nat)
    ensures n <= |recs|
  {
    if |recs| == 0 then 0
    else CountStatus(recs[..|recs| - 1], st) + (if recs[|recs| - 1].status == st then 1 else 0)
  }

  /** The ids of the course's sessions, in table order. */
  function CourseSessionIds(sessions: seq<CourseSession>, course: CourseId): seq<SessionId> {
    SessionIds(SessionsOf(sessions, course))
  }

  /** `calculate_attendance(student, course)`: a session without a row for the
      student counts as an absence, and excused sessions leave the
      denominator. */
  function CalculateAttendance(sessions: seq<CourseSession>, rows: seq<Attendance>, student: StudentId, course: CourseId): (st: AttendanceStats)
    ensures st.total == |SessionsOf(sessions, course)|
    ensures st.total == 0 ==> st == AttendanceStats(0, 0, 0, 0, 0, 0.0)
    ensures st.total <= st.excused ==> st.percentage == 0.0
    ensures st.total > 0 ==> st.percentage == Percentage(st.present + st.late, st.total - st.excused)
  {
    var ids := CourseSessionIds(sessions, course);
    if |ids| == 0 then AttendanceStats(0, 0, 0, 0, 0, 0.0)
    else
      var recs := StudentRecords(rows, student, ids);
      var present := CountStatus(recs, Present);
      var late := CountStatus(recs, Late);
      var excused := CountStatus(recs, Excused);
      var absent := CountStatus(recs, Absent) + (|ids| - |recs|);
      AttendanceStats(|ids|, present, absent, late, excused, Percentage(present + late, |ids| - excused))
  }

  /** The four status counts never exceed the records counted, and cover them
      exactly when every record carries a documented status. */
  lemma {:induction false} StatusCountsCover(recs: seq<Attendance>)
    ensures CountStatus(recs, Present) + CountStatus(recs, Absent) + CountStatus(recs, Late) + CountStatus(recs, Excused) <= |recs|
    ensures (forall r :: r in recs ==> Documented(r.status)) ==>
      CountStatus(recs, Present) + CountStatus(recs, Absent) + CountStatus(recs, Late) + CountStatus(recs, Excused) == |recs|
  {
    if |recs| > 0 {
      var init := recs[..|recs| - 1];
      assert forall r :: r in init ==> r in recs;
      StatusCountsCover(init);
    }
  }

  /** Under the `unique_attendance` constraint a student has at most one
      record per course session. */
  lemma RecordsAtMostSessions(rows: seq<Attendance>, student: StudentId, ids: seq<SessionId>)
    requires UniqueAttendance(rows)
    ensures |StudentRecords(rows, student, ids)| <= |ids|
  {
    var recs := StudentRecords(rows, student, ids);
    FilterKeepsDistinct(rows, OfStudentIn(student, ids), AttendanceKey);
    FilterMembers(rows, OfStudentIn(student, ids));
    forall i, j | 0 <= i < j < |recs|
      ensures RecordSession(recs[i]) != RecordSession(recs[j])
    {
      assert recs[i] in recs && recs[j] in recs;
      assert AttendanceKey(recs[i]) != AttendanceKey(recs[j]);
    }
    DistinctKeysBound(recs, RecordSession, ids);
  }

  /** When every record carries one of the four statuses, the counts add up to
      the number of sessions: unrecorded sessions are in `absent`. */
  lemma CountsAddUpToTotal(sessions: seq<CourseSession>, rows: seq<Attendance>, student: StudentId, course: CourseId)
    requires forall r :: r in rows ==> Documented(r.status)
    ensures var st := CalculateAttendance(sessions, rows, student, course);
      st.present + st.absent + st.late + st.excused == st.total
  {
    var ids := CourseSessionIds(sessions, course);
    var recs := StudentRecords(rows, student, ids);
    FilterMembers(rows, OfStudentIn(student, ids));
    StatusCountsCover(recs);
  }

  /** `absent` is the recorded absences plus the sessions without a record,
      and under the uniqueness constraint the latter are never negative. */
  lemma AbsentIncludesUnrecorded(sessions: seq<CourseSession>, rows: seq<Attendance>, student: StudentId, course: CourseId)
    requires UniqueAttendance(rows)
    ensures var st := CalculateAttendance(sessions, rows, student, course);
      var recs := StudentRecords(rows, student, CourseSessionIds(sessions, course));
      st.total > 0 ==>
        && st.absent - CountStatus(recs, Absent) == st.total - |recs|
        && st.absent >= CountStatus(recs, Absent)
  {
    RecordsAtMostSessions(rows, student, CourseSessionIds(sessions, course));
  }

  /** Under the uniqueness constraint the percentage lies in [0, 100]. */
  lemma PercentageInRange(sessions: seq<CourseSession>, rows: seq<Attendance>, student: StudentId, course: CourseId)
    requires UniqueAttendance(rows)
    ensures var st := CalculateAttendance(sessions, rows, student, course);
      0.0 <= st.percentage <= 100.0 && st.absent >= 0
  {
    var ids := CourseSessionIds(sessions, course);
    var recs := StudentRecords(rows, student, ids);
    RecordsAtMostSessions(rows, student, ids);
    StatusCountsCover(recs);
  }

  /** Recording `present` for one more of the course's sessions moves one
      session from `absent` to `present` and never lowers the percentage. */
  lemma PresentRecordNeverLowers(sessions: seq<CourseSession>, rows: seq<Attendance>, student: StudentId, course: CourseId,
                                 session: SessionId, notes: string, at: int)
    requires session in CourseSessionIds(sessions, course)
    ensures var before := CalculateAttendance(sessions, rows, student, course);
      var after := CalculateAttendance(sessions, rows + [Attendance(student, session, Present, notes, at)], student, course);
      && after.present == before.present + 1
      && after.absent == before.absent - 1
      && after.late == before.late && after.excused == before.excused
      && after.percentage >= before.percentage
  {
    var ids := CourseSessionIds(sessions, course);
    var x := Attendance(student, session, Present, notes, at);
    var recs := StudentRecords(rows, student, ids);
    assert (rows + [x])[..|rows|] == rows;
    assert StudentRecords(rows + [x], student, ids) == recs + [x];
    assert (recs + [x])[..|recs|] == recs;
    var attended := CountStatus(recs, Present) + CountStatus(recs, Late);
    PercentageGrows(attended, attended + 1, |ids| - CountStatus(recs, Excused));
  }

  /** A larger numerator over the same denominator never gives a smaller
      percentage. */
  lemma PercentageGrows(part: int, part': int, whole: int)
    requires part <= part'
    ensures Percentage(part, whole) <= Percentage(part', whole)
  {
    if whole > 0 {
      var w := whole as real;
      assert part' as real / w == part as real / w + (part' - part) as real / w;
      assert 0.0 <= (part' - part) as real / w;
    }
  }

  /** A new session of the course with no rows yet adds one to `total` and one
      to `absent` of every student and leaves the other counts alone. */
  lemma UnrecordedSessionCountsAsAbsent(sessions: seq<CourseSession>, rows: seq<Attendance>, student: StudentId,
                                        course: CourseId, added: CourseSession)
    requires added.course == course
    requires forall r :: r in rows ==> r.session != added.id
    ensures var before := CalculateAttendance(sessions, rows, student, course);
      var after := CalculateAttendance(sessions + [added], rows, student, course);
      && after.total == before.total + 1
      && after.absent == before.absent + 1
      && after.present == before.present && after.late == before.late && after.excused == before.excused
  {
    var ids := CourseSessionIds(sessions, course);
    assert (sessions + [added])[..|sessions|] == sessions;
    assert SessionsOf(sessions + [added], course) == SessionsOf(sessions, course) + [added];
    var ids' := CourseSessionIds(sessions + [added], course);
    assert ids' == ids + [added.id];
    FilterCongruent(rows, OfStudentIn(student, ids'), OfStudentIn(student, ids));
    if |ids| == 0 {
      var recs := StudentRecords(rows, student, ids);
      FilterMembers(rows, OfStudentIn(student, ids));
      if |recs| > 0 {
        assert recs[0] in recs;
      }
    }
  }

  const FourSessions: seq<CourseSession> :=
    [CourseSession(1, 3, Date(2024, 1, 8), None), CourseSession(2, 3, Date(2024, 1, 15), None),
     CourseSession(3, 3, Date(2024, 1, 22), None), CourseSession(4, 3, Date(2024, 1, 29), None)]
  const TwoExcusedOnePresent: seq<Attendance> :=
    [Attendance(9, 1, Excused, "", 0), Attendance(9, 2, Excused, "", 0), Attendance(9, 3, Present, "", 0)]

  lemma FourSessionIds()
    ensures CourseSessionIds(FourSessions, 3) == [1, 2, 3, 4]
  {
    var ss := FourSessions;
    assert SessionsOf(ss[..1], 3) == ss[..1];
    assert ss[..2][..1] == ss[..1];
    assert SessionsOf(ss[..2], 3) == ss[..2];
    assert ss[..3][..2] == ss[..2];
    assert SessionsOf(ss[..3], 3) == ss[..3];
    assert ss[..3] == ss[..|ss| - 1];
    assert SessionsOf(ss, 3) == ss;
  }

  lemma TwoExcusedOnePresentRecords()
    ensures StudentRecords(TwoExcusedOnePresent, 9, [1, 2, 3, 4]) == TwoExcusedOnePresent
  {
    var rs := TwoExcusedOnePresent;
    assert StudentRecords(rs[..1], 9, [1, 2, 3, 4]) == rs[..1];
    assert rs[..2][..1] == rs[..1];
    assert StudentRecords(rs[..2], 9, [1, 2, 3, 4]) == rs[..2];
    assert rs[..2] == rs[..|rs| - 1];
  }

  /** Four sessions, two of them excused, one attended and one without a row:
      the excused sessions leave the denominator, the unrecorded one is an
      absence, so the percentage is 1 of 2. */
  lemma ExcusedSessionsLeaveDenominator()
    ensures CalculateAttendance(FourSessions, TwoExcusedOnePresent, 9, 3) == AttendanceStats(4, 1, 1, 0, 2, 50.0)
  {
    var rs := TwoExcusedOnePresent;
    FourSessionIds();
    TwoExcusedOnePresentRecords();
    assert rs[..2][..1] == rs[..1];
    assert rs[..2] == rs[..|rs| - 1];
    assert CountStatus(rs[..1], Absent) == 0 && CountStatus(rs[..1], Late) == 0;
    assert CountStatus(rs[..2], Absent) == 0 && CountStatus(rs[..2], Late) == 0;
    assert CountStatus(rs, Excused) == 2;
    assert CountStatus(rs, Present) == 1;
    assert CountStatus(rs, Late) == 0 && CountStatus(rs, Absent) == 0;
    assert Percentage(1, 2) == 50.0;
  }

  // ---- get_attendance_stats ----

  /** How many students of `roster` have at least one session and an exact
      percentage below the fixed 75 reference. */
  function BelowReference(sessions: seq<CourseSession>, rows: seq<Attendance>, roster: seq<StudentId>, course: CourseId): (n: nat)
    ensures n <= |roster|
  {
    if |roster| == 0 then 0
    else
      var st := CalculateAttendance(sessions, rows, roster[|roster| - 1], course);
      BelowReference(sessions, rows, roster[..|roster| - 1], course)
        + (if st.total > 0 && st.percentage < ReferenceThreshold then 1 else 0)
  }

  function InSessions(ids: seq<SessionId>): Attendance -> bool {
    (r: Attendance) => r.session in ids
  }

  /** All rows of the course's sessions, of any student and any status (the
      join of `Attendance` with `CourseSession`). */
  function CourseRows(sessions: seq<CourseSession>, rows: seq<Attendance>, course: CourseId): seq<Attendance> {
    Filter(rows, InSessions(CourseSessionIds(sessions, course)))
  }

  predicate Attended(r: Attendance) {
    r.status == Present || r.status == Late
  }

  /** Present-or-late rows over all recorded rows: unrecorded sessions and the
      excused exclusion play no part. */
  function RawAttendanceRate(rs: seq<Attendance>): (rate: real)
    ensures 0.0 <= rate <= 100.0
    ensures |rs| == 0 ==> rate == 0.0
  {
    Percentage(Count(rs, Attended), |rs|)
  }

  /** `get_attendance_stats(course)`. */
  method GetAttendanceStats(sessions: seq<CourseSession>, enrollments: seq<Enrollment>, rows: seq<Attendance>, course: CourseId)
    returns (stats: CourseStats)
    ensures |SessionsOf(sessions, course)| == 0 ==> stats == CourseStats(0.0, 0, 0, 0)
    ensures |SessionsOf(sessions, course)| > 0 ==>
      && stats.sessionsCount == |SessionsOf(sessions, course)|
      && stats.studentCount == |Roster(enrollments, course)|
      && stats.belowThreshold == BelowReference(sessions, rows, Roster(enrollments, course), course)
      && stats.attendanceRate == RawAttendanceRate(CourseRows(sessions, rows, course))
    ensures stats.belowThreshold <= stats.studentCount
    ensures 0.0 <= stats.attendanceRate <= 100.0
  {
    var courseSessions := SessionsOf(sessions, course);
    if |courseSessions| == 0 {
      return CourseStats(0.0, 0, 0, 0);
    }
    var roster := Roster(enrollments, course);
    var below := 0;
    for i := 0 to |roster|
      invariant below == BelowReference(sessions, rows, roster[..i], course)
    {
      var st := CalculateAttendance(sessions, rows, roster[i], course);
      if st.total > 0 {
        below := below + if st.percentage < ReferenceThreshold then 1 else 0;
      }
      assert roster[..i + 1][..i] == roster[..i];
    }
    assert roster[..|roster|] == roster;

    var courseRows := CourseRows(sessions, rows, course);
    var totalRecords, presentLate := 0, 0;
    for i := 0 to |courseRows|
      invariant totalRecords == i
      invariant presentLate == Count(courseRows[..i], Attended)
    {
      totalRecords := totalRecords + 1;
      if courseRows[i].status == Present || courseRows[i].status == Late {
        presentLate := presentLate + 1;
      }
      assert courseRows[..i + 1][..i] == courseRows[..i];
    }
    assert courseRows[..|courseRows|] == courseRows;
    var rate := if totalRecords > 0 then presentLate as real / totalRecords as real * 100.0 else 0.0;
    stats := CourseStats(rate, |courseSessions|, |roster|, below);
  }

  /** A session of the course that has no rows leaves the raw rate unchanged,
      while (UnrecordedSessionCountsAsAbsent) it adds an absence to every
      student's statistics. */
  lemma UnrecordedSessionKeepsRawRate(sessions: seq<CourseSession>, rows: seq<Attendance>, course: CourseId, added: CourseSession)
    requires added.course == course
    requires forall r :: r in rows ==> r.session != added.id
    ensures CourseRows(sessions + [added], rows, course) == CourseRows(sessions, rows, course)
    ensures RawAttendanceRate(CourseRows(sessions + [added], rows, course)) == RawAttendanceRate(CourseRows(sessions, rows, course))
  {
    assert (sessions + [added])[..|sessions|] == sessions;
    assert SessionsOf(sessions + [added], course) == SessionsOf(sessions, course) + [added];
    assert CourseSessionIds(sessions + [added], course) == CourseSessionIds(sessions, course) + [added.id];
    FilterCongruent(rows, InSessions(CourseSessionIds(sessions + [added], course)), InSessions(CourseSessionIds(sessions, course)));
  }
}
