/** The route handlers that write to the attendance ledger (routes.py):
    recording a session's attendance, answering an absence request, and
    submitting one. The ledger, the request table and the emitted
    low-attendance notifications are the fields of an `AttendanceStore`; the
    tables the handlers only read arrive as a `Catalog`. Role and ownership
    checks are taken as already passed. */
module Routes {
  import opened Seqs
  import opened Dates
  import opened Models
  import opened Utils
  import opened Ledger

  /** The event `send_attendance_notification(student, course, percentage)` emits. */
  datatype Notification = Notification(student: StudentId, course: CourseId, percentage: real)

  /** `CourseSession.query.get_or_404(id)`. */
  function FindSession(sessions: seq<CourseSession>, id: SessionId): (r: Option<CourseSession>)
    ensures r.Some? ==> r.value in sessions && r.value.id == id
    ensures r.None? <==> forall s :: s in sessions ==> s.id != id
  {
    if |sessions| == 0 then None
    else if sessions[0].id == id then Some(sessions[0])
    else FindSession(sessions[1..], id)
  }

  // ---- take_attendance ----

  /** `request.form.get('notes_<id>', '')`. */
  function NoteOf(notes: map<StudentId, string>, student: StudentId): string {
    if student in notes then notes[student] else ""
  }

  /** Every roster member has a `status_<id>` field in the submission. */
  predicate Complete(roster: seq<StudentId>, statuses: map<StudentId, Status>) {
    forall i :: 0 <= i < |roster| ==> roster[i] in statuses
  }

  /** The writes of a complete attendance submission, one per roster member,
      in roster order. */
  function SubmissionWrites(roster: seq<StudentId>, session: SessionId,
                            statuses: map<StudentId, Status>, notes: map<StudentId, string>): (ws: seq<Write>)
    requires Complete(roster, statuses)
    ensures |ws| == |roster|
    ensures forall i :: 0 <= i < |roster| ==> ws[i] == Write(roster[i], session, statuses[roster[i]], NoteOf(notes, roster[i]))
    ensures forall w :: w in ws ==> w.student in roster && w.session == session
    ensures Distinct(roster) ==> DistinctBy(ws, WriteKey)
  {
    seq(|roster|, i requires 0 <= i < |roster| => Write(roster[i], session, statuses[roster[i]], NoteOf(notes, roster[i])))
  }

  /** The notifications of the second loop of `take_attendance`: one per roster
      member, in roster order, whose recomputed percentage is below the
      course's own minimum. */
  function LowAttendanceAlerts(sessions: seq<CourseSession>, rows: seq<Attendance>, roster: seq<StudentId>, course: Course): (alerts: seq<Notification>)
    ensures |alerts| <= |roster|
  {
    if |roster| == 0 then []
    else
      var student := roster[|roster| - 1];
      var pct := CalculateAttendance(sessions, rows, student, course.id).percentage;
      LowAttendanceAlerts(sessions, rows, roster[..|roster| - 1], course)
        + (if pct < course.minAttendancePercent then [Notification(student, course.id, pct)] else [])
  }

  lemma LowAttendanceAlertsStep(sessions: seq<CourseSession>, rows: seq<Attendance>, roster: seq<StudentId>, i: nat, course: Course)
    requires i < |roster|
    ensures var pct := CalculateAttendance(sessions, rows, roster[i], course.id).percentage;
      LowAttendanceAlerts(sessions, rows, roster[..i + 1], course) == LowAttendanceAlerts(sessions, rows, roster[..i], course)
        + (if pct < course.minAttendancePercent then [Notification(roster[i], course.id, pct)] else [])
  {
    assert roster[..i + 1][..i] == roster[..i];
  }

  /** A notification is emitted for exactly the roster members below the
      course minimum, and carries that member's percentage. */
  lemma {:induction false} LowAttendanceAlertsExactly(sessions: seq<CourseSession>, rows: seq<Attendance>, roster: seq<StudentId>, course: Course)
    ensures forall n :: n in LowAttendanceAlerts(sessions, rows, roster, course) ==>
      && n.student in roster && n.course == course.id
      && n.percentage == CalculateAttendance(sessions, rows, n.student, course.id).percentage
      && n.percentage < course.minAttendancePercent
    ensures forall s :: s in roster && CalculateAttendance(sessions, rows, s, course.id).percentage < course.minAttendancePercent ==>
      Notification(s, course.id, CalculateAttendance(sessions, rows, s, course.id).percentage) in LowAttendanceAlerts(sessions, rows, roster, course)
  {
    if |roster| > 0 {
      var init := roster[..|roster| - 1];
      LowAttendanceAlertsExactly(sessions, rows, init, course);
      assert roster == init + [roster[|roster| - 1]];
    }
  }

  /** What a complete submission leaves in the ledger: every roster member has
      exactly one record for the session, with the submitted status and notes;
      no other record changes, and new records are only for roster members and
      this session. */
  lemma TakeAttendanceRecords(cat: Catalog, rows: seq<Attendance>, session: CourseSession,
                              statuses: map<StudentId, Status>, notes: map<StudentId, string>, now: int)
    requires cat.Valid() && UniqueAttendance(rows)
    requires session in cat.sessions
    requires Complete(Roster(cat.enrollments, session.course), statuses)
    ensures var roster := Roster(cat.enrollments, session.course);
      var r := ApplyWrites(rows, SubmissionWrites(roster, session.id, statuses, notes), now);
      && UniqueAttendance(r)
      && (forall s :: s in roster ==> Holds(r, Write(s, session.id, statuses[s], NoteOf(notes, s))))
      && |rows| <= |r|
      && (forall i :: 0 <= i < |rows| && !(rows[i].student in roster && rows[i].session == session.id) ==> r[i] == rows[i])
      && (forall i :: |rows| <= i < |r| ==> r[i].student in roster && r[i].session == session.id && r[i].recordedAt == now)
  {
    var roster := Roster(cat.enrollments, session.course);
    var ws := SubmissionWrites(roster, session.id, statuses, notes);
    RosterDistinct(cat, session.course);
    ApplyWritesKeepsUnique(rows, ws, now);
    ApplyWritesStores(rows, ws, now);
    ApplyWritesFrame(rows, ws, now);
    forall s | s in roster
      ensures Write(s, session.id, statuses[s], NoteOf(notes, s)) in ws
    {
      var i :| 0 <= i < |roster| && roster[i] == s;
      assert ws[i] == Write(s, session.id, statuses[s], NoteOf(notes, s));
    }
    forall key | Touches(ws, key)
      ensures key.0 in roster && key.1 == session.id
    {
      var w :| w in ws && WriteKey(w) == key;
      var i :| 0 <= i < |ws| && ws[i] == w;
      assert roster[i] in roster;
    }
  }

  // ---- respond_absence_request ----

  /** `f"Excused absence: {reason}"`. */
  function ExcuseNote(reason: string): (note: string)
    ensures |note| == |reason| + 17 && note[..17] == "Excused absence: " && note[17..] == reason
  {
    "Excused absence: " + reason
  }

  function InRange(course: CourseId, from: Date, to: Date): CourseSession -> bool {
    (s: CourseSession) => s.course == course && OnOrBefore(from, s.date) && OnOrBefore(s.date, to)
  }

  /** The sessions of `course` dated between `from` and `to`, both included. */
  function SessionsInRange(sessions: seq<CourseSession>, course: CourseId, from: Date, to: Date): seq<CourseSession> {
    Filter(sessions, InRange(course, from, to))
  }

  lemma SessionsInRangeMembers(sessions: seq<CourseSession>, course: CourseId, from: Date, to: Date)
    ensures forall s :: s in SessionsInRange(sessions, course, from, to) <==>
      s in sessions && s.course == course && OnOrBefore(from, s.date) && OnOrBefore(s.date, to)
  {
    FilterMembers(sessions, InRange(course, from, to));
  }

  /** The excusal written for each session in the request's range. */
  function ExcuseWrites(req: AbsenceRequest, sessions: seq<CourseSession>): seq<Write> {
    var ss := SessionsInRange(sessions, req.course, req.fromDate, req.toDate);
    seq(|ss|, i requires 0 <= i < |ss| => Write(req.student, ss[i].id, Excused, ExcuseNote(req.reason)))
  }

  /** The session `id` is a session of the request's course inside its range. */
  ghost predicate InApprovedRange(sessions: seq<CourseSession>, req: AbsenceRequest, id: SessionId) {
    exists s :: s in sessions && s.id == id && InRange(req.course, req.fromDate, req.toDate)(s)
  }

  lemma ExcuseWritesDistinct(cat: Catalog, req: AbsenceRequest)
    requires cat.Valid()
    ensures DistinctBy(ExcuseWrites(req, cat.sessions), WriteKey)
  {
    FilterKeepsDistinct(cat.sessions, InRange(req.course, req.fromDate, req.toDate), SessionKey);
  }

  /** A write of an approval is for the requesting student and a session in
      the range, and every such session has its write. */
  lemma ExcuseWritesCover(cat: Catalog, req: AbsenceRequest)
    ensures var ws := ExcuseWrites(req, cat.sessions);
      && (forall key :: Touches(ws, key) ==> key.0 == req.student && InApprovedRange(cat.sessions, req, key.1))
      && (forall s :: s in cat.sessions && InRange(req.course, req.fromDate, req.toDate)(s) ==>
            Write(req.student, s.id, Excused, ExcuseNote(req.reason)) in ws)
  {
    var ss := SessionsInRange(cat.sessions, req.course, req.fromDate, req.toDate);
    var ws := ExcuseWrites(req, cat.sessions);
    FilterMembers(cat.sessions, InRange(req.course, req.fromDate, req.toDate));
    forall key | Touches(ws, key)
      ensures key.0 == req.student && InApprovedRange(cat.sessions, req, key.1)
    {
      var w :| w in ws && WriteKey(w) == key;
      var i :| 0 <= i < |ws| && ws[i] == w;
      assert ss[i] in ss;
    }
    forall s | s in cat.sessions && InRange(req.course, req.fromDate, req.toDate)(s)
      ensures Write(req.student, s.id, Excused, ExcuseNote(req.reason)) in ws
    {
      assert ws[IndexOf(ss, s)] == Write(req.student, s.id, Excused, ExcuseNote(req.reason));
    }
  }

  /** Approving a request leaves exactly one record per in-range session of the
      request's course for the student, excused with the note built from the
      reason; an existing record is overwritten rather than duplicated. */
  lemma ApprovalExcusesRange(cat: Catalog, rows: seq<Attendance>, req: AbsenceRequest, now: int)
    requires cat.Valid() && UniqueAttendance(rows)
    ensures var r := ApplyWrites(rows, ExcuseWrites(req, cat.sessions), now);
      && UniqueAttendance(r)
      && forall s :: s in cat.sessions && s.course == req.course && OnOrBefore(req.fromDate, s.date) && OnOrBefore(s.date, req.toDate) ==>
           Holds(r, Write(req.student, s.id, Excused, ExcuseNote(req.reason)))
  {
    var ws := ExcuseWrites(req, cat.sessions);
    ExcuseWritesDistinct(cat, req);
    ExcuseWritesCover(cat, req);
    ApplyWritesKeepsUnique(rows, ws, now);
    ApplyWritesStores(rows, ws, now);
    forall s | s in cat.sessions && s.course == req.course && OnOrBefore(req.fromDate, s.date) && OnOrBefore(s.date, req.toDate)
      ensures Holds(ApplyWrites(rows, ws, now), Write(req.student, s.id, Excused, ExcuseNote(req.reason)))
    {
      assert InRange(req.course, req.fromDate, req.toDate)(s);
    }
  }

  /** Approving a request changes no record of another student, of a session
      of another course, or of a session outside the range; the records it
      adds are the student's, for sessions in the range. */
  lemma ApprovalScope(cat: Catalog, rows: seq<Attendance>, req: AbsenceRequest, now: int)
    requires cat.Valid()
    ensures var r := ApplyWrites(rows, ExcuseWrites(req, cat.sessions), now);
      && |rows| <= |r|
      && (forall i :: 0 <= i < |rows| && (rows[i].student != req.student || !InApprovedRange(cat.sessions, req, rows[i].session)) ==>
            r[i] == rows[i])
      && (forall i, s :: 0 <= i < |rows| && s in cat.sessions && s.id == rows[i].session && s.course != req.course ==>
            r[i] == rows[i])
      && (forall i :: |rows| <= i < |r| ==> r[i].student == req.student && InApprovedRange(cat.sessions, req, r[i].session))
  {
    var ws := ExcuseWrites(req, cat.sessions);
    ExcuseWritesCover(cat, req);
    ApplyWritesFrame(rows, ws, now);
    forall i, s | 0 <= i < |rows| && s in cat.sessions && s.id == rows[i].session && s.course != req.course
      ensures !InApprovedRange(cat.sessions, req, rows[i].session)
    {
    }
  }

  /** Approving the same request again, at any later time, leaves the ledger as
      the first approval left it. */
  lemma ApprovalIdempotent(cat: Catalog, rows: seq<Attendance>, req: AbsenceRequest, now: int, later: int)
    requires cat.Valid() && UniqueAttendance(rows)
    ensures var once := ApplyWrites(rows, ExcuseWrites(req, cat.sessions), now);
      ApplyWrites(once, ExcuseWrites(req, cat.sessions), later) == once
  {
    ExcuseWritesDistinct(cat, req);
    ApplyWritesIdempotent(rows, ExcuseWrites(req, cat.sessions), now, later);
  }

  /** The request after the response form is accepted. */
  function Responded(req: AbsenceRequest, decision: RequestStatus, notes: string, now: int): AbsenceRequest {
    req.(status := decision, responseNotes := Some(notes), respondedAt := Some(now))
  }

  // ---- create_absence_request ----

  predicate Blank(s: string) {
    forall i :: 0 <= i < |s| ==> s[i] == ' ' || s[i] == '\t' || s[i] == '\n' || s[i] == '\r'
  }

  /** Form validation and the date check of `create_absence_request`: the
      course must be one of the student's enrollments, the reason must not be
      blank, and the range must not end before it starts. */
  function CheckRequest(enrollments: seq<Enrollment>, student: StudentId, course: CourseId,
                        from: Date, to: Date, reason: string): (r: Option<Error>)
    ensures r.None? <==> Enrollment(student, course) in enrollments && !Blank(reason) && OnOrBefore(from, to)
    ensures r == Some(EndBeforeStart) <==> Enrollment(student, course) in enrollments && !Blank(reason) && Before(to, from)
  {
    if course !in EnrolledCourses(enrollments, student) then Some(NotAChoice)
    else if Blank(reason) then Some(MissingField)
    else if Before(to, from) then Some(EndBeforeStart)
    else None
  }

  class AttendanceStore {
    /** The `attendance` table. */
    var attendance: seq<Attendance>
    /** The `absence_request` table; a request's id is its position. */
    var requests: seq<AbsenceRequest>
    /** Every notification emitted so far, oldest first. */
    var notifications: seq<Notification>

    /** The `unique_attendance` constraint. */
    predicate Valid()
      reads this
    {
      UniqueAttendance(attendance)
    }

    constructor ()
      ensures Valid()
      ensures attendance == [] && requests == [] && notifications == []
    {
      attendance := [];
      requests := [];
      notifications := [];
    }

    /** The loop shared by both ledger writers: for each write, update the
        pair's record in place if there is one, otherwise add a record
        stamped `now`. */
    method Upsert(writes: seq<Write>, now: int)
      modifies this
      ensures attendance == ApplyWrites(old(attendance), writes, now)
      ensures requests == old(requests) && notifications == old(notifications)
    {
      for i := 0 to |writes|
        invariant attendance == ApplyWrites(old(attendance), writes[..i], now)
        invariant requests == old(requests) && notifications == old(notifications)
      {
        var w := writes[i];
        var existing := FindRecord(attendance, w.student, w.session);
        if existing.Some? {
          var k := existing.value;
          attendance := attendance[k := attendance[k].(status := w.status, notes := w.notes)];
        } else {
          attendance := attendance + [Attendance(w.student, w.session, w.status, w.notes, now)];
        }
        assert writes[..i + 1][..i] == writes[..i];
      }
      assert writes[..|writes|] == writes;
    }

    /** The second loop of `take_attendance`: recompute each roster member's
        statistics and emit a notification when the percentage is below the
        course's own minimum. */
    method NotifyLowAttendance(sessions: seq<CourseSession>, roster: seq<StudentId>, course: Course)
      modifies this
      ensures notifications == old(notifications) + LowAttendanceAlerts(sessions, attendance, roster, course)
      ensures attendance == old(attendance) && requests == old(requests)
    {
      for i := 0 to |roster|
        invariant notifications == old(notifications) + LowAttendanceAlerts(sessions, attendance, roster[..i], course)
        invariant attendance == old(attendance) && requests == old(requests)
      {
        var stats := CalculateAttendance(sessions, attendance, roster[i], course.id);
        LowAttendanceAlertsStep(sessions, attendance, roster, i, course);
        if stats.percentage < course.minAttendancePercent {
          notifications := notifications + [Notification(roster[i], course.id, stats.percentage)];
        }
      }
      assert roster[..|roster|] == roster;
    }

    /** `take_attendance(session_id)`, POST: upsert every roster member's
        submitted status and notes for the session, then notify each roster
        member whose recomputed percentage is below the course minimum. A
        missing status makes the commit fail, so nothing is written. */
    method TakeAttendance(cat: Catalog, sessionId: SessionId, statuses: map<StudentId, Status>,
                          notes: map<StudentId, string>, now: int)
      returns (failure: Option<Error>)
      requires cat.Valid() && Valid()
      modifies this
      ensures Valid() && requests == old(requests)
      ensures FindSession(cat.sessions, sessionId).None? ==> failure == Some(NotFound) && unchanged(this)
      ensures FindSession(cat.sessions, sessionId).Some? ==>
        var session := FindSession(cat.sessions, sessionId).value;
        var roster := Roster(cat.enrollments, session.course);
        if !Complete(roster, statuses) then failure == Some(MissingStatus) && unchanged(this)
        else
          && failure.None?
          && attendance == ApplyWrites(old(attendance), SubmissionWrites(roster, sessionId, statuses, notes), now)
          && notifications == old(notifications) + LowAttendanceAlerts(cat.sessions, attendance, roster, cat.courses[session.course])
    {
      var found := FindSession(cat.sessions, sessionId);
      if found.None? {
        return Some(NotFound);
      }
      var session := found.value;
      var course := cat.courses[session.course];
      var roster := Roster(cat.enrollments, session.course);
      if !Complete(roster, statuses) {
        return Some(MissingStatus);
      }

      var writes := SubmissionWrites(roster, sessionId, statuses, notes);
      RosterDistinct(cat, session.course);
      ApplyWritesKeepsUnique(attendance, writes, now);
      Upsert(writes, now);
      NotifyLowAttendance(cat.sessions, roster, course);
      return None;
    }

    /** `respond_absence_request(request_id)`, POST: record the decision, the
        response notes and the time; on approval, excuse the student for every
        session of the course in the requested range. A request is answered
        whatever its current status. */
    method RespondAbsenceRequest(cat: Catalog, id: nat, decision: RequestStatus, responseNotes: string, now: int)
      returns (failure: Option<Error>)
      requires cat.Valid() && Valid()
      modifies this
      ensures Valid() && notifications == old(notifications)
      ensures id >= |old(requests)| ==> failure == Some(NotFound) && unchanged(this)
      ensures id < |old(requests)| && decision == Pending ==> failure == Some(NotAChoice) && unchanged(this)
      ensures id < |old(requests)| && decision != Pending ==>
        var req := old(requests)[id];
        && failure.None?
        && requests == old(requests)[id := Responded(req, decision, responseNotes, now)]
        && attendance == (if decision == Approved then ApplyWrites(old(attendance), ExcuseWrites(req, cat.sessions), now)
                          else old(attendance))
    {
      if id >= |requests| {
        return Some(NotFound);
      }
      if decision == Pending {
        return Some(NotAChoice);
      }
      var req := requests[id];
      requests := requests[id := Responded(req, decision, responseNotes, now)];
      if decision == Approved {
        ApplyWritesKeepsUnique(attendance, ExcuseWrites(req, cat.sessions), now);
        Upsert(ExcuseWrites(req, cat.sessions), now);
      }
      return None;
    }

    /** `create_absence_request`, POST: a valid request is stored as pending,
        dated `today`, with no response yet; an invalid one stores nothing. */
    method CreateAbsenceRequest(enrollments: seq<Enrollment>, student: StudentId, course: CourseId,
                                from: Date, to: Date, reason: string, today: Date)
      returns (failure: Option<Error>)
      modifies this
      ensures failure == CheckRequest(enrollments, student, course, from, to, reason)
      ensures attendance == old(attendance) && notifications == old(notifications)
      ensures failure.Some? ==> requests == old(requests)
      ensures failure.None? ==>
        requests == old(requests) + [AbsenceRequest(student, course, today, from, to, reason, Pending, None, None)]
    {
      failure := CheckRequest(enrollments, student, course, from, to, reason);
      if failure.None? {
        requests := requests + [AbsenceRequest(student, course, today, from, to, reason, Pending, None, None)];
      }
    }
  }
}
