/** The entities of the attendance system (models.py): courses, enrollments,
    sessions, attendance records and absence requests, the database's
    uniqueness and reference constraints, and the delete cascades declared on
    the relationships. Tables the core only reads are values; the attendance
    table and the request table are mutated by the route handlers (see module
    Routes). */
module Models {
  import opened Seqs
  import opened Dates

  type StudentId = int
  type CourseId = int
  type SessionId = int

  datatype Option<T> = None | Some(value: T)

  /** What a route handler reports instead of its redirect or JSON body. */
  datatype Error =
    | NotFound        // `get_or_404` found no row
    | MissingStatus   // a roster member had no status field; the NOT NULL column makes the commit fail
    | NotAChoice      // a select field's value is not among its choices, so the form does not validate
    | MissingField    // a required form field is blank, so the form does not validate
    | EndBeforeStart  // an absence request whose `from_date` is after its `to_date`

  datatype Result<T> = Ok(value: T) | Err(error: Error)

  /** `Attendance.status` is a free-text column: the four documented values are
      not enforced, so any other text is kept as `Other`. */
  datatype Status = Present | Absent | Late | Excused | Other(text: string)

  predicate Documented(s: Status) {
    !s.Other?
  }

  /** The `Status` a stored `status` string stands for. */
  function StatusOf(text: string): (s: Status)
    ensures text == "present" <==> s == Present
    ensures text == "absent" <==> s == Absent
    ensures text == "late" <==> s == Late
    ensures text == "excused" <==> s == Excused
    ensures s.Other? ==> s.text == text
  {
    if text == "present" then Present
    else if text == "absent" then Absent
    else if text == "late" then Late
    else if text == "excused" then Excused
    else Other(text)
  }

  /** `Other` never carries one of the four spellings, so every stored string
      has exactly one `Status`. */
  predicate WellFormedStatus(s: Status) {
    s.Other? ==> s.text != "present" && s.text != "absent" && s.text != "late" && s.text != "excused"
  }

  /** Reading a stored string gives a well-formed status, and reading back a
      well-formed status gives that status again. */
  lemma StatusOfWellFormed(text: string, s: Status)
    ensures WellFormedStatus(StatusOf(text))
    ensures WellFormedStatus(s) && s.Other? ==> StatusOf(s.text) == s
  {
  }

  datatype Student = Student(number: string, fullName: string)

  /** A course and its own attendance minimum, `min_attendance_percent`. */
  datatype Course = Course(id: CourseId, code: string, title: string, minAttendancePercent: real)

  datatype Enrollment = Enrollment(student: StudentId, course: CourseId)

  /** A session; `course` is a non-null reference, so every session belongs to
      exactly one course. `title` is nullable. */
  datatype CourseSession = CourseSession(id: SessionId, course: CourseId, date: Date, title: Option<string>)

  /** One student's recorded status for one session; `recordedAt` is set when
      the row is inserted and never updated. */
  datatype Attendance = Attendance(student: StudentId, session: SessionId, status: Status, notes: string, recordedAt: int)

  datatype RequestStatus = Pending | Approved | Rejected

  datatype AbsenceRequest = AbsenceRequest(
    student: StudentId, course: CourseId, requestDate: Date,
    fromDate: Date, toDate: Date, reason: string,
    status: RequestStatus, responseNotes: Option<string>, respondedAt: Option<int>)

  function AttendanceKey(r: Attendance): (StudentId, SessionId) { (r.student, r.session) }
  function EnrollmentKey(e: Enrollment): (StudentId, CourseId) { (e.student, e.course) }
  function SessionKey(s: CourseSession): SessionId { s.id }
  function RecordSession(r: Attendance): SessionId { r.session }

  /** The `unique_attendance` constraint: at most one row per (student, session). */
  predicate UniqueAttendance(rows: seq<Attendance>) {
    DistinctBy(rows, AttendanceKey)
  }

  /** The tables the attendance engine reads but does not write. */
  datatype Catalog = Catalog(
    students: map<StudentId, Student>,
    courses: map<CourseId, Course>,
    sessions: seq<CourseSession>,
    enrollments: seq<Enrollment>)
  {
    /** Primary keys, the `unique_enrollment` constraint, and the foreign keys
        of sessions and enrollments. */
    predicate Valid() {
      && (forall c :: c in courses ==> courses[c].id == c)
      && DistinctBy(sessions, SessionKey)
      && (forall s :: s in sessions ==> s.course in courses && ValidDate(s.date))
      && DistinctBy(enrollments, EnrollmentKey)
      && (forall e :: e in enrollments ==> e.course in courses && e.student in students)
    }
  }

  function InCourse(course: CourseId): CourseSession -> bool {
    (s: CourseSession) => s.course == course
  }

  function EnrolledIn(course: CourseId): Enrollment -> bool {
    (e: Enrollment) => e.course == course
  }

  /** `CourseSession.query.filter_by(course_id=course)`. */
  function SessionsOf(sessions: seq<CourseSession>, course: CourseId): seq<CourseSession> {
    Filter(sessions, InCourse(course))
  }

  function SessionIds(ss: seq<CourseSession>): (ids: seq<SessionId>)
    ensures |ids| == |ss| && forall i :: 0 <= i < |ss| ==> ids[i] == ss[i].id
  {
    seq(|ss|, i requires 0 <= i < |ss| => ss[i].id)
  }

  /** The students of `CourseEnrollment.query.filter_by(course_id=course)`, in
      table order. */
  function Roster(enrollments: seq<Enrollment>, course: CourseId): (roster: seq<StudentId>)
  {
    var es := Filter(enrollments, EnrolledIn(course));
    seq(|es|, i requires 0 <= i < |es| => es[i].student)
  }

  lemma RosterMembers(enrollments: seq<Enrollment>, course: CourseId)
    ensures forall s :: s in Roster(enrollments, course) <==> Enrollment(s, course) in enrollments
  {
    var es := Filter(enrollments, EnrolledIn(course));
    var roster := Roster(enrollments, course);
    FilterMembers(enrollments, EnrolledIn(course));
    assert forall i :: 0 <= i < |es| ==> es[i] in es && es[i] == Enrollment(roster[i], course);
    assert forall s :: Enrollment(s, course) in es ==> roster[IndexOf(es, Enrollment(s, course))] == s;
  }

  /** The course choices of an absence-request form: the courses `student` is
      enrolled in. */
  function EnrolledCourses(enrollments: seq<Enrollment>, student: StudentId): (cs: set<CourseId>)
    ensures forall c :: c in cs <==> Enrollment(student, c) in enrollments
  {
    set e | e in enrollments && e.student == student :: e.course
  }

  lemma SessionIdsOfCourseDistinct(cat: Catalog, course: CourseId)
    requires cat.Valid()
    ensures Distinct(SessionIds(SessionsOf(cat.sessions, course)))
  {
    FilterKeepsDistinct(cat.sessions, InCourse(course), SessionKey);
  }

  lemma RosterDistinct(cat: Catalog, course: CourseId)
    requires cat.Valid()
    ensures Distinct(Roster(cat.enrollments, course))
  {
    var es := Filter(cat.enrollments, EnrolledIn(course));
    FilterKeepsDistinct(cat.enrollments, EnrolledIn(course), EnrollmentKey);
    FilterMembers(cat.enrollments, EnrolledIn(course));
    forall i | 0 <= i < |es| ensures es[i].course == course {
      assert es[i] in es;
    }
  }

  // ---- Delete cascades (`cascade="all, delete-orphan"`) ----

  function NotInCourse(course: CourseId): CourseSession -> bool {
    (s: CourseSession) => s.course != course
  }

  function NotEnrolledIn(course: CourseId): Enrollment -> bool {
    (e: Enrollment) => e.course != course
  }

  function NotInSessions(ids: seq<SessionId>): Attendance -> bool {
    (r: Attendance) => r.session !in ids
  }

  function NotSession(id: SessionId): CourseSession -> bool {
    (s: CourseSession) => s.id != id
  }

  /** Deleting a session deletes its attendance records. */
  function DeleteSession(cat: Catalog, rows: seq<Attendance>, id: SessionId): (Catalog, seq<Attendance>) {
    (cat.(sessions := Filter(cat.sessions, NotSession(id))), Filter(rows, NotInSessions([id])))
  }

  /** Deleting a course deletes its enrollments and its sessions, and with the
      sessions their attendance records. */
  function DeleteCourse(cat: Catalog, rows: seq<Attendance>, course: CourseId): (Catalog, seq<Attendance>) {
    var gone := SessionIds(SessionsOf(cat.sessions, course));
    (Catalog(cat.students, cat.courses - {course},
             Filter(cat.sessions, NotInCourse(course)),
             Filter(cat.enrollments, NotEnrolledIn(course))),
     Filter(rows, NotInSessions(gone)))
  }

  lemma DeleteSessionCascades(cat: Catalog, rows: seq<Attendance>, id: SessionId)
    requires cat.Valid() && UniqueAttendance(rows)
    ensures var (cat', rows') := DeleteSession(cat, rows, id);
      && cat'.Valid() && UniqueAttendance(rows')
      && cat'.students == cat.students && cat'.courses == cat.courses
      && cat'.enrollments == cat.enrollments
      && (forall s :: s in cat'.sessions <==> s in cat.sessions && s.id != id)
      && (forall r :: r in rows' <==> r in rows && r.session != id)
  {
    FilterKeepsDistinct(cat.sessions, NotSession(id), SessionKey);
    FilterKeepsDistinct(rows, NotInSessions([id]), AttendanceKey);
    FilterMembers(cat.sessions, NotSession(id));
    FilterMembers(rows, NotInSessions([id]));
  }

  lemma DeleteCourseCascades(cat: Catalog, rows: seq<Attendance>, course: CourseId)
    requires cat.Valid() && UniqueAttendance(rows)
    ensures var (cat', rows') := DeleteCourse(cat, rows, course);
      && cat'.Valid() && UniqueAttendance(rows')
      && cat'.students == cat.students && cat'.courses == cat.courses - {course}
      && (forall s :: s in cat'.sessions <==> s in cat.sessions && s.course != course)
      && (forall e :: e in cat'.enrollments <==> e in cat.enrollments && e.course != course)
      && (forall r :: r in rows' <==> r in rows && forall s :: s in cat.sessions && s.id == r.session ==> s.course != course)
  {
    var gone := SessionIds(SessionsOf(cat.sessions, course));
    FilterKeepsDistinct(cat.sessions, NotInCourse(course), SessionKey);
    FilterKeepsDistinct(cat.enrollments, NotEnrolledIn(course), EnrollmentKey);
    FilterKeepsDistinct(rows, NotInSessions(gone), AttendanceKey);
    FilterMembers(cat.sessions, NotInCourse(course));
    FilterMembers(cat.enrollments, NotEnrolledIn(course));
    FilterMembers(rows, NotInSessions(gone));
    FilterMembers(cat.sessions, InCourse(course));
    forall r | r in rows
      ensures r.session in gone <==> exists s :: s in cat.sessions && s.id == r.session && s.course == course
    {
      var ss := SessionsOf(cat.sessions, course);
      if r.session in gone {
        var i :| 0 <= i < |gone| && gone[i] == r.session;
        assert ss[i] in ss;
      }
      if s :| s in cat.sessions && s.id == r.session && s.course == course {
        assert s in ss;
        assert gone[IndexOf(ss, s)] == r.session;
      }
    }
  }
}
