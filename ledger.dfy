/** The keyed upsert that both ledger writers perform: look up the row of a
    (student, session) pair; overwrite its status and notes if it exists,
    otherwise insert a new row stamped with the current time. */
module Ledger {
  import opened Seqs
  import opened Models

  /** One (student, session) write: the status and notes it stores. */
  datatype Write = Write(student: StudentId, session: SessionId, status: Status, notes: string)

  function WriteKey(w: Write): (StudentId, SessionId) { (w.student, w.session) }

  /** `Attendance.query.filter_by(student_id=…, session_id=…).first()`: the
      position of the first row of the pair, if any. */
  function FindRecord(rows: seq<Attendance>, student: StudentId, session: SessionId): (r: Option<nat>)
    ensures r.Some? ==> r.value < |rows| && AttendanceKey(rows[r.value]) == (student, session)
    ensures r.Some? ==> forall i :: 0 <= i < r.value ==> AttendanceKey(rows[i]) != (student, session)
    ensures r.None? <==> forall i :: 0 <= i < |rows| ==> AttendanceKey(rows[i]) != (student, session)
  {
    if |rows| == 0 then None
    else if AttendanceKey(rows[0]) == (student, session) then Some(0)
    else match FindRecord(rows[1..], student, session)
      case None => None
      case Some(k) => Some(k + 1)
  }

  /** Update the pair's row in place, or append a new one. The update keeps the
      row's `recordedAt`. */
  function Upsert(rows: seq<Attendance>, w: Write, now: int): seq<Attendance> {
    match FindRecord(rows, w.student, w.session)
    case Some(i) => rows[i := rows[i].(status := w.status, notes := w.notes)]
    case None => rows + [Attendance(w.student, w.session, w.status, w.notes, now)]
  }

  /** The upserts of `ws`, one after the other. */
  function ApplyWrites(rows: seq<Attendance>, ws: seq<Write>, now: int): seq<Attendance> {
    if |ws| == 0 then rows
    else Upsert(ApplyWrites(rows, ws[..|ws| - 1], now), ws[|ws| - 1], now)
  }

  /** Some row of the pair of `w` carries the status and notes of `w`. */
  ghost predicate Holds(rows: seq<Attendance>, w: Write) {
    exists j :: 0 <= j < |rows| && AttendanceKey(rows[j]) == WriteKey(w)
      && rows[j].status == w.status && rows[j].notes == w.notes
  }

  /** Some write of `ws` is for the pair `key`. */
  ghost predicate Touches(ws: seq<Write>, key: (StudentId, SessionId)) {
    exists w :: w in ws && WriteKey(w) == key
  }

  /** What one upsert does: the pair of `w` holds `w`; every existing row keeps
      its pair and its `recordedAt`, and rows of other pairs do not change; a
      row is appended only when the pair had none. */
  lemma UpsertEffect(rows: seq<Attendance>, w: Write, now: int)
    ensures var r := Upsert(rows, w, now);
      && Holds(r, w)
      && |r| == (if FindRecord(rows, w.student, w.session).Some? then |rows| else |rows| + 1)
      && (forall i :: 0 <= i < |rows| ==> AttendanceKey(r[i]) == AttendanceKey(rows[i]) && r[i].recordedAt == rows[i].recordedAt)
      && (forall i :: 0 <= i < |rows| && AttendanceKey(rows[i]) != WriteKey(w) ==> r[i] == rows[i])
      && (forall i :: |rows| <= i < |r| ==> AttendanceKey(r[i]) == WriteKey(w) && r[i].recordedAt == now)
  {
    var r := Upsert(rows, w, now);
    match FindRecord(rows, w.student, w.session)
    case Some(i) =>
      assert AttendanceKey(r[i]) == WriteKey(w);
    case None =>
      assert AttendanceKey(r[|rows|]) == WriteKey(w);
  }

  /** An upsert never creates a second row for a pair. */
  lemma UpsertKeepsUnique(rows: seq<Attendance>, w: Write, now: int)
    requires UniqueAttendance(rows)
    ensures UniqueAttendance(Upsert(rows, w, now))
  {
  }

  /** Under uniqueness, an upsert whose values are already stored changes nothing. */
  lemma UpsertAlreadyHolds(rows: seq<Attendance>, w: Write, now: int)
    requires UniqueAttendance(rows) && Holds(rows, w)
    ensures Upsert(rows, w, now) == rows
  {
  }

  lemma {:induction false} ApplyWritesKeepsUnique(rows: seq<Attendance>, ws: seq<Write>, now: int)
    requires UniqueAttendance(rows)
    ensures UniqueAttendance(ApplyWrites(rows, ws, now))
  {
    if |ws| > 0 {
      ApplyWritesKeepsUnique(rows, ws[..|ws| - 1], now);
      UpsertKeepsUnique(ApplyWrites(rows, ws[..|ws| - 1], now), ws[|ws| - 1], now);
    }
  }

  /** What a batch of writes leaves untouched: every existing row keeps its
      pair and `recordedAt`; rows of pairs no write touches are unchanged;
      appended rows belong to touched pairs. */
  lemma {:induction false} ApplyWritesFrame(rows: seq<Attendance>, ws: seq<Write>, now: int)
    ensures var r := ApplyWrites(rows, ws, now);
      && |rows| <= |r|
      && (forall i :: 0 <= i < |rows| ==> AttendanceKey(r[i]) == AttendanceKey(rows[i]) && r[i].recordedAt == rows[i].recordedAt)
      && (forall i :: 0 <= i < |rows| && !Touches(ws, AttendanceKey(rows[i])) ==> r[i] == rows[i])
      && (forall i :: |rows| <= i < |r| ==> Touches(ws, AttendanceKey(r[i])) && r[i].recordedAt == now)
  {
    if |ws| > 0 {
      var ws' := ws[..|ws| - 1];
      var w := ws[|ws| - 1];
      var mid := ApplyWrites(rows, ws', now);
      ApplyWritesFrame(rows, ws', now);
      UpsertEffect(mid, w, now);
      assert w in ws;
      forall k | Touches(ws', k) ensures Touches(ws, k) {
        var v :| v in ws' && WriteKey(v) == k;
        assert v in ws;
      }
      forall i | 0 <= i < |rows| && !Touches(ws, AttendanceKey(rows[i]))
        ensures ApplyWrites(rows, ws, now)[i] == rows[i]
      {
        assert !Touches(ws', AttendanceKey(rows[i]));
        assert AttendanceKey(mid[i]) != WriteKey(w);
      }
    }
  }

  /** After a batch of writes for distinct pairs, each pair holds its write. */
  lemma {:induction false} ApplyWritesStores(rows: seq<Attendance>, ws: seq<Write>, now: int)
    requires DistinctBy(ws, WriteKey)
    ensures forall w :: w in ws ==> Holds(ApplyWrites(rows, ws, now), w)
  {
    if |ws| > 0 {
      var ws' := ws[..|ws| - 1];
      var last := ws[|ws| - 1];
      var mid := ApplyWrites(rows, ws', now);
      ApplyWritesStores(rows, ws', now);
      UpsertEffect(mid, last, now);
      var r := Upsert(mid, last, now);
      forall w | w in ws ensures Holds(r, w) {
        if w != last {
          var k :| 0 <= k < |ws| && ws[k] == w;
          assert k < |ws| - 1;
          assert w in ws';
          var j :| 0 <= j < |mid| && AttendanceKey(mid[j]) == WriteKey(w)
            && mid[j].status == w.status && mid[j].notes == w.notes;
          assert WriteKey(w) != WriteKey(last);
          assert r[j] == mid[j];
        }
      }
    }
  }

  /** Under uniqueness, writes whose values are all stored already change nothing. */
  lemma {:induction false} ApplyWritesAlreadyHold(rows: seq<Attendance>, ws: seq<Write>, now: int)
    requires UniqueAttendance(rows)
    requires forall w :: w in ws ==> Holds(rows, w)
    ensures ApplyWrites(rows, ws, now) == rows
  {
    if |ws| > 0 {
      var ws' := ws[..|ws| - 1];
      assert forall w :: w in ws' ==> w in ws;
      ApplyWritesAlreadyHold(rows, ws', now);
      assert ws[|ws| - 1] in ws;
      UpsertAlreadyHolds(rows, ws[|ws| - 1], now);
    }
  }

  /** Replaying a batch of writes for distinct pairs, at any later time, leaves
      the ledger as the first run left it. */
  lemma ApplyWritesIdempotent(rows: seq<Attendance>, ws: seq<Write>, now: int, later: int)
    requires UniqueAttendance(rows) && DistinctBy(ws, WriteKey)
    ensures ApplyWrites(ApplyWrites(rows, ws, now), ws, later) == ApplyWrites(rows, ws, now)
  {
    ApplyWritesKeepsUnique(rows, ws, now);
    ApplyWritesStores(rows, ws, now);
    ApplyWritesAlreadyHold(ApplyWrites(rows, ws, now), ws, later);
  }
}
