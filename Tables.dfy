/**
 * The read-only queries the routes run against the two tables, and the
 * consistency the tables keep: unique session codes, the integer primary
 * keys, the foreign key from attendance to session, and at most one
 * attendance row per (session, student) pair.
 */
module Tables {
  import opened Options
  import opened Models
  import opened Text

  // ---------- sessions ----------

  /** Some session row carries `code`. */
  predicate CodeInUse(sessions: seq<Session>, code: string) {
    exists i :: 0 <= i < |sessions| && sessions[i].code == code
  }

  /** `Session.query.filter_by(code=code).first()`: the first row with that
      code, or nothing (which the routes turn into a 404). */
  function FindByCode(sessions: seq<Session>, code: string): (r: Option<Session>)
    ensures r.None? <==> !CodeInUse(sessions, code)
    ensures r.Some? ==> r.value in sessions && r.value.code == code
  {
    if sessions == [] then None
    else if sessions[0].code == code then Some(sessions[0])
    else
      var r := FindByCode(sessions[1..], code);
      assert forall i :: 1 <= i < |sessions| ==> sessions[i] == sessions[1..][i - 1];
      r
  }

  /** The `unique=True` constraint on `Session.code`. */
  ghost predicate UniqueCodes(sessions: seq<Session>) {
    forall i, j :: 0 <= i < j < |sessions| ==> sessions[i].code != sessions[j].code
  }

  /** With unique codes, looking up a row's code finds exactly that row. */
  lemma {:induction false} FindByCodeUnique(sessions: seq<Session>, k: nat)
    requires UniqueCodes(sessions)
    requires k < |sessions|
    ensures FindByCode(sessions, sessions[k].code) == Some(sessions[k])
  {
    if k > 0 {
      assert sessions[0].code != sessions[k].code;
      assert sessions[k] == sessions[1..][k - 1];
      FindByCodeUnique(sessions[1..], k - 1);
    }
  }

  /** The path of the attendance form that the QR image of a session points
      at (`url_for("attend", code=...)`, without scheme and host). */
  function AttendPath(code: string): string {
    "/attend/" + code
  }

  /** What the QR route encodes for `code`: the attendance path of the
      session found, or nothing when no session has that code. */
  function QrTarget(sessions: seq<Session>, code: string): (r: Option<string>)
    ensures r.None? <==> !CodeInUse(sessions, code)
    ensures r.Some? ==> r.value == AttendPath(code)
  {
    match FindByCode(sessions, code)
    case None => None
    case Some(s) => Some(AttendPath(s.code))
  }

  // ---------- attendance ----------

  /** `Attendance.query.filter_by(session_id=..., student_id=...).first()`
      finds a row: some row of the table carries that pair. */
  predicate HasRecord(records: seq<Attendance>, sessionId: nat, studentId: string)
    ensures HasRecord(records, sessionId, studentId) <==>
            exists x :: x in records && x.sessionId == sessionId && x.studentId == studentId
  {
    exists k :: 0 <= k < |records| && records[k].sessionId == sessionId && records[k].studentId == studentId
  }

  /** The number of rows for the pair (`sessionId`, `studentId`). */
  function PairCount(records: seq<Attendance>, sessionId: nat, studentId: string): nat {
    if records == [] then 0
    else
      var last := records[|records| - 1];
      PairCount(records[..|records| - 1], sessionId, studentId) +
        (if last.sessionId == sessionId && last.studentId == studentId then 1 else 0)
  }

  /** The `uq_session_student` constraint. */
  ghost predicate UniquePairs(records: seq<Attendance>) {
    forall k, l :: 0 <= k < l < |records| ==>
      records[k].sessionId != records[l].sessionId || records[k].studentId != records[l].studentId
  }

  /** Under the constraint a pair has at most one row, and it has one
      exactly when the duplicate query finds it. */
  lemma {:induction false} PairCountUnique(records: seq<Attendance>, sessionId: nat, studentId: string)
    requires UniquePairs(records)
    ensures PairCount(records, sessionId, studentId) <= 1
    ensures PairCount(records, sessionId, studentId) == 1 <==> HasRecord(records, sessionId, studentId)
  {
    if records != [] {
      var n := |records| - 1;
      var init := records[..n];
      assert UniquePairs(init) by {
        forall k, l | 0 <= k < l < |init|
          ensures init[k].sessionId != init[l].sessionId || init[k].studentId != init[l].studentId
        {
          assert init[k] == records[k] && init[l] == records[l];
        }
      }
      PairCountUnique(init, sessionId, studentId);
      var last := records[n];
      if last.sessionId == sessionId && last.studentId == studentId {
      } else {
        if HasRecord(records, sessionId, studentId) {
          var k :| 0 <= k < |records| && records[k].sessionId == sessionId && records[k].studentId == studentId;
          assert k < n && records[k] == init[k];
        }
      }
      assert HasRecord(init, sessionId, studentId) ==> HasRecord(records, sessionId, studentId) by {
        if HasRecord(init, sessionId, studentId) {
          var k :| 0 <= k < |init| && init[k].sessionId == sessionId && init[k].studentId == studentId;
          assert records[k] == init[k];
        }
      }
    }
  }

  /** `Attendance.query.filter_by(session_id=sessionId)`, in table order. */
  function RowsOf(records: seq<Attendance>, sessionId: nat): (r: seq<Attendance>)
    ensures |r| <= |records|
    ensures forall x :: x in r <==> x in records && x.sessionId == sessionId
    ensures forall x :: multiset(r)[x] == if x.sessionId == sessionId then multiset(records)[x] else 0
  {
    if records == [] then []
    else
      var init := records[..|records| - 1];
      var last := records[|records| - 1];
      assert records == init + [last];
      RowsOf(init, sessionId) + (if last.sessionId == sessionId then [last] else [])
  }

  /** Appending a row to the table changes the rows of its own session by
      that row at the end and leaves every other session's rows alone. */
  lemma RowsOfAppend(records: seq<Attendance>, row: Attendance, sessionId: nat)
    ensures RowsOf(records + [row], sessionId) ==
            RowsOf(records, sessionId) + (if row.sessionId == sessionId then [row] else [])
  {
    assert (records + [row])[..|records|] == records;
  }

  // ---------- ordering by marked_at ----------

  /** Rows in non-decreasing `markedAt` order. */
  predicate SortedByTime(rows: seq<Attendance>) {
    forall i, j :: 0 <= i < j < |rows| ==> rows[i].markedAt <= rows[j].markedAt
  }

  lemma SortedCons(h: Attendance, t: seq<Attendance>)
    requires SortedByTime(t)
    requires t != [] ==> h.markedAt <= t[0].markedAt
    ensures SortedByTime([h] + t)
  {
    forall i, j | 0 <= i < j < |[h] + t| ensures ([h] + t)[i].markedAt <= ([h] + t)[j].markedAt {
      if i == 0 && j > 1 {
        assert t[0].markedAt <= t[j - 1].markedAt;
      }
    }
  }

  /** The rows after the first of an ordered sequence are ordered. */
  lemma SortedTail(rows: seq<Attendance>)
    requires rows != [] && SortedByTime(rows)
    ensures SortedByTime(rows[1..])
  {
    forall i, j | 0 <= i < j < |rows[1..]| ensures rows[1..][i].markedAt <= rows[1..][j].markedAt {
      assert rows[1..][i] == rows[i + 1] && rows[1..][j] == rows[j + 1];
    }
  }

  /** The step of `InsertByTime` that keeps the earlier first row in front. */
  lemma InsertBehindFirst(x: Attendance, rows: seq<Attendance>, tail: seq<Attendance>)
    requires rows != [] && SortedByTime(rows) && rows[0].markedAt < x.markedAt
    requires SortedByTime(tail)
    requires multiset(tail) == multiset(rows[1..]) + multiset{x}
    requires tail != [] && (tail[0] == x || (|rows| > 1 && tail[0] == rows[1]))
    ensures SortedByTime([rows[0]] + tail)
    ensures multiset([rows[0]] + tail) == multiset(rows) + multiset{x}
  {
    assert rows == [rows[0]] + rows[1..];
    assert multiset(rows) == multiset{rows[0]} + multiset(rows[1..]);
    if tail[0] != x {
      assert rows[0].markedAt <= rows[1].markedAt;
    }
    SortedCons(rows[0], tail);
  }

  /** Puts `x` into an ordered sequence, in front of the rows that are
      not earlier than it. */
  function InsertByTime(x: Attendance, rows: seq<Attendance>): (r: seq<Attendance>)
    requires SortedByTime(rows)
    ensures SortedByTime(r)
    ensures multiset(r) == multiset(rows) + multiset{x}
    ensures |r| == |rows| + 1 && (r[0] == x || (rows != [] && r[0] == rows[0]))
  {
    if rows == [] || x.markedAt <= rows[0].markedAt then
      SortedCons(x, rows);
      [x] + rows
    else
      SortedTail(rows);
      var tail := InsertByTime(x, rows[1..]);
      InsertBehindFirst(x, rows, tail);
      [rows[0]] + tail
  }

  /** `.order_by(Attendance.marked_at)`: the rows in non-decreasing time
      order, and no row gained or lost. The order of rows with equal
      timestamps is not part of the contract. */
  function SortByTime(rows: seq<Attendance>): (r: seq<Attendance>)
    ensures SortedByTime(r)
    ensures multiset(r) == multiset(rows)
  {
    if rows == [] then []
    else
      assert rows == [rows[0]] + rows[1..];
      InsertByTime(rows[0], SortByTime(rows[1..]))
  }

  /** The attendance list page of a session. */
  datatype RosterView = RosterView(session: Session, rows: seq<Attendance>)

  /** `view_attendance`: the session with that code and its rows ordered by
      `markedAt`; nothing when the code is unknown. */
  function Roster(sessions: seq<Session>, records: seq<Attendance>, code: string): (r: Option<RosterView>)
    ensures r.None? <==> !CodeInUse(sessions, code)
    ensures r.Some? ==> FindByCode(sessions, code) == Some(r.value.session)
    ensures r.Some? ==> SortedByTime(r.value.rows)
    ensures r.Some? ==> multiset(r.value.rows) == multiset(RowsOf(records, r.value.session.id))
    ensures r.Some? ==> forall x :: x in r.value.rows <==> x in records && x.sessionId == r.value.session.id
  {
    match FindByCode(sessions, code)
    case None => None
    case Some(s) =>
      var own := RowsOf(records, s.id);
      var rows := SortByTime(own);
      assert forall x :: x in rows <==> x in multiset(own);
      Some(RosterView(s, rows))
  }

  /** A table with one session and one row of it: the roster is that row. */
  lemma RosterOfOnlyRow(s: Session, row: Attendance)
    requires row.sessionId == s.id
    ensures Roster([s], [row], s.code) == Some(RosterView(s, [row]))
  {
    assert [s][0].code == s.code;
    assert FindByCode([s], s.code) == Some(s);
    assert [row][..0] == [];
    assert RowsOf([row], s.id) == [row];
    assert SortByTime([row]) == [row];
  }

  // ---------- the invariant of the tables ----------

  /** What the two tables always satisfy: session ids and attendance ids
      are the row positions counted from 1 (SQLite's rowid on a table that
      is never deleted from), codes are unique, every attendance row refers
      to an existing session, stores a stripped non-empty student id, and no
      (session, student) pair occurs twice. */
  ghost predicate Consistent(sessions: seq<Session>, records: seq<Attendance>) {
    && SessionKeys(sessions)
    && UniqueCodes(sessions)
    && RowsWellFormed(records, |sessions|)
    && UniquePairs(records)
  }

  /** Session ids are the row positions counted from 1. */
  ghost predicate SessionKeys(sessions: seq<Session>) {
    forall i :: 0 <= i < |sessions| ==> sessions[i].id == i + 1
  }

  /** One attendance row as the attendance route writes it: its id, a
      session among the first `sessionCount`, and a non-empty student id
      without whitespace on its edges (what `Strip` leaves, see
      `Text.StripOfPadded`). */
  ghost predicate RowWellFormed(row: Attendance, id: nat, sessionCount: nat) {
    && row.id == id
    && 1 <= row.sessionId <= sessionCount
    && row.studentId != []
    && EdgeFree(row.studentId)
  }

  ghost predicate RowsWellFormed(records: seq<Attendance>, sessionCount: nat) {
    forall k :: 0 <= k < |records| ==> RowWellFormed(records[k], k + 1, sessionCount)
  }
}
