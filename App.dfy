/**
 * The request logic of the attendance app over an in-memory database:
 * creating a session, the attendance decision with its outcomes, and the
 * class that holds the two tables and changes them.
 */
module App {
  import opened Options
  import opened Text
  import opened Models
  import opened Tables

  /** What reaches `/attend/<code>`: a GET for the form, or a POST whose
      `student_id` field is given (a missing field arrives as ""). */
  datatype Request = ShowForm | Submit(studentIdField: string)

  /** The answers of the attendance route: 404, 410, the form page, the
      redirect with "Please enter your student ID.", and the two plain-text
      answers. */
  datatype AttendOutcome =
    | NotFound
    | Expired
    | Form(session: Session)
    | ValidationError
    | AlreadyRecorded
    | Recorded(row: Attendance)

  /** The answer of the creation route: the new session, or the failed
      commit when the unique constraint on the code rejects the row. */
  datatype CreateOutcome = Created(session: Session) | CodeTaken

  /** The checks the attendance route makes on the session it found, in
      the route's order: expiry first, whatever the request; then, for a
      submission, an id that is empty after stripping; then a duplicate
      (session, stripped id) pair; otherwise the new row. */
  function Judge(s: Session, records: seq<Attendance>, request: Request, now: int): (r: AttendOutcome)
    ensures !r.NotFound?
    ensures r.Expired? <==> IsExpired(s, now)
    ensures r.Form? <==> !IsExpired(s, now) && request.ShowForm?
    ensures r.Form? ==> r.session == s
    ensures r.ValidationError? <==> !IsExpired(s, now) && request.Submit? && AllSpace(request.studentIdField)
    ensures r.AlreadyRecorded? <==>
              !IsExpired(s, now) && request.Submit? && !AllSpace(request.studentIdField) &&
              HasRecord(records, s.id, Strip(request.studentIdField))
    ensures r.Recorded? ==> r.row == Attendance(|records| + 1, s.id, Strip(request.studentIdField), now)
  {
    if IsExpired(s, now) then Expired
    else
      match request
      case ShowForm => Form(s)
      case Submit(field) =>
        var studentId := Strip(field);
        if studentId == [] then ValidationError
        else if HasRecord(records, s.id, studentId) then AlreadyRecorded
        else Recorded(Attendance(|records| + 1, s.id, studentId, now))
  }

  /** The attendance route's decision: an unknown code is answered
      `NotFound` before anything else is looked at; otherwise the checks on
      the session the code names decide. */
  function Decide(sessions: seq<Session>, records: seq<Attendance>, code: string, request: Request, now: int): (r: AttendOutcome)
    ensures r.NotFound? <==> !CodeInUse(sessions, code)
    ensures CodeInUse(sessions, code) ==> r == Judge(FindByCode(sessions, code).value, records, request, now)
  {
    match FindByCode(sessions, code)
    case None => NotFound
    case Some(s) => Judge(s, records, request, now)
  }

  /** The attendance table after the route answered `r`: one row more on
      `Recorded`, the same table otherwise. */
  function AfterAttend(records: seq<Attendance>, r: AttendOutcome): (t: seq<Attendance>)
    ensures r.Recorded? ==> |t| == |records| + 1 && t[..|records|] == records && t[|records|] == r.row
    ensures !r.Recorded? ==> t == records
  {
    if r.Recorded? then records + [r.row] else records
  }

  // ---------- what the decision promises ----------

  /** Once `now` is past a session's expiry, every request for it is
      answered with `Expired`, before the student id is looked at, and the
      table stays as it is. */
  lemma ExpiredRefusesAll(sessions: seq<Session>, records: seq<Attendance>, i: nat, request: Request, now: int)
    requires UniqueCodes(sessions)
    requires i < |sessions| && IsExpired(sessions[i], now)
    ensures Decide(sessions, records, sessions[i].code, request, now) == Expired
    ensures AfterAttend(records, Decide(sessions, records, sessions[i].code, request, now)) == records
  {
    FindByCodeUnique(sessions, i);
  }

  /** A submission for a session that has not expired (the expiry instant
      itself included): rejected exactly when the id is all whitespace,
      already recorded exactly when its stripped id has a row for this
      session, recorded as a new row with that stripped id otherwise. */
  lemma SubmitToOpenSession(sessions: seq<Session>, records: seq<Attendance>, i: nat, raw: string, now: int)
    requires UniqueCodes(sessions)
    requires i < |sessions| && now <= sessions[i].expiresAt
    ensures var r := Decide(sessions, records, sessions[i].code, Submit(raw), now);
      && (r == ValidationError <==> AllSpace(raw))
      && (r == AlreadyRecorded <==> !AllSpace(raw) && HasRecord(records, sessions[i].id, Strip(raw)))
      && (r == Recorded(Attendance(|records| + 1, sessions[i].id, Strip(raw), now)) <==>
            !AllSpace(raw) && !HasRecord(records, sessions[i].id, Strip(raw)))
  {
    FindByCodeUnique(sessions, i);
  }

  /** A row with a fresh id, an existing session, a stripped non-empty
      student id and a pair not yet present can be appended. */
  lemma AppendRowKeepsConsistent(sessions: seq<Session>, records: seq<Attendance>, row: Attendance)
    requires Consistent(sessions, records)
    requires RowWellFormed(row, |records| + 1, |sessions|)
    requires !HasRecord(records, row.sessionId, row.studentId)
    ensures Consistent(sessions, records + [row])
  {
    AppendWellFormed(records, row, |sessions|);
    AppendUnique(records, row);
  }

  lemma AppendWellFormed(records: seq<Attendance>, row: Attendance, sessionCount: nat)
    requires RowsWellFormed(records, sessionCount)
    requires RowWellFormed(row, |records| + 1, sessionCount)
    ensures RowsWellFormed(records + [row], sessionCount)
  {
    var t := records + [row];
    forall k | 0 <= k < |t| ensures RowWellFormed(t[k], k + 1, sessionCount) {
      if k < |records| {
        assert t[k] == records[k];
      }
    }
  }

  lemma AppendUnique(records: seq<Attendance>, row: Attendance)
    requires UniquePairs(records)
    requires !HasRecord(records, row.sessionId, row.studentId)
    ensures UniquePairs(records + [row])
  {
    var t := records + [row];
    forall k, l | 0 <= k < l < |t|
      ensures t[k].sessionId != t[l].sessionId || t[k].studentId != t[l].studentId
    {
      assert t[k] == records[k];
      if l < |records| {
        assert t[l] == records[l];
      }
    }
  }

  /** Every answer keeps the tables consistent; in particular a recorded
      row never duplicates a (session, student) pair. */
  lemma AttendKeepsConsistent(sessions: seq<Session>, records: seq<Attendance>, code: string, request: Request, now: int)
    requires Consistent(sessions, records)
    ensures Consistent(sessions, AfterAttend(records, Decide(sessions, records, code, request, now)))
  {
    var r := Decide(sessions, records, code, request, now);
    if r.Recorded? {
      var s := FindByCode(sessions, code).value;
      var i :| 0 <= i < |sessions| && sessions[i] == s;
      AppendRowKeepsConsistent(sessions, records, r.row);
    }
  }

  /** After a submission that was recorded or already recorded, the pair
      (session, stripped id) has exactly one row. */
  lemma SubmittedPairHasOneRow(sessions: seq<Session>, records: seq<Attendance>, code: string, raw: string, now: int)
    requires Consistent(sessions, records)
    requires Decide(sessions, records, code, Submit(raw), now).Recorded? ||
             Decide(sessions, records, code, Submit(raw), now) == AlreadyRecorded
    ensures PairCount(AfterAttend(records, Decide(sessions, records, code, Submit(raw), now)),
                      FindByCode(sessions, code).value.id, Strip(raw)) == 1
  {
    var r := Decide(sessions, records, code, Submit(raw), now);
    var t := AfterAttend(records, r);
    AttendKeepsConsistent(sessions, records, code, Submit(raw), now);
    var sid := FindByCode(sessions, code).value.id;
    if r.Recorded? {
      assert t[|records|] == r.row;
      assert HasRecord(t, sid, Strip(raw));
    }
    PairCountUnique(t, sid, Strip(raw));
  }

  /** Submitting again, with any id that strips to the same value, before
      the session expires, is answered `AlreadyRecorded` and inserts
      nothing. */
  lemma ResubmitIsIdempotent(sessions: seq<Session>, records: seq<Attendance>, code: string, raw: string, now: int,
                             raw2: string, now2: int)
    requires Decide(sessions, records, code, Submit(raw), now).Recorded?
    requires Strip(raw2) == Strip(raw)
    requires now2 <= FindByCode(sessions, code).value.expiresAt
    ensures var t := AfterAttend(records, Decide(sessions, records, code, Submit(raw), now));
      Decide(sessions, t, code, Submit(raw2), now2) == AlreadyRecorded
  {
    var s := FindByCode(sessions, code).value;
    var r := Judge(s, records, Submit(raw), now);
    var id := Strip(raw);
    assert r.row == Attendance(|records| + 1, s.id, id, now);
    assert !AllSpace(raw2) by {
      assert id != [];
    }
    var t := records + [r.row];
    assert t[|records|] == r.row;
    assert HasRecord(t, s.id, Strip(raw2));
    assert Judge(s, t, Submit(raw2), now2) == AlreadyRecorded;
  }

  // ---------- creating a session ----------

  /** Adding a session with an unused code keeps the tables consistent; the
      new code finds the new row, and every earlier code still finds its
      own row. */
  lemma CreateKeepsConsistent(sessions: seq<Session>, records: seq<Attendance>, courseName: string,
                              durationMinutes: int, now: int, code: string)
    requires Consistent(sessions, records)
    requires !CodeInUse(sessions, code)
    ensures var s := NewSession(|sessions| + 1, code, courseName, durationMinutes, now);
      && Consistent(sessions + [s], records)
      && FindByCode(sessions + [s], code) == Some(s)
      && forall i :: 0 <= i < |sessions| ==> FindByCode(sessions + [s], sessions[i].code) == Some(sessions[i])
  {
    var s := NewSession(|sessions| + 1, code, courseName, durationMinutes, now);
    var t := sessions + [s];
    assert forall i :: 0 <= i < |sessions| ==> t[i] == sessions[i];
    assert UniqueCodes(t) by {
      forall i, j | 0 <= i < j < |t| ensures t[i].code != t[j].code {
        if j == |sessions| {
          assert t[i] == sessions[i];
        }
      }
    }
    FindByCodeUnique(t, |sessions|);
    forall i | 0 <= i < |sessions| ensures FindByCode(t, sessions[i].code) == Some(sessions[i]) {
      FindByCodeUnique(t, i);
    }
  }

  // ---------- a worked scenario ----------

  /** A one-minute session: a student whose id needs no stripping is
      recorded at once; any other submission 61 seconds later is refused as
      expired; the roster then lists exactly the first student's row. */
  lemma OneMinuteSessionScenario(code: string, course: string, first: string, second: string, t0: int)
    requires first != [] && EdgeFree(first)
    ensures var s := NewSession(1, code, course, 1, t0);
      var row := Attendance(1, 1, first, t0);
      && Decide([s], [], code, Submit(first), t0) == Recorded(row)
      && Decide([s], [row], code, Submit(second), t0 + 61_000_000) == Expired
      && Roster([s], [row], code) == Some(RosterView(s, [row]))
  {
    var s := NewSession(1, code, course, 1, t0);
    var row := Attendance(1, 1, first, t0);
    assert Decide([s], [], code, Submit(first), t0) == Recorded(row) by {
      StripEdgeFree(first);
      assert !IsSpace(first[0]);
      SubmitToOpenSession([s], [], 0, first, t0);
    }
    assert Decide([s], [row], code, Submit(second), t0 + 61_000_000) == Expired by {
      ExpiredRefusesAll([s], [row], 0, Submit(second), t0 + 61_000_000);
    }
    RosterOfOnlyRow(s, row);
  }

  // ---------- the database ----------

  /** The two tables, changed in place by the two routes that write. */
  class Database {
    var sessions: seq<Session>
    var records: seq<Attendance>

    ghost predicate Valid()
      reads this
    {
      Consistent(sessions, records)
    }

    /** `db.create_all()` on a new database file: both tables empty. */
    constructor ()
      ensures Valid()
      ensures sessions == [] && records == []
    {
      sessions := [];
      records := [];
    }

    /** `create_session` on POST: builds the row from `now` and the
        duration and commits it; the commit fails, and nothing is added,
        when the code is already taken. */
    method CreateSession(courseName: string, durationMinutes: int, now: int, code: string) returns (r: CreateOutcome)
      requires Valid()
      modifies this
      ensures Valid()
      ensures r.CodeTaken? <==> CodeInUse(old(sessions), code)
      ensures r.Created? ==> r.session == NewSession(|old(sessions)| + 1, code, courseName, durationMinutes, now)
      ensures sessions == if r.Created? then old(sessions) + [r.session] else old(sessions)
      ensures records == old(records)
      ensures r.Created? ==> FindByCode(sessions, code) == Some(r.session)
    {
      if CodeInUse(sessions, code) {
        return CodeTaken;
      }
      var s := NewSession(|sessions| + 1, code, courseName, durationMinutes, now);
      CreateKeepsConsistent(sessions, records, courseName, durationMinutes, now, code);
      sessions := sessions + [s];
      return Created(s);
    }

    /** `attend`: the route's checks decide the answer (`Decide`); only a
        `Recorded` answer adds its row, stamped `now`, and commits it. The
        session table never changes. */
    method Attend(code: string, request: Request, now: int) returns (r: AttendOutcome)
      requires Valid()
      modifies this
      ensures Valid()
      ensures r == Decide(old(sessions), old(records), code, request, now)
      ensures sessions == old(sessions)
      ensures records == AfterAttend(old(records), r)
    {
      r := Decide(sessions, records, code, request, now);
      if r.Recorded? {
        AttendKeepsConsistent(sessions, records, code, request, now);
        records := records + [r.row];
      }
    }
  }
}
