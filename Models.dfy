/**
 * The two tables of the attendance app, one row type each, and the clock.
 *
 * Timestamps are integers counting microseconds of UTC time (the
 * resolution of Python's `datetime`); the clock itself is not modelled:
 * every operation receives the current instant as a parameter.
 */
module Models {

  /** `timedelta(minutes=1)` in microseconds. */
  const MicrosPerMinute: int := 60_000_000

  /** A row of the `session` table. `id` is the integer primary key,
      `code` the unique token that every URL of the session carries. */
  datatype Session = Session(
    id: nat,
    code: string,
    courseName: string,
    createdAt: int,
    expiresAt: int)

  /** A row of the `attendance` table; `sessionId` refers to `Session.id`. */
  datatype Attendance = Attendance(
    id: nat,
    sessionId: nat,
    studentId: string,
    markedAt: int)

  /** The expiry test of the attendance route: strictly after `expiresAt`,
      so the expiry instant itself is still open. */
  predicate IsExpired(s: Session, now: int)
    ensures now == s.expiresAt ==> !IsExpired(s, now)
    ensures now == s.expiresAt + 1 ==> IsExpired(s, now)
  {
    now > s.expiresAt
  }

  /** Once a session is expired it stays expired. */
  lemma ExpiryIsPermanent(s: Session, now: int, later: int)
    requires IsExpired(s, now) && now <= later
    ensures IsExpired(s, later)
  {
  }

  /** The session row that the creation route builds: both timestamps
      come from the one reading `now` of the clock, and the row lives for
      `durationMinutes` minutes, which may be zero or negative. */
  function NewSession(id: nat, code: string, courseName: string, durationMinutes: int, now: int): (s: Session)
    ensures s.id == id && s.code == code && s.courseName == courseName
    ensures s.createdAt == now
    ensures s.expiresAt - s.createdAt == durationMinutes * MicrosPerMinute
    ensures durationMinutes > 0 ==> !IsExpired(s, now)
    ensures durationMinutes <= 0 ==> forall t :: t > now ==> IsExpired(s, t)
    ensures durationMinutes < 0 ==> IsExpired(s, now)
  {
    Session(id, code, courseName, now, now + durationMinutes * MicrosPerMinute)
  }
}
