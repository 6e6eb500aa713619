# Classroom attendance tracker — a Dafny model of its bookkeeping

The application lets a teacher open a time-bounded attendance *session*
for a course. Students reach `/attend/<code>` (through a QR image) and
submit a student id. The teacher reads the roster of a session. All state
lives in two tables, `session` and `attendance`. There is at most one
attendance row per (session, student) pair.

This project models that bookkeeping in Dafny and proves its properties:

- `Text.dfy` (module `Text`) models Python's `str.strip()`, with the exact
  set of characters that `str.isspace()` accepts.
- `Models.dfy` (module `Models`) holds the two row types and the session
  row built at creation. Time is an integer count of microseconds, the
  resolution of Python's `datetime`.
- `Tables.dfy` (module `Tables`) holds the read-only queries. These are
  the code lookup that every route shares, the QR target, the duplicate
  test, the per-session filter and the ordering by `marked_at`. It also
  defines `Consistent`, the invariant of the two tables: unique codes,
  row ids, the foreign key, stored student ids stripped and non-empty, and
  the `uq_session_student` uniqueness.
- `App.dfy` (module `App`) holds the attendance decision: `Decide` looks
  the code up, and `Judge` takes the route's checks in order on the session
  found. It also holds the class `Database`, whose
  two sequence fields are the tables. Its methods `CreateSession` and
  `Attend` change those fields as the routes' commits do, and are proved
  against `NewSession`, `Decide` and `AfterAttend`.
- `Options.dfy` holds the optional-value datatype.

The clock and the code generator are inputs: every operation receives
`now`, and `CreateSession` receives the code. A code that is already taken
is not excluded by a precondition. The model follows the unique constraint
on `Session.code` instead: the commit fails and nothing is added
(`CodeTaken`).

The application's repository also has a variant with a rotating code, a
separate permanent code, a student name and a JSON roster; this model
covers `app.py` only. One session code names the session for every route
here.

A zero-minute session has `expiresAt == createdAt`. The expiry test is
strict (`now > expires_at`), so at that same instant the session is still
open, and it counts as expired at every later instant. In the source, the
attendance route reads the clock again after the session was created, so
in practice such a session is expired at once. A negative duration is
expired even at the creation instant.

## Model

| member | source | states |
|---|---|---|
| Text.IsSpace | app.py:114 | the characters `str.isspace()` accepts, which `strip()` removes: space, tab, newline and carriage return are whitespace; ASCII letters, digits, `-` and `_` never are; no whitespace lies above U+3000 |
| Text.Strip | app.py:114 | the stripped id is no longer than the input, has no whitespace at its edges, and is empty exactly when the input is all whitespace |
| Text.StripIsInfix | app.py:114 | the stripped id is a contiguous part of the input with only whitespace cut away in front of it and behind it |
| Text.StripOfPadded | app.py:114 | stripping any whitespace-padded, edge-free string gives back that string, which characterises `strip()` independently of its definition |
| Text.StripEdgeFree | app.py:114 | an id without whitespace at its edges is left unchanged by stripping |
| Text.StripIdempotent | app.py:114 | stripping an already stripped id changes nothing |
| Models.IsExpired | app.py:110 | the expiry test is strict: a session is still open at its expiry instant and expired one microsecond later |
| Models.ExpiryIsPermanent | app.py:110 | once a session is expired it is expired at every later instant |
| Models.NewSession | app.py:57-66 | the new row carries the given id, code and course name; `createdAt` is `now`; `expiresAt - createdAt` is the duration in minutes; a positive duration is open at `now`, a zero or negative duration is expired at every later instant, and a negative one already at `now` |
| Tables.FindByCode | app.py:80 | the lookup finds nothing exactly when no row carries the code; what it finds is a row of the table with that code |
| Tables.FindByCodeUnique | app.py:25 | under unique codes, looking up any row's code returns exactly that row |
| Tables.QrTarget | app.py:89-90 | the QR route has a target exactly when the code is in use, and the target is the attendance path of that same code |
| Tables.HasRecord | app.py:121-124 | the duplicate query finds something exactly when some row of the table carries that (session, student) pair |
| Tables.PairCountUnique | app.py:37-39 | under the uniqueness constraint a (session, student) pair has at most one row, and has one exactly when the duplicate query finds it |
| Tables.RowsOf | app.py:144 | the rows of a session are exactly the table's rows with that session id, each as often as in the table and none of any other session; table order is stated by `RowsOfAppend` |
| Tables.RowsOfAppend | app.py:129-133 | appending a row extends its own session's rows by that row at the end and leaves every other session's rows unchanged |
| Tables.InsertByTime | app.py:144 | inserting a row into a time-ordered sequence keeps it ordered, adds exactly that row, and puts at the front either the new row or the old first row |
| Tables.SortByTime | app.py:144 | the ordered rows are non-decreasing in `markedAt` and a permutation of the input |
| Tables.Roster | app.py:143-144 | an unknown code gives no roster; otherwise the roster is for the session the lookup finds, ordered by `markedAt`, and holds exactly that session's rows, each as often as in the table |
| Tables.RosterOfOnlyRow | app.py:143-144 | the roster of a one-session table with a single row of that session is that session and that row |
| App.Judge | app.py:110-135 | for a found session the outcome is never NotFound; it is Expired exactly when `now` is past its expiry, whatever the request; the form of that session exactly for a GET to an open session; ValidationError exactly for a submission of an all-whitespace id; AlreadyRecorded exactly when the stripped id already has a row for this session; and a Recorded outcome carries the row `(next id, session id, stripped id, now)` |
| App.Decide | app.py:107-135 | the outcome is NotFound exactly for a code no session has; for a code in use it is the judgement on the session the lookup finds |
| App.AfterAttend | app.py:129-131 | the table grows by exactly the recorded row on Recorded and is unchanged on every other outcome |
| App.ExpiredRefusesAll | app.py:110-111 | for any row of a consistent table past its expiry, every request on its code is answered Expired and inserts nothing |
| App.SubmitToOpenSession | app.py:113-133 | for a session not past its expiry, the expiry instant included, a submission is rejected exactly for an all-whitespace id, already recorded exactly for an existing pair, and recorded with the stripped id otherwise |
| App.AppendRowKeepsConsistent | app.py:37-39 | appending a well-formed row whose pair is not yet present keeps the tables consistent |
| App.AppendUnique | app.py:37-39 | appending a row whose pair is not present keeps every (session, student) pair unique |
| App.AppendWellFormed | app.py:129 | appending a row with the next id, an existing session and a stripped non-empty id keeps every row well formed |
| App.AttendKeepsConsistent | app.py:107-133 | whatever the outcome, the tables stay consistent afterwards |
| App.SubmittedPairHasOneRow | app.py:121-131 | after a submission that is recorded or already recorded, the pair (session, stripped id) has exactly one row |
| App.ResubmitIsIdempotent | app.py:121-127 | after a recorded submission, resubmitting any id that strips to the same value before expiry is answered AlreadyRecorded |
| App.CreateKeepsConsistent | app.py:57-68 | adding a session with an unused code keeps the tables consistent; the new code finds the new row and every earlier code still finds its own row |
| App.OneMinuteSessionScenario | app.py:55-144 | for any code and course, a fresh one-minute session records a stripped student id submitted at its creation instant, refuses any submission 61 seconds later as expired, and its roster is exactly the one recorded row |
| App.Database.constructor | app.py:42-43 | a new database has two empty, consistent tables |
| App.Database.CreateSession | app.py:53-70 | the creation fails exactly when the code is taken; otherwise the session table grows by exactly the new row, which its code now finds; the attendance table is unchanged and the tables stay consistent |
| App.Database.Attend | app.py:103-135 | the route answers as `Decide` on the old tables; the session table is unchanged; the attendance table grows by exactly the recorded row on Recorded and by nothing otherwise; the tables stay consistent |

## Left out

- Flask routing, templates, `redirect`/`flash` and HTTP statuses are left out. The outcome datatypes `AttendOutcome` and `CreateOutcome` stand for them.
- The QR image (`qrcode.make`, PNG bytes, `send_file`) is a foreign library and is left out. `QrTarget` gives only the encoded path, without the scheme and host that `url_for(..., _external=True)` adds. Codes are taken to be URL-safe tokens, as `uuid4` hex strings are: `url_for` percent-encoding and the route converter's refusal of a `/` in a code are not modelled.
- The SQLAlchemy/SQLite persistence is replaced by two in-memory sequences. The declared column lengths (`String(64)`, `String(50)`, `String(100)`) are not modelled, because SQLite does not enforce them.
- Row ids are modelled as SQLite assigns them on tables that are never deleted from: the position of the row counted from 1.
- Concurrent requests and the check-then-insert race are left out; the model is sequential. Under that model the database's uniqueness constraint never has to reject an attendance row, because the route's duplicate check runs first.
- `uuid.uuid4()` and `datetime.utcnow()` are inputs: the code and `now` are parameters.
- App.Database.Attend: the route reads the clock twice, once for the expiry check (app.py:110) and once for the `marked_at` column default at commit (app.py:35). The model uses the single instant `now` for both.
- The `int()` parsing of the duration field and the form defaults (`"Untitled class"`, 15 minutes) are request plumbing and are left out. A missing `student_id` field reaches the model as `Submit("")`.
- Models.NewSession: Python's `OverflowError` for a duration beyond the `datetime` range is not modelled, because integers here are unbounded.
- Tables.SortByTime: `ORDER BY marked_at` leaves the order of equal timestamps unspecified. The model fixes one order, but its contract states only "ordered and a permutation".
- Tables.FindByCode: `.first()` without `ORDER BY` returns some matching row. The model returns the first in table order. Under unique codes there is only one such row (`FindByCodeUnique`).
- The GET of the creation form, the session detail page and the Elastic Beanstalk entry point carry no logic beyond the lookup and are left out.
