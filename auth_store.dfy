/**
 * The SQLite tables behind the API and the statements run against them:
 * `users` (ids handed out in increasing order, username and email unique),
 * `user_auth` (one credential per user), and `sessions` (one row per issued
 * refresh token, `session_id` unique). Foreign keys are enforced and
 * deleting a user deletes its credential and sessions with it.
 *
 * Each statement is a pure function from the tables before to the tables
 * after and its result; the `Database` class holds the tables and runs the
 * statements in place.
 */
module AuthStore {
  import opened Wrappers
  import opened ErrorHandling
  import opened PasswordHasher

  datatype UserRecord = UserRecord(id: int, username: string, fname: string, lname: string, email: string)
  datatype Credential = Credential(hash: PwdHash, lastChangedAt: Option<int>)
  /** A session row; `expiresAt` is in milliseconds since the epoch. */
  datatype SessionRow = SessionRow(sessionId: string, userId: int, expiresAt: int)

  /** The three tables, rows in insertion order, and the next id the `users` table hands out. */
  datatype Tables = Tables(users: seq<UserRecord>, nextUserId: int, auth: map<int, Credential>, sessions: seq<SessionRow>)

  /** What a statement leaves behind and what it returns. */
  datatype Step<T> = Step(tables: Tables, result: T)

  /** An error raised by the database driver itself (a constraint violation), not one of the API's error classes. */
  function DriverError(message: string): Thrown {
    OtherError(message)
  }

  predicate UserExists(users: seq<UserRecord>, id: int) {
    exists u :: u in users && u.id == id
  }

  predicate SessionExists(sessions: seq<SessionRow>, sessionId: string) {
    exists s :: s in sessions && s.sessionId == sessionId
  }

  /** Two user rows that may not both be in the table: same id, username or email. */
  predicate Clash(a: UserRecord, b: UserRecord) {
    a.id == b.id || a.username == b.username || a.email == b.email
  }

  /** No two rows of `users` clash. */
  predicate DistinctUsers(users: seq<UserRecord>) {
    users == [] || ((forall u :: u in users[1..] ==> !Clash(users[0], u)) && DistinctUsers(users[1..]))
  }

  /** No two rows of `sessions` share a session id. */
  predicate DistinctSessions(sessions: seq<SessionRow>) {
    sessions == [] || (!SessionExists(sessions[1..], sessions[0].sessionId) && DistinctSessions(sessions[1..]))
  }

  /** The constraints of the schema, which every statement keeps. */
  predicate Valid(t: Tables) {
    && DistinctUsers(t.users)
    && (forall u :: u in t.users ==> u.id < t.nextUserId)
    && (forall id :: id in t.auth ==> UserExists(t.users, id))
    && DistinctSessions(t.sessions)
    && (forall s :: s in t.sessions ==> UserExists(t.users, s.userId))
  }

  /** In a table without clashes, two different rows differ in id, username and email. */
  lemma {:induction false} DistinctUsersDiffer(users: seq<UserRecord>, u: UserRecord, v: UserRecord)
    requires DistinctUsers(users) && u in users && v in users && u != v
    ensures u.id != v.id && u.username != v.username && u.email != v.email
  {
    if u == users[0] {
      assert v in users[1..];
    } else if v == users[0] {
      assert u in users[1..];
    } else {
      assert u in users[1..] && v in users[1..];
      DistinctUsersDiffer(users[1..], u, v);
    }
  }

  /** The empty database; ids start at 1. */
  const Empty: Tables := Tables([], 1, map[], [])

  lemma {:induction false} EmptyValid()
    ensures Valid(Empty)
  {
  }

  // ----- users -----

  /**
   * `dbAddNewUser`: a taken username or email is reported with the API's
   * own `SqliteError` messages, checked in column order; otherwise the row
   * gets the next id, which is returned.
   */
  function AddNewUser(t: Tables, username: string, fname: string, lname: string, email: string): (s: Step<Result<int, Thrown>>)
    ensures (exists u :: u in t.users && u.username == username) ==>
              s == Step(t, Err(SqliteError("Username already exists", None)))
    ensures !(exists u :: u in t.users && u.username == username) && (exists u :: u in t.users && u.email == email) ==>
              s == Step(t, Err(SqliteError("Email already in use", None)))
    ensures s.result.Ok? ==> s.result.value == t.nextUserId
                             && s.tables == t.(users := t.users + [UserRecord(t.nextUserId, username, fname, lname, email)],
                                               nextUserId := t.nextUserId + 1)
    ensures Valid(t) ==> Valid(s.tables)
  {
    if exists u :: u in t.users && u.username == username then Step(t, Err(SqliteError("Username already exists", None)))
    else if exists u :: u in t.users && u.email == email then Step(t, Err(SqliteError("Email already in use", None)))
    else
      var rec := UserRecord(t.nextUserId, username, fname, lname, email);
      var t' := t.(users := t.users + [rec], nextUserId := t.nextUserId + 1);
      assert Valid(t) ==> Valid(t') by {
        if Valid(t) {
          AppendUserDistinct(t.users, rec);
          assert forall u :: u in t'.users ==> u in t.users || u == rec;
          assert forall u :: u in t.users ==> u in t'.users;
        }
      }
      Step(t', Ok(t.nextUserId))
  }

  lemma {:induction false} AppendUserDistinct(users: seq<UserRecord>, rec: UserRecord)
    requires DistinctUsers(users)
    requires forall u :: u in users ==> !Clash(u, rec)
    ensures DistinctUsers(users + [rec])
  {
    if users == [] {
      assert ([] + [rec])[1..] == [];
    } else {
      assert (users + [rec])[1..] == users[1..] + [rec];
      assert forall u :: u in users[1..] ==> u in users;
      AppendUserDistinct(users[1..], rec);
    }
  }

  /** `dbGetUsernameAndId` / `dbGetUserByUsername`: the row with that username. */
  function UserByUsername(users: seq<UserRecord>, username: string): (r: Option<UserRecord>)
    ensures r.Some? ==> r.value in users && r.value.username == username
    ensures r.None? <==> !(exists u :: u in users && u.username == username)
  {
    if users == [] then None
    else if users[0].username == username then Some(users[0])
    else
      assert forall u :: u in users[1..] ==> u in users;
      UserByUsername(users[1..], username)
  }

  /** `dbGetUserById`: the row with that id. */
  function UserById(users: seq<UserRecord>, id: int): (r: Option<UserRecord>)
    ensures r.Some? ==> r.value in users && r.value.id == id
    ensures r.None? <==> !UserExists(users, id)
  {
    if users == [] then None
    else if users[0].id == id then Some(users[0])
    else
      assert forall u :: u in users[1..] ==> u in users;
      UserById(users[1..], id)
  }

  /** In a table without clashes, looking a row's id up finds that row. */
  lemma {:induction false} UserByIdFinds(users: seq<UserRecord>, rec: UserRecord)
    requires DistinctUsers(users) && rec in users
    ensures UserById(users, rec.id) == Some(rec)
  {
    if users[0] != rec {
      assert rec in users[1..];
      UserByIdFinds(users[1..], rec);
    }
  }

  /** `dbGetUsers(limit)`: the first `limit` rows. */
  function UsersPage(users: seq<UserRecord>, limit: nat): (r: seq<UserRecord>)
    ensures |r| == if limit < |users| then limit else |users|
    ensures r == users[..|r|]
  {
    if limit < |users| then users[..limit] else users
  }

  /** Replace the row with id `id` (there is at most one) by `rec`. */
  function ReplaceUser(users: seq<UserRecord>, id: int, rec: UserRecord): (r: seq<UserRecord>)
    ensures |r| == |users|
    ensures forall i :: 0 <= i < |users| ==> r[i] == if users[i].id == id then rec else users[i]
  {
    if users == [] then [] else [if users[0].id == id then rec else users[0]] + ReplaceUser(users[1..], id, rec)
  }

  /**
   * `dbUpdateUser(id, user)`: `UPDATE ... WHERE id = ?` on no row changes
   * nothing, checks no constraint and returns 0; otherwise writing a username
   * or email another user holds violates its unique constraint, and failing
   * that the row takes the new fields and 1 is returned.
   */
  function UpdateUser(t: Tables, id: int, username: string, fname: string, lname: string, email: string): (s: Step<Result<int, Thrown>>)
    ensures !UserExists(t.users, id) ==> s == Step(t, Ok(0))
    ensures s.result.Ok? ==> s.result.value in {0, 1}
    ensures s.result.Ok? && s.result.value == 0 ==> s.tables == t && !UserExists(t.users, id)
    ensures s.result.Ok? && s.result.value == 1 ==>
              UserExists(t.users, id) && s.tables == t.(users := ReplaceUser(t.users, id, UserRecord(id, username, fname, lname, email)))
    ensures s.result.Err? ==> s.tables == t
    ensures UserExists(t.users, id) ==>
              (s.result.Err? <==> exists u :: u in t.users && u.id != id && (u.username == username || u.email == email))
    ensures Valid(t) ==> Valid(s.tables)
  {
    if !UserExists(t.users, id) then Step(t, Ok(0))
    else if exists u :: u in t.users && u.id != id && u.username == username then
      Step(t, Err(DriverError("UNIQUE constraint failed: users.username")))
    else if exists u :: u in t.users && u.id != id && u.email == email then
      Step(t, Err(DriverError("UNIQUE constraint failed: users.email")))
    else
      var rec := UserRecord(id, username, fname, lname, email);
      var users' := ReplaceUser(t.users, id, rec);
      var t' := t.(users := users');
      assert Valid(t) ==> Valid(t') by {
        if Valid(t) {
          ReplaceUserFacts(t.users, id, rec);
          ReplaceUserDistinct(t.users, id, rec);
        }
      }
      Step(t', Ok(1))
  }

  /** Replacing a row by one with the same id keeps the set of ids; every row after is an old row or the new one. */
  lemma {:induction false} ReplaceUserFacts(users: seq<UserRecord>, id: int, rec: UserRecord)
    requires rec.id == id
    ensures forall x :: UserExists(ReplaceUser(users, id, rec), x) <==> UserExists(users, x)
    ensures forall u :: u in ReplaceUser(users, id, rec) ==> u in users || u == rec
  {
    if users != [] {
      ReplaceUserFacts(users[1..], id, rec);
      assert forall u :: u in users <==> u == users[0] || u in users[1..];
      assert ReplaceUser(users, id, rec)[1..] == ReplaceUser(users[1..], id, rec);
      assert forall u :: u in ReplaceUser(users, id, rec) <==> u == ReplaceUser(users, id, rec)[0] || u in ReplaceUser(users[1..], id, rec);
    }
  }

  lemma {:induction false} ReplaceUserDistinct(users: seq<UserRecord>, id: int, rec: UserRecord)
    requires rec.id == id && DistinctUsers(users)
    requires forall u :: u in users && u.id != id ==> u.username != rec.username && u.email != rec.email
    ensures DistinctUsers(ReplaceUser(users, id, rec))
  {
    if users != [] {
      var tail := users[1..];
      assert forall u :: u in tail ==> u in users;
      ReplaceUserDistinct(tail, id, rec);
      ReplaceUserFacts(tail, id, rec);
      var r := ReplaceUser(users, id, rec);
      assert r[1..] == ReplaceUser(tail, id, rec);
      forall u | u in r[1..] ensures !Clash(r[0], u) {
        if users[0].id == id {
          assert u != rec by {
            assert !UserExists(tail, id) by {
              forall v | v in tail ensures v.id != id {
                assert !Clash(users[0], v);
              }
            }
          }
        }
      }
    }
  }

  /** The rows of `users` other than the one with id `id`. */
  function RemoveUser(users: seq<UserRecord>, id: int): (r: seq<UserRecord>)
    ensures forall u :: u in r <==> u in users && u.id != id
    ensures |r| <= |users|
  {
    if users == [] then []
    else if users[0].id == id then RemoveUser(users[1..], id)
    else [users[0]] + RemoveUser(users[1..], id)
  }

  lemma {:induction false} RemoveUserDistinct(users: seq<UserRecord>, id: int)
    requires DistinctUsers(users)
    ensures DistinctUsers(RemoveUser(users, id))
  {
    if users != [] {
      RemoveUserDistinct(users[1..], id);
      if users[0].id != id {
        var r := [users[0]] + RemoveUser(users[1..], id);
        assert r[1..] == RemoveUser(users[1..], id);
      }
    }
  }

  /** The sessions that do not belong to user `userId`. */
  function RemoveSessionsOf(sessions: seq<SessionRow>, userId: int): (r: seq<SessionRow>)
    ensures forall s :: s in r <==> s in sessions && s.userId != userId
    ensures |r| <= |sessions|
  {
    if sessions == [] then []
    else if sessions[0].userId == userId then RemoveSessionsOf(sessions[1..], userId)
    else [sessions[0]] + RemoveSessionsOf(sessions[1..], userId)
  }

  lemma {:induction false} RemoveSessionsOfDistinct(sessions: seq<SessionRow>, userId: int)
    requires DistinctSessions(sessions)
    ensures DistinctSessions(RemoveSessionsOf(sessions, userId))
  {
    if sessions != [] {
      RemoveSessionsOfDistinct(sessions[1..], userId);
      if sessions[0].userId != userId {
        var r := [sessions[0]] + RemoveSessionsOf(sessions[1..], userId);
        assert r[1..] == RemoveSessionsOf(sessions[1..], userId);
      }
    }
  }

  /**
   * `dbDeleteUser(id)`: deletes the user's row and, through the cascading
   * foreign keys, its credential and all its sessions; returns the number of
   * user rows deleted.
   */
  function DeleteUser(t: Tables, id: int): (s: Step<int>)
    ensures s.result == (if UserExists(t.users, id) then 1 else 0)
    ensures s.result == 0 ==> s.tables == t
    ensures !UserExists(s.tables.users, id)
    ensures Valid(t) ==> id !in s.tables.auth && forall r :: r in s.tables.sessions ==> r.userId != id
    ensures forall u :: u in t.users && u.id != id ==> u in s.tables.users
    ensures forall other :: other != id && other in t.auth ==> other in s.tables.auth && s.tables.auth[other] == t.auth[other]
    ensures forall r :: r in t.sessions && r.userId != id ==> r in s.tables.sessions
    ensures Valid(t) ==> Valid(s.tables)
  {
    if !UserExists(t.users, id) then Step(t, 0)
    else
      var t' := t.(users := RemoveUser(t.users, id), auth := t.auth - {id}, sessions := RemoveSessionsOf(t.sessions, id));
      assert Valid(t) ==> Valid(t') by {
        if Valid(t) {
          RemoveUserDistinct(t.users, id);
          RemoveSessionsOfDistinct(t.sessions, id);
          forall other | UserExists(t.users, other) && other != id ensures UserExists(t'.users, other) {
            var u :| u in t.users && u.id == other;
            assert u in t'.users;
          }
        }
      }
      Step(t', 1)
  }

  // ----- user_auth -----

  /**
   * `dbAddNewUserAuth(id, hash)`: `user_id` is the primary key, so a user
   * that already has a credential cannot get a second one, and the foreign
   * key requires the user to exist; otherwise one row is inserted.
   */
  function AddNewUserAuth(t: Tables, id: int, hash: PwdHash): (s: Step<Result<int, Thrown>>)
    ensures s.result.Ok? <==> id !in t.auth && UserExists(t.users, id)
    ensures s.result.Ok? ==> s.result.value == 1 && s.tables == t.(auth := t.auth[id := Credential(hash, None)])
    ensures s.result.Err? ==> s.tables == t
    ensures Valid(t) ==> Valid(s.tables)
  {
    if id in t.auth then Step(t, Err(DriverError("UNIQUE constraint failed: user_auth.user_id")))
    else if !UserExists(t.users, id) then Step(t, Err(DriverError("FOREIGN KEY constraint failed")))
    else Step(t.(auth := t.auth[id := Credential(hash, None)]), Ok(1))
  }

  /** `dbGetUserPwdHash(id)`: the stored hash, or `undefined` when the user has no credential. */
  function UserPwdHash(auth: map<int, Credential>, id: int): (r: Option<PwdHash>)
    ensures r.Some? <==> id in auth
    ensures r.Some? ==> r.value == auth[id].hash
  {
    if id in auth then Some(auth[id].hash) else None
  }

  /**
   * `dbUpdateUserPwd(hash, id)`: sets that user's hash and change time,
   * returning 1, or changes nothing and returns 0 when there is no such row.
   */
  function UpdateUserPwd(t: Tables, hash: PwdHash, id: int, now: int): (s: Step<int>)
    ensures s.result == (if id in t.auth then 1 else 0)
    ensures id in t.auth ==> s.tables == t.(auth := t.auth[id := Credential(hash, Some(now))])
    ensures id !in t.auth ==> s.tables == t
    ensures Valid(t) ==> Valid(s.tables)
  {
    if id in t.auth then Step(t.(auth := t.auth[id := Credential(hash, Some(now))]), 1) else Step(t, 0)
  }

  /** `dbAddUserWithAuth`: the user row, then its credential; returns the new id. */
  function AddUserWithAuth(t: Tables, username: string, fname: string, lname: string, email: string, hash: PwdHash): (s: Step<Result<int, Thrown>>)
    ensures (exists u :: u in t.users && u.username == username) ==>
              s == Step(t, Err(SqliteError("Username already exists", None)))
    ensures !(exists u :: u in t.users && u.username == username) && (exists u :: u in t.users && u.email == email) ==>
              s == Step(t, Err(SqliteError("Email already in use", None)))
    ensures s.result.Ok? ==> s.result.value == t.nextUserId
                             && s.tables.users == t.users + [UserRecord(t.nextUserId, username, fname, lname, email)]
                             && s.tables.auth == t.auth[t.nextUserId := Credential(hash, None)]
                             && s.tables.sessions == t.sessions
    ensures Valid(t) && s.result.Err? ==> s.tables == t
    ensures Valid(t) ==> Valid(s.tables)
  {
    var added := AddNewUser(t, username, fname, lname, email);
    match added.result
    case Err(e) => Step(added.tables, Err(e))
    case Ok(id) =>
      assert added.tables.users[|t.users|].id == id;
      assert Valid(t) ==> forall u :: u in t.users ==> u.id != id;
      var withAuth := AddNewUserAuth(added.tables, id, hash);
      match withAuth.result
      case Err(e) => Step(withAuth.tables, Err(e))
      case Ok(_) => Step(withAuth.tables, Ok(id))
  }

  /**
   * On a consistent database a new user always gets its credential: the
   * fresh id has none yet. The result is the new id, the user row holds the
   * given fields and the credential holds the hash.
   */
  lemma {:induction false} AddUserWithAuthSucceeds(t: Tables, username: string, fname: string, lname: string, email: string, hash: PwdHash)
    requires Valid(t)
    requires !(exists u :: u in t.users && u.username == username)
    requires !(exists u :: u in t.users && u.email == email)
    ensures var s := AddUserWithAuth(t, username, fname, lname, email, hash);
            && s.result == Ok(t.nextUserId)
            && UserById(s.tables.users, t.nextUserId) == Some(UserRecord(t.nextUserId, username, fname, lname, email))
            && UserPwdHash(s.tables.auth, t.nextUserId) == Some(hash)
            && s.tables.sessions == t.sessions
  {
    var id := t.nextUserId;
    var added := AddNewUser(t, username, fname, lname, email);
    assert forall u :: u in t.users ==> u.id != id;
    var rec := UserRecord(id, username, fname, lname, email);
    assert added.tables.users[|t.users|] == rec;
    UserByIdFinds(added.tables.users, rec);
  }

  // ----- sessions -----

  /**
   * `dbAddSession(sessionId, userId, expiresAt)`: `session_id` is the
   * primary key and `user_id` must name a user; otherwise the row is added
   * and 1 is returned. A user may hold any number of sessions.
   */
  function AddSession(t: Tables, sessionId: string, userId: int, expiresAt: int): (s: Step<Result<int, Thrown>>)
    ensures s.result.Ok? <==> !SessionExists(t.sessions, sessionId) && UserExists(t.users, userId)
    ensures s.result.Ok? ==> s.result.value == 1 && s.tables == t.(sessions := t.sessions + [SessionRow(sessionId, userId, expiresAt)])
    ensures s.result.Err? ==> s.tables == t
    ensures Valid(t) ==> Valid(s.tables)
  {
    if SessionExists(t.sessions, sessionId) then Step(t, Err(DriverError("UNIQUE constraint failed: sessions.session_id")))
    else if !UserExists(t.users, userId) then Step(t, Err(DriverError("FOREIGN KEY constraint failed")))
    else
      var row := SessionRow(sessionId, userId, expiresAt);
      var t' := t.(sessions := t.sessions + [row]);
      assert Valid(t) ==> Valid(t') by {
        if Valid(t) {
          AppendSessionDistinct(t.sessions, row);
          assert forall s :: s in t'.sessions ==> s in t.sessions || s == row;
        }
      }
      Step(t', Ok(1))
  }

  lemma {:induction false} AppendSessionDistinct(sessions: seq<SessionRow>, row: SessionRow)
    requires DistinctSessions(sessions) && !SessionExists(sessions, row.sessionId)
    ensures DistinctSessions(sessions + [row])
  {
    if sessions == [] {
      assert ([] + [row])[1..] == [];
    } else {
      var tail := sessions[1..];
      assert (sessions + [row])[1..] == tail + [row];
      assert forall s :: s in tail ==> s in sessions;
      AppendSessionDistinct(tail, row);
      assert forall s :: s in tail + [row] ==> s in tail || s == row;
    }
  }

  /**
   * `dbGetSession(userId)`: the first of the user's rows in table order, or
   * `undefined`; expired rows are returned like any other.
   */
  function SessionOf(sessions: seq<SessionRow>, userId: int): (r: Option<SessionRow>)
    ensures r.Some? ==> r.value in sessions && r.value.userId == userId
    ensures r.None? <==> !(exists s :: s in sessions && s.userId == userId)
  {
    if sessions == [] then None
    else if sessions[0].userId == userId then Some(sessions[0])
    else
      assert forall s :: s in sessions[1..] ==> s in sessions;
      SessionOf(sessions[1..], userId)
  }

  /** The rows whose id is not `sessionId`, in their order. */
  function RemoveSession(sessions: seq<SessionRow>, sessionId: string): (r: seq<SessionRow>)
    ensures forall s :: s in r <==> s in sessions && s.sessionId != sessionId
    ensures |r| <= |sessions|
    ensures !SessionExists(sessions, sessionId) ==> r == sessions
  {
    if sessions == [] then []
    else if sessions[0].sessionId == sessionId then RemoveSession(sessions[1..], sessionId)
    else
      assert forall s :: s in sessions[1..] ==> s in sessions;
      [sessions[0]] + RemoveSession(sessions[1..], sessionId)
  }

  lemma {:induction false} RemoveSessionDistinct(sessions: seq<SessionRow>, sessionId: string)
    requires DistinctSessions(sessions)
    ensures DistinctSessions(RemoveSession(sessions, sessionId))
  {
    if sessions != [] {
      RemoveSessionDistinct(sessions[1..], sessionId);
      if sessions[0].sessionId != sessionId {
        var r := [sessions[0]] + RemoveSession(sessions[1..], sessionId);
        assert r[1..] == RemoveSession(sessions[1..], sessionId);
      }
    }
  }

  /** `dbDeleteSession(sessionId)`: removes the row with that id and returns how many rows went. */
  function DeleteSession(t: Tables, sessionId: string): (s: Step<int>)
    ensures s.tables == t.(sessions := RemoveSession(t.sessions, sessionId))
    ensures s.result == |t.sessions| - |s.tables.sessions|
    ensures Valid(t) ==> Valid(s.tables)
  {
    var rest := RemoveSession(t.sessions, sessionId);
    var t' := t.(sessions := rest);
    assert Valid(t) ==> Valid(t') by {
      if Valid(t) {
        RemoveSessionDistinct(t.sessions, sessionId);
      }
    }
    Step(t', |t.sessions| - |rest|)
  }

  /**
   * With session ids distinct, deleting by id removes exactly one row when
   * that id is present and none otherwise.
   */
  lemma {:induction false} DeleteSessionCount(sessions: seq<SessionRow>, sessionId: string)
    requires DistinctSessions(sessions)
    ensures |sessions| - |RemoveSession(sessions, sessionId)| == if SessionExists(sessions, sessionId) then 1 else 0
  {
    if sessions != [] {
      var tail := sessions[1..];
      DeleteSessionCount(tail, sessionId);
      assert forall s :: s in sessions <==> s == sessions[0] || s in tail;
    }
  }

  /** After its row is deleted, the session id is gone and every other row is still there. */
  lemma {:induction false} DeleteSessionExact(t: Tables, sessionId: string)
    ensures var after := DeleteSession(t, sessionId).tables;
            && !SessionExists(after.sessions, sessionId)
            && (forall r :: r in t.sessions && r.sessionId != sessionId ==> r in after.sessions)
            && after.users == t.users && after.auth == t.auth
  {
  }

  /** A user may hold two sessions at once: a second insert for the same user succeeds. */
  lemma {:induction false} TwoSessionsForOneUser(t: Tables, a: string, b: string, userId: int, e1: int, e2: int)
    requires UserExists(t.users, userId)
    requires a != b && !SessionExists(t.sessions, a) && !SessionExists(t.sessions, b)
    ensures var first := AddSession(t, a, userId, e1);
            && first.result == Ok(1)
            && AddSession(first.tables, b, userId, e2).result == Ok(1)
  {
    var first := AddSession(t, a, userId, e1);
    assert forall s :: s in first.tables.sessions ==> s in t.sessions || s == SessionRow(a, userId, e1);
  }

  /** A session id can be inserted only once. */
  lemma {:induction false} SessionIdInsertedOnce(t: Tables, sessionId: string, u1: int, u2: int, e1: int, e2: int)
    requires AddSession(t, sessionId, u1, e1).result.Ok?
    ensures AddSession(AddSession(t, sessionId, u1, e1).tables, sessionId, u2, e2).result.Err?
  {
    var after := AddSession(t, sessionId, u1, e1).tables;
    assert after.sessions[|after.sessions| - 1] in after.sessions;
  }

  /** The database, with the statements run against it in place. */
  class Database {
    var users: seq<UserRecord>
    var nextUserId: int
    var auth: map<int, Credential>
    var sessions: seq<SessionRow>

    /** The tables as they stand. */
    function State(): Tables
      reads this
    {
      Tables(users, nextUserId, auth, sessions)
    }

    /** An empty database. */
    constructor ()
      ensures State() == Empty
    {
      users := [];
      nextUserId := 1;
      auth := map[];
      sessions := [];
    }

    /** Make the tables `t`. */
    method Store(t: Tables)
      modifies this
      ensures State() == t
    {
      users := t.users;
      nextUserId := t.nextUserId;
      auth := t.auth;
      sessions := t.sessions;
    }

    /** `dbAddUserWithAuth`. */
    method AddUserWithAuthStmt(username: string, fname: string, lname: string, email: string, hash: PwdHash)
      returns (r: Result<int, Thrown>)
      modifies this
      ensures var s := AddUserWithAuth(old(State()), username, fname, lname, email, hash);
              State() == s.tables && r == s.result
    {
      var s := AddUserWithAuth(State(), username, fname, lname, email, hash);
      Store(s.tables);
      r := s.result;
    }

    /** `dbGetUsernameAndId`. */
    function GetUsernameAndId(username: string): (r: Option<UserRecord>)
      reads this
      ensures r == UserByUsername(users, username)
      ensures r.Some? ==> r.value in users && r.value.username == username
      ensures r.None? <==> !(exists u :: u in users && u.username == username)
    {
      UserByUsername(users, username)
    }

    /** `dbGetUserById`. */
    function GetUserById(id: int): (r: Option<UserRecord>)
      reads this
      ensures r == UserById(users, id)
      ensures r.Some? ==> r.value in users && r.value.id == id
      ensures r.None? <==> !UserExists(users, id)
    {
      UserById(users, id)
    }

    /** `dbUpdateUser`. */
    method UpdateUserStmt(id: int, username: string, fname: string, lname: string, email: string)
      returns (r: Result<int, Thrown>)
      modifies this
      ensures var s := UpdateUser(old(State()), id, username, fname, lname, email);
              State() == s.tables && r == s.result
    {
      var s := UpdateUser(State(), id, username, fname, lname, email);
      Store(s.tables);
      r := s.result;
    }

    /** `dbDeleteUser`. */
    method DeleteUserStmt(id: int) returns (n: int)
      modifies this
      ensures var s := DeleteUser(old(State()), id);
              State() == s.tables && n == s.result
    {
      var s := DeleteUser(State(), id);
      Store(s.tables);
      n := s.result;
    }

    /** `dbGetUserPwdHash`. */
    function GetUserPwdHash(id: int): (r: Option<PwdHash>)
      reads this
      ensures r == UserPwdHash(auth, id)
      ensures r.Some? <==> id in auth
      ensures r.Some? ==> r.value == auth[id].hash
    {
      UserPwdHash(auth, id)
    }

    /** `dbUpdateUserPwd`. */
    method UpdateUserPwdStmt(hash: PwdHash, id: int, now: int) returns (n: int)
      modifies this
      ensures var s := UpdateUserPwd(old(State()), hash, id, now);
              State() == s.tables && n == s.result
    {
      if id in auth {
        auth := auth[id := Credential(hash, Some(now))];
        n := 1;
      } else {
        n := 0;
      }
    }

    /** `dbAddSession`. */
    method AddSessionStmt(sessionId: string, userId: int, expiresAt: int) returns (r: Result<int, Thrown>)
      modifies this
      ensures var s := AddSession(old(State()), sessionId, userId, expiresAt);
              State() == s.tables && r == s.result
    {
      if SessionExists(sessions, sessionId) {
        return Err(DriverError("UNIQUE constraint failed: sessions.session_id"));
      }
      if !UserExists(users, userId) {
        return Err(DriverError("FOREIGN KEY constraint failed"));
      }
      sessions := sessions + [SessionRow(sessionId, userId, expiresAt)];
      r := Ok(1);
    }

    /** `dbGetSession`. */
    function GetSession(userId: int): (r: Option<SessionRow>)
      reads this
      ensures r == SessionOf(sessions, userId)
      ensures r.Some? ==> r.value in sessions && r.value.userId == userId
      ensures r.None? <==> !(exists s :: s in sessions && s.userId == userId)
    {
      SessionOf(sessions, userId)
    }

    /** `dbDeleteSession`. */
    method DeleteSessionStmt(sessionId: string) returns (n: int)
      modifies this
      ensures var s := DeleteSession(old(State()), sessionId);
              State() == s.tables && n == s.result
    {
      var before := |sessions|;
      sessions := RemoveSession(sessions, sessionId);
      n := before - |sessions|;
    }
  }
}
