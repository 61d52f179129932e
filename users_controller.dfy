/**
 * The handlers for a signed-in user's own account: listing users, reading
 * and patching the profile, deleting the account and changing the password.
 * As with the authentication handlers, each is a pure specification over
 * the tables and a method of `UsersController` that runs it in place. The
 * authenticated user (`req.user.id`) is a parameter, set by a middleware
 * outside this model.
 */
module UsersController {
  import opened Wrappers
  import opened Text
  import opened Js
  import opened ErrorHandling
  import opened PasswordHasher
  import opened Patterns
  import opened AuthStore
  import opened Validators

  /** The JSON body of a successful reply. */
  datatype Body =
    | UsersList(users: seq<UserRecord>)
    | UserInfo(user: UserRecord)
    | Message(text: string)

  datatype Outcome =
    | Sent(status: int, body: Body)
    | Failed(error: Thrown)

  /** The body of a password change, once it has passed its own checks. */
  datatype PasswordChange = PasswordChange(oldPassword: string, newPassword: string)

  const NotAuthenticated403: Thrown := HttpError("Not Authenticated", Some(403))
  const NotAuthenticated401: Thrown := HttpError("Not Authenticated", Some(401))
  const UserNotFound: Thrown := HttpError("User Not Found", Some(404))
  const BadRequestBody: Thrown := HttpError("Bad Request Body", Some(400))
  const SamePassword: Thrown := HttpError("New Password Must Be Different from Old Password", None)
  const NotAuthorized: Thrown := HttpError("Not Authorized", Some(401))
  const InvalidOldPassword: Thrown := HttpError("Invalid Old Password", Some(400))

  // ----- listing -----

  /**
   * `getUsers`: the `limit` query parameter, 10 when absent, caps the list
   * to the first rows of the table; a malformed limit is a 400.
   */
  function GetUsers(t: Tables, rawLimit: Option<string>): (o: Outcome)
    ensures o.Sent? <==> ValidateParamNumber(rawLimit).Ok?
    ensures o.Sent? ==> o.body.UsersList? && |o.body.users| <= |t.users| && o.body.users == t.users[..|o.body.users|]
    ensures o.Sent? ==> |o.body.users| <= ValidateParamNumber(rawLimit).value
    ensures o.Sent? && |o.body.users| < ValidateParamNumber(rawLimit).value ==> o.body.users == t.users
    ensures o.Failed? ==> ErrorHandler(o.error).status == 400
  {
    match ValidateParamNumber(rawLimit)
    case Err(e) => Failed(e)
    case Ok(limit) => Sent(200, UsersList(UsersPage(t.users, limit)))
  }

  /** Without a `limit`, the first ten users are listed (all of them when there are fewer). */
  lemma {:induction false} DefaultLimitIsTen(t: Tables)
    ensures GetUsers(t, None) == Sent(200, UsersList(if |t.users| <= 10 then t.users else t.users[..10]))
  {
  }

  /** `getUserInfo`: the signed-in user's row, 403 without a user and 404 when the row is gone. */
  function GetUserInfo(t: Tables, authUser: Option<int>): (o: Outcome)
    ensures authUser.None? ==> o == Failed(NotAuthenticated403)
    ensures authUser.Some? ==> (o.Sent? <==> UserExists(t.users, authUser.value))
    ensures o.Sent? ==> o.body.UserInfo? && o.body.user in t.users && o.body.user.id == authUser.value
    ensures authUser.Some? && o.Failed? ==> o == Failed(UserNotFound)
  {
    if authUser.None? then Failed(NotAuthenticated403)
    else
      match UserById(t.users, authUser.value)
      case None => Failed(UserNotFound)
      case Some(u) => Sent(200, UserInfo(u))
  }

  // ----- profile patch -----

  /** The value of one of the four profile fields of a row. */
  function FieldOf(u: UserRecord, key: string): string {
    if key == "username" then u.username
    else if key == "fname" then u.fname
    else if key == "lname" then u.lname
    else u.email
  }

  /** A field after `{ ...stored, ...patch }`: the patch's string value when it has one, otherwise the stored value. */
  function FieldOr(patch: seq<(string, Value)>, key: string, stored: string): string {
    if Get(patch, key).Str? then Get(patch, key).s else stored
  }

  /** `{ ...user, ...newUserInfo }` on the profile fields; the id is the stored one. */
  function Merge(u: UserRecord, patch: seq<(string, Value)>): (m: UserRecord)
    ensures m.id == u.id
    ensures forall k :: k in AllowedKeys ==> FieldOf(m, k) == FieldOr(patch, k, FieldOf(u, k))
  {
    var m := UserRecord(u.id, FieldOr(patch, "username", u.username), FieldOr(patch, "fname", u.fname),
                        FieldOr(patch, "lname", u.lname), FieldOr(patch, "email", u.email));
    MergeFields(u, patch, m);
    m
  }

  lemma {:induction false} MergeFields(u: UserRecord, patch: seq<(string, Value)>, m: UserRecord)
    requires m == UserRecord(u.id, FieldOr(patch, "username", u.username), FieldOr(patch, "fname", u.fname),
                             FieldOr(patch, "lname", u.lname), FieldOr(patch, "email", u.email))
    ensures forall k :: k in AllowedKeys ==> FieldOf(m, k) == FieldOr(patch, k, FieldOf(u, k))
  {
    forall k | k in AllowedKeys ensures FieldOf(m, k) == FieldOr(patch, k, FieldOf(u, k)) {
      var i :| 0 <= i < |AllowedKeys| && AllowedKeys[i] == k;
      if i == 0 {
        assert k == "username";
      } else if i == 1 {
        assert k == "fname" && k != "username";
      } else if i == 2 {
        assert k == "lname" && k != "username" && k != "fname";
      } else {
        assert k == "email" && k != "username" && k != "fname" && k != "lname";
      }
    }
  }

  /** The body after `validateUserPatchBody` has run on it. */
  function PatchedBody(body: seq<(string, Value)>): seq<(string, Value)> {
    if |body| == 0 || |body| > 4 then body else PatchFields(body, Keys(body)).0
  }

  /** The check `validateUserPatchBody` answers with. */
  function PatchCheck(body: seq<(string, Value)>): Result<(), Thrown> {
    if |body| == 0 || |body| > 4 then Err(InputError(PatchFieldCount))
    else PatchFields(body, Keys(body)).1
  }

  /**
   * `changeUserInfo`: 403 without a user; then the patch is validated and
   * written back into the body, the stored row is read (404 when gone),
   * the patch is laid over it and the result saved.
   */
  function ChangeUserInfoSpec(t: Tables, authUser: Option<int>, body: seq<(string, Value)>): (s: Step<Outcome>)
    ensures s.result.Failed? && Valid(t) ==> s.tables == t
    ensures s.result.Sent? ==> authUser.Some? && UserExists(t.users, authUser.value)
  {
    if authUser.None? then Step(t, Failed(NotAuthenticated403))
    else
      match PatchCheck(body)
      case Err(e) => Step(t, Failed(e))
      case Ok(_) =>
        var id := authUser.value;
        match UserById(t.users, id)
        case None => Step(t, Failed(UserNotFound))
        case Some(stored) => SaveProfile(t, id, Merge(stored, PatchedBody(body)))
  }

  /** The end of `changeUserInfo`: the merged row is saved, and anything but one changed row is an error. */
  function SaveProfile(t: Tables, id: int, m: UserRecord): (s: Step<Outcome>)
    ensures s.result.Failed? ==> s.tables == t
  {
    var updated := UpdateUser(t, id, m.username, m.fname, m.lname, m.email);
    match updated.result
    case Err(e) => Step(updated.tables, Failed(e))
    case Ok(n) =>
      if n != 1 then Step(updated.tables, Failed(OtherError("Couldnt save users to db")))
      else Step(updated.tables, Sent(200, Message("Updated Successfuly")))
  }

  /**
   * A successful profile change rewrites only the signed-in user's row: each
   * field the body names holds the validated (trimmed) value sent, every
   * other field keeps its stored value, and other users, credentials and
   * sessions are untouched.
   */
  lemma {:induction false} ChangeUserInfoMerges(t: Tables, id: int, body: seq<(string, Value)>)
    requires Valid(t) && DistinctKeys(body)
    requires ChangeUserInfoSpec(t, Some(id), body).result.Sent?
    ensures var s := ChangeUserInfoSpec(t, Some(id), body);
            var before := UserById(t.users, id).value;
            var after := UserById(s.tables.users, id);
            && after.Some?
            && (forall k :: k in AllowedKeys && k in Keys(body) ==>
                  ValidateSingleField(k, Get(body, k)) == Ok(FieldOf(after.value, k)))
            && (forall k :: k in AllowedKeys && k !in Keys(body) ==> FieldOf(after.value, k) == FieldOf(before, k))
            && (forall u :: u in t.users && u.id != id ==> u in s.tables.users)
            && s.tables.auth == t.auth && s.tables.sessions == t.sessions
  {
    var s := ChangeUserInfoSpec(t, Some(id), body);
    var before := UserById(t.users, id).value;
    var m := Merge(before, PatchedBody(body));
    var updated := UpdateUser(t, id, m.username, m.fname, m.lname, m.email);
    assert PatchCheck(body).Ok?;
    assert updated.result == Ok(1) && s.tables == updated.tables;
    SavedRow(t, id, m);
    forall k | k in AllowedKeys && k in Keys(body)
      ensures ValidateSingleField(k, Get(body, k)) == Ok(FieldOf(m, k))
    {
      MergedFieldNamed(before, body, k);
    }
    forall k | k in AllowedKeys && k !in Keys(body)
      ensures FieldOf(m, k) == FieldOf(before, k)
    {
      MergedFieldKept(before, body, k);
    }
  }

  /** Saving a row of an existing user: looking it up gives the new row, and nothing else changes. */
  lemma {:induction false} SavedRow(t: Tables, id: int, m: UserRecord)
    requires Valid(t) && m.id == id
    requires UpdateUser(t, id, m.username, m.fname, m.lname, m.email).result == Ok(1)
    ensures var after := UpdateUser(t, id, m.username, m.fname, m.lname, m.email).tables;
            && UserById(after.users, id) == Some(m)
            && (forall u :: u in t.users && u.id != id ==> u in after.users)
            && after.auth == t.auth && after.sessions == t.sessions
  {
    var after := UpdateUser(t, id, m.username, m.fname, m.lname, m.email).tables;
    var users' := ReplaceUser(t.users, id, m);
    assert after.users == users';
    assert Valid(after);
    var i :| 0 <= i < |t.users| && t.users[i].id == id;
    assert users'[i] == m;
    UserByIdFinds(users', m);
    forall u | u in t.users && u.id != id ensures u in users' {
      var j :| 0 <= j < |t.users| && t.users[j] == u;
      assert users'[j] == u;
    }
  }

  /** The merged row holds the validated value of a field the body names. */
  lemma {:induction false} MergedFieldNamed(before: UserRecord, body: seq<(string, Value)>, k: string)
    requires DistinctKeys(body) && PatchCheck(body).Ok? && k in Keys(body)
    ensures k in AllowedKeys
    ensures ValidateSingleField(k, Get(body, k)) == Ok(FieldOf(Merge(before, PatchedBody(body)), k))
  {
    var keys := Keys(body);
    assert forall i, j :: 0 <= i < j < |keys| ==> keys[i] != keys[j];
    var patched := PatchFields(body, keys).0;
    assert PatchedBody(body) == patched;
    PatchFieldsWritesBack(body, keys, k);
  }

  /** The merged row keeps the stored value of a field the body does not name. */
  lemma {:induction false} MergedFieldKept(before: UserRecord, body: seq<(string, Value)>, k: string)
    requires PatchCheck(body).Ok? && k in AllowedKeys && k !in Keys(body)
    ensures FieldOf(Merge(before, PatchedBody(body)), k) == FieldOf(before, k)
  {
    PatchFieldsKeepsOthers(body, Keys(body), k);
  }

  /** Another user than `id` holds `username` or `email`. */
  predicate TakenByOther(users: seq<UserRecord>, id: int, username: string, email: string) {
    exists u :: u in users && u.id != id && (u.username == username || u.email == email)
  }

  /**
   * Once the patch is accepted and the user's row is found, saving the
   * merged row fails only when another user already holds its username or
   * email (a 500 that changes nothing); the "Couldnt save users to db"
   * branch is never taken.
   */
  lemma {:induction false} ProfileSaveFailsOnlyOnClash(t: Tables, id: int, body: seq<(string, Value)>)
    requires PatchCheck(body).Ok? && UserExists(t.users, id)
    ensures var s := ChangeUserInfoSpec(t, Some(id), body);
            var m := Merge(UserById(t.users, id).value, PatchedBody(body));
            && (s.result.Sent? <==> !TakenByOther(t.users, id, m.username, m.email))
            && (s.result.Failed? ==> s.tables == t && ErrorHandler(s.result.error).status == 500)
  {
    var m := Merge(UserById(t.users, id).value, PatchedBody(body));
    assert ChangeUserInfoSpec(t, Some(id), body) == SaveProfile(t, id, m);
    SaveExistingProfile(t, id, m);
  }

  lemma {:induction false} SaveExistingProfile(t: Tables, id: int, m: UserRecord)
    requires UserExists(t.users, id)
    ensures var s := SaveProfile(t, id, m);
            && (s.result.Sent? <==> !TakenByOther(t.users, id, m.username, m.email))
            && (s.result.Failed? ==> ErrorHandler(s.result.error).status == 500)
  {
    var updated := UpdateUser(t, id, m.username, m.fname, m.lname, m.email);
    assert updated.result.Ok? ==> updated.result.value == 1;
    assert updated.result.Err? <==> TakenByOther(t.users, id, m.username, m.email);
  }

  // ----- account deletion -----

  /** `deleteUser`: 401 without a user; deleting anything but exactly one row is an error. */
  function DeleteUserSpec(t: Tables, authUser: Option<int>): (s: Step<Outcome>)
    ensures authUser.None? ==> s == Step(t, Failed(NotAuthenticated401))
    ensures authUser.Some? ==> s.tables == DeleteUser(t, authUser.value).tables
    ensures authUser.Some? ==> (s.result.Sent? <==> UserExists(t.users, authUser.value))
    ensures s.result.Failed? ==> s.tables == t
  {
    if authUser.None? then Step(t, Failed(NotAuthenticated401))
    else
      var deleted := DeleteUser(t, authUser.value);
      if deleted.result != 1 then Step(deleted.tables, Failed(OtherError("Couldnt delete user from db")))
      else Step(deleted.tables, Sent(200, Message("User Deleted")))
  }

  /**
   * Deleting the account removes the user's row, credential and sessions,
   * so the user can neither log in nor refresh afterwards; everybody else's
   * rows stay.
   */
  lemma {:induction false} DeleteUserCascades(t: Tables, id: int)
    requires Valid(t)
    requires DeleteUserSpec(t, Some(id)).result.Sent?
    ensures var after := DeleteUserSpec(t, Some(id)).tables;
            && UserById(after.users, id).None?
            && UserPwdHash(after.auth, id).None?
            && SessionOf(after.sessions, id).None?
            && (forall u :: u in t.users && u.id != id ==> u in after.users)
            && (forall r :: r in t.sessions && r.userId != id ==> r in after.sessions)
            && Valid(after)
  {
  }

  // ----- password change -----

  /**
   * `changeUserPassword`: the body first (400), then old and new must differ
   * (an HttpError without status), then the user (401), its stored hash, the
   * old password against it (400), and finally the stored hash is replaced
   * by a hash of the new password, which must change exactly one row.
   */
  function ChangePasswordSpec(t: Tables, authUser: Option<int>, pwd: Option<PasswordChange>, salt: int, nowMs: int): (s: Step<Outcome>)
    ensures s.result.Failed? ==> s.tables == t
    ensures pwd.Some? && pwd.value.oldPassword != pwd.value.newPassword && authUser.None? ==>
              s == Step(t, Failed(NotAuthorized)) && ErrorHandler(s.result.error).status == 401
    ensures pwd.Some? && pwd.value.oldPassword != pwd.value.newPassword && authUser.Some? && authUser.value !in t.auth ==>
              s.tables == t && s.result.Failed? && s.result.error.OtherError? && ErrorHandler(s.result.error).status == 500
  {
    if pwd.None? then Step(t, Failed(BadRequestBody))
    else if pwd.value.oldPassword == pwd.value.newPassword then Step(t, Failed(SamePassword))
    else if authUser.None? then Step(t, Failed(NotAuthorized))
    else
      var id := authUser.value;
      match UserPwdHash(t.auth, id)
      case None => Step(t, Failed(OtherError("Couldnt get user pwd from db")))
      case Some(stored) =>
        if !ConfirmUserPassword(pwd.value.oldPassword, stored) then Step(t, Failed(InvalidOldPassword))
        else
          var updated := UpdateUserPwd(t, HashUserPassword(pwd.value.newPassword, salt), id, nowMs);
          if updated.result != 1 then Step(updated.tables, Failed(OtherError("Couldnt save new pwd to db")))
          else Step(updated.tables, Sent(200, Message("Password Changed Successfuly")))
  }

  /** A missing body is refused with 400 before anything else is looked at. */
  lemma {:induction false} PasswordBodyCheckedFirst(t: Tables, authUser: Option<int>, salt: int, nowMs: int)
    ensures ChangePasswordSpec(t, authUser, None, salt, nowMs) == Step(t, Failed(BadRequestBody))
    ensures ErrorHandler(BadRequestBody).status == 400
  {
  }

  /**
   * A new password equal to the old one is refused before the user, the
   * stored hash or hashing are involved; the error carries no status, so
   * the client sees 500.
   */
  lemma {:induction false} SamePasswordRefused(t: Tables, authUser: Option<int>, p: string, salt: int, nowMs: int)
    ensures ChangePasswordSpec(t, authUser, Some(PasswordChange(p, p)), salt, nowMs) == Step(t, Failed(SamePassword))
    ensures ErrorHandler(SamePassword) == Response(500, "New Password Must Be Different from Old Password")
  {
  }

  /**
   * The password changes exactly when the body is there, the passwords
   * differ, a user is signed in, it has a stored hash and the old password
   * confirms against it. Then only that user's credential changes: it now
   * confirms the new password and no longer the old one. Otherwise the
   * stored hash stays, and a wrong old password is a 400.
   */
  lemma {:induction false} ChangePasswordOutcome(t: Tables, authUser: Option<int>, pwd: Option<PasswordChange>, salt: int, nowMs: int)
    ensures var s := ChangePasswordSpec(t, authUser, pwd, salt, nowMs);
            s.result.Sent? <==>
              && pwd.Some? && pwd.value.oldPassword != pwd.value.newPassword
              && authUser.Some? && authUser.value in t.auth
              && ConfirmUserPassword(pwd.value.oldPassword, t.auth[authUser.value].hash)
    ensures var s := ChangePasswordSpec(t, authUser, pwd, salt, nowMs);
            s.result.Sent? ==>
              var id := authUser.value;
              && s.tables == t.(auth := t.auth[id := Credential(HashUserPassword(pwd.value.newPassword, salt), Some(nowMs))])
              && ConfirmUserPassword(pwd.value.newPassword, UserPwdHash(s.tables.auth, id).value)
              && !ConfirmUserPassword(pwd.value.oldPassword, UserPwdHash(s.tables.auth, id).value)
    ensures var s := ChangePasswordSpec(t, authUser, pwd, salt, nowMs);
            && pwd.Some? && pwd.value.oldPassword != pwd.value.newPassword && authUser.Some? && authUser.value in t.auth
            && !ConfirmUserPassword(pwd.value.oldPassword, t.auth[authUser.value].hash)
            ==> s == Step(t, Failed(InvalidOldPassword))
  {
  }

  /** The handlers, run against the database. */
  class UsersController {
    const db: Database

    constructor (db: Database)
      ensures this.db == db
    {
      this.db := db;
    }

    /** `changeUserInfo`; the body object is the request's, which validation writes into. */
    method ChangeUserInfo(authUser: Option<int>, body: JsObject) returns (out: Outcome)
      modifies db, body
      ensures var s := ChangeUserInfoSpec(old(db.State()), authUser, old(body.props));
              db.State() == s.tables && out == s.result
      ensures body.props == if authUser.None? then old(body.props) else PatchedBody(old(body.props))
    {
      if authUser.None? {
        return Failed(NotAuthenticated403);
      }
      var checked := ValidateUserPatchBody(body);
      if checked.Err? {
        return Failed(checked.error);
      }
      var id := authUser.value;
      var stored := db.GetUserById(id);
      if stored.None? {
        return Failed(UserNotFound);
      }
      var m := Merge(stored.value, body.props);
      var updated := db.UpdateUserStmt(id, m.username, m.fname, m.lname, m.email);
      if updated.Err? {
        return Failed(updated.error);
      }
      if updated.value != 1 {
        return Failed(OtherError("Couldnt save users to db"));
      }
      out := Sent(200, Message("Updated Successfuly"));
    }

    /** `deleteUser`. */
    method DeleteUser(authUser: Option<int>) returns (out: Outcome)
      modifies db
      ensures var s := DeleteUserSpec(old(db.State()), authUser);
              db.State() == s.tables && out == s.result
    {
      if authUser.None? {
        return Failed(NotAuthenticated401);
      }
      var deleted := db.DeleteUserStmt(authUser.value);
      if deleted != 1 {
        return Failed(OtherError("Couldnt delete user from db"));
      }
      out := Sent(200, Message("User Deleted"));
    }

    /** `changeUserPassword`. */
    method ChangeUserPassword(authUser: Option<int>, pwd: Option<PasswordChange>, salt: int, nowMs: int) returns (out: Outcome)
      modifies db
      ensures var s := ChangePasswordSpec(old(db.State()), authUser, pwd, salt, nowMs);
              db.State() == s.tables && out == s.result
    {
      if pwd.None? {
        return Failed(BadRequestBody);
      }
      if pwd.value.oldPassword == pwd.value.newPassword {
        return Failed(SamePassword);
      }
      if authUser.None? {
        return Failed(NotAuthorized);
      }
      var id := authUser.value;
      var stored := db.GetUserPwdHash(id);
      if stored.None? {
        return Failed(OtherError("Couldnt get user pwd from db"));
      }
      if !ConfirmUserPassword(pwd.value.oldPassword, stored.value) {
        return Failed(InvalidOldPassword);
      }
      var newHash := HashUserPassword(pwd.value.newPassword, salt);
      var updated := db.UpdateUserPwdStmt(newHash, id, nowMs);
      if updated != 1 {
        return Failed(OtherError("Couldnt save new pwd to db"));
      }
      out := Sent(200, Message("Password Changed Successfuly"));
    }
  }
}
