/**
 * The authentication handlers: sign-up, login, logout and refresh. Login
 * opens a session row for the refresh token it issues; refresh redeems that
 * row once, deleting it and opening a fresh one; logout deletes it.
 *
 * Each handler is a pure specification over the tables (`CreateUserSpec`,
 * `LoginSpec`, `LogoutSpec`, `RefreshSpec`) and a method of
 * `AuthController` that runs the same steps against the `Database` in place.
 * The clock (`nowMs`, milliseconds), the random UUID (`freshId`) and the
 * bcrypt salt are parameters.
 */
module AuthController {
  import opened Wrappers
  import opened Js
  import opened ErrorHandling
  import opened PasswordHasher
  import opened Tokens
  import opened AuthStore
  import opened Validators

  /** What the handler asks of the `refreshToken` cookie. */
  datatype CookieAction =
    | KeepCookie
    | SetRefreshCookie(token: Token, maxAgeMs: int)
    | ClearRefreshCookie

  /** The JSON body of a successful reply. */
  datatype Body =
    | UserCreated(username: string)
    | LoginSuccessful(accessToken: Token)
    | LoggedOut
    | NewAccessToken(accessToken: Token)

  /** A handler either replies itself or passes an error to `next`, which the error middleware answers. */
  datatype Outcome =
    | Sent(status: int, body: Body, cookie: CookieAction)
    | Failed(error: Thrown)

  /** The HTTP status the client sees. */
  function StatusOf(o: Outcome): (status: int)
    ensures o.Sent? ==> status == o.status
    ensures o.Failed? ==> status == ErrorHandler(o.error).status
  {
    match o
    case Sent(status, _, _) => status
    case Failed(e) => ErrorHandler(e).status
  }

  /** The cookie's `maxAge`: seven days. */
  const CookieMaxAgeMs: int := 7 * 24 * 60 * 60 * 1000
  /** The lifetime of a session row opened by refresh: seven days. */
  const RotatedSessionMs: int := 7 * 24 * 60 * 60 * 1000

  const InvalidCredentials: Thrown := HttpError("Invalid username or password", Some(401))
  const NoRefreshToken: Thrown := HttpError("No Refresh Token Found", Some(401))
  const InvalidRefreshToken: Thrown := HttpError("Invalid Refresh Token", Some(401))
  const SessionRevoked: Thrown := HttpError("Session Not Found Or Revoked", Some(403))
  const SessionExpired: Thrown := HttpError("Session Expired", Some(401))
  /** What bcrypt throws when the password it is given is not a string. */
  const HashArgumentError: Thrown := OtherError("data and hash arguments required")

  // ----- sign-up -----

  /**
   * `createUser`: the body's keys, then the trimmed fields, then the hash of
   * the password, then the two rows; 201 with the username.
   */
  function CreateUserSpec(t: Tables, body: seq<(string, Value)>, salt: int): (s: Step<Outcome>)
    ensures Valid(t) && s.result.Failed? ==> s.tables == t
    ensures s.result.Sent? ==> s.result.status == 201
  {
    match ValidateNewUserBody(body)
    case Err(e) => Step(t, Failed(e))
    case Ok(_) =>
      var (props, allStrings) := TrimFields(body, UserInputFields);
      if !allStrings then Step(t, Failed(TypeError))
      else
        var u := NewUserOf(props);
        match CheckNewUser(u)
        case Err(e) => Step(t, Failed(e))
        case Ok(_) =>
          if !u.password.Str? then Step(t, Failed(HashArgumentError))
          else
            var added := AddUserWithAuth(t, u.username, u.fname, u.lname, u.email, HashUserPassword(u.password.s, salt));
            match added.result
            case Err(e) => Step(added.tables, Failed(e))
            case Ok(_) => Step(added.tables, Sent(201, UserCreated(u.username), KeepCookie))
  }

  /**
   * On a consistent database a successful sign-up appends exactly one user,
   * under the next id and with the name given in the reply, stores a
   * credential for it, and opens no session.
   */
  lemma {:induction false} CreateUserAddsOneUser(t: Tables, body: seq<(string, Value)>, salt: int)
    requires Valid(t)
    requires CreateUserSpec(t, body, salt).result.Sent?
    ensures var s := CreateUserSpec(t, body, salt);
            && |s.tables.users| == |t.users| + 1
            && s.tables.users[..|t.users|] == t.users
            && s.tables.users[|t.users|].id == t.nextUserId
            && s.result.body == UserCreated(s.tables.users[|t.users|].username)
            && UserPwdHash(s.tables.auth, t.nextUserId).Some?
            && s.tables.sessions == t.sessions
  {
    var (props, _) := TrimFields(body, UserInputFields);
    var u := NewUserOf(props);
    assert ValidateNewUserBody(body).Ok? && CheckNewUser(u).Ok? && u.password.Str?;
    var added := AddUserWithAuth(t, u.username, u.fname, u.lname, u.email, HashUserPassword(u.password.s, salt));
    assert added.result.Ok? && CreateUserSpec(t, body, salt) == Step(added.tables, Sent(201, UserCreated(u.username), KeepCookie));
    assert added.tables.users[..|t.users|] == t.users;
  }

  // ----- login -----

  /**
   * `loginUser`: the body is checked, the user is looked up by the username
   * as sent (untrimmed), its stored hash must confirm the password, a token
   * pair is issued and a session row expiring at the refresh token's `exp`
   * is inserted; the refresh token goes into the cookie.
   */
  function LoginSpec(t: Tables, keys: JwtKeys, body: seq<(string, Value)>, nowMs: int, freshId: string): (s: Step<Outcome>)
    ensures s.result.Failed? ==> s.tables == t
  {
    match ValidateLoginBody(body)
    case Err(e) => Step(t, Failed(e))
    case Ok(_) =>
      var user := UserByUsername(t.users, StrOf(Get(body, "username")));
      if user.None? then Step(t, Failed(InvalidCredentials))
      else
        var pwdHash := UserPwdHash(t.auth, user.value.id);
        if pwdHash.None? then Step(t, Failed(InvalidCredentials))
        else if !Get(body, "password").Str? then Step(t, Failed(HashArgumentError))
        else if !ConfirmUserPassword(Get(body, "password").s, pwdHash.value) then Step(t, Failed(InvalidCredentials))
        else IssueSession(t, keys, user.value, nowMs, freshId)
  }

  /**
   * The rest of `loginUser` once the password is confirmed: a token pair is
   * issued and a session row is inserted. Every failure here comes from the
   * keys or the database, never from the credentials.
   */
  function IssueSession(t: Tables, keys: JwtKeys, user: UserRecord, nowMs: int, freshId: string): (s: Step<Outcome>)
    ensures s.result.Failed? ==> s.tables == t && s.result.error.OtherError?
  {
    match GenerateJwtToken(keys, user.id, user.username, None, freshId, nowMs)
    case Err(e) => Step(t, Failed(e))
    case Ok(resp) =>
      var refresh := resp.refreshToken;
      var sessionId := refresh.claims.sessionId;
      if sessionId == "" || refresh.exp == 0 then Step(t, Failed(OtherError("Couldnt get sessionId")))
      else
        var inserted := AddSession(t, sessionId, user.id, refresh.exp * 1000);
        match inserted.result
        case Err(e) => Step(inserted.tables, Failed(e))
        case Ok(_) =>
          Step(inserted.tables, Sent(200, LoginSuccessful(resp.accessToken), SetRefreshCookie(refresh, CookieMaxAgeMs)))
  }

  /** The credentials of a login body that passed its checks. */
  predicate LoginBodyOk(body: seq<(string, Value)>) {
    ValidateLoginBody(body).Ok?
  }

  /**
   * The three ways a well-formed login can fail on its credentials get one
   * and the same 401 reply, so the reply does not tell whether the username
   * exists: an unknown username, a user without a stored hash, and a wrong
   * password. No other step fails with that error.
   */
  lemma {:induction false} LoginFailuresIndistinguishable(t: Tables, keys: JwtKeys, body: seq<(string, Value)>, nowMs: int, freshId: string)
    requires LoginBodyOk(body)
    ensures var s := LoginSpec(t, keys, body, nowMs, freshId);
            var user := UserByUsername(t.users, StrOf(Get(body, "username")));
            s.result == Failed(InvalidCredentials) <==>
              || user.None?
              || UserPwdHash(t.auth, user.value.id).None?
              || (Get(body, "password").Str? && !ConfirmUserPassword(Get(body, "password").s, UserPwdHash(t.auth, user.value.id).value))
    ensures LoginSpec(t, keys, body, nowMs, freshId).result == Failed(InvalidCredentials) ==>
              StatusOf(LoginSpec(t, keys, body, nowMs, freshId).result) == 401
  {
  }

  /**
   * A successful login inserts exactly one session row and changes nothing
   * else: the row's id is the session id inside the refresh token set in the
   * cookie, its user is the token's user, and it expires at the token's
   * `exp` times 1000. The cookie itself lives seven days.
   */
  lemma {:induction false} LoginOpensOneSession(t: Tables, keys: JwtKeys, body: seq<(string, Value)>, nowMs: int, freshId: string)
    requires LoginSpec(t, keys, body, nowMs, freshId).result.Sent?
    ensures var s := LoginSpec(t, keys, body, nowMs, freshId);
            && s.result.cookie.SetRefreshCookie?
            && s.result.cookie.maxAgeMs == CookieMaxAgeMs
            && var token := s.result.cookie.token;
            && token.Signed? && token.claims.RefreshClaims?
            && s.tables == t.(sessions := t.sessions + [SessionRow(token.claims.sessionId, token.claims.userId, token.exp * 1000)])
            && UserExists(t.users, token.claims.userId)
            && token.exp * 1000 - CookieMaxAgeMs > nowMs
  {
    var user := UserByUsername(t.users, StrOf(Get(body, "username")));
    assert user.Some? && LoginSpec(t, keys, body, nowMs, freshId) == IssueSession(t, keys, user.value, nowMs, freshId);
    IssueSessionOpensOne(t, keys, user.value, nowMs, freshId);
  }

  lemma {:induction false} IssueSessionOpensOne(t: Tables, keys: JwtKeys, user: UserRecord, nowMs: int, freshId: string)
    requires IssueSession(t, keys, user, nowMs, freshId).result.Sent?
    ensures var s := IssueSession(t, keys, user, nowMs, freshId);
            && s.result.cookie.SetRefreshCookie?
            && s.result.cookie.maxAgeMs == CookieMaxAgeMs
            && var token := s.result.cookie.token;
            && token.Signed? && token.claims.RefreshClaims? && token.claims.userId == user.id
            && s.tables == t.(sessions := t.sessions + [SessionRow(token.claims.sessionId, user.id, token.exp * 1000)])
            && UserExists(t.users, user.id)
            && token.exp * 1000 - CookieMaxAgeMs > nowMs
  {
    var resp := GenerateJwtToken(keys, user.id, user.username, None, freshId, nowMs).value;
    assert resp.refreshToken.exp == Seconds(nowMs) + RefreshLifetime;
  }

  /**
   * A well-formed login succeeds exactly when the named user has a stored
   * hash that confirms the password, both keys are loaded, and a session row
   * can be opened: a non-empty fresh id not yet in the table and a refresh
   * token whose `exp` is not 0.
   */
  lemma {:induction false} LoginSucceeds(t: Tables, keys: JwtKeys, body: seq<(string, Value)>, nowMs: int, freshId: string)
    requires LoginBodyOk(body)
    ensures var s := LoginSpec(t, keys, body, nowMs, freshId);
            var user := UserByUsername(t.users, StrOf(Get(body, "username")));
            s.result.Sent? <==>
              && user.Some?
              && UserPwdHash(t.auth, user.value.id).Some?
              && Get(body, "password").Str?
              && ConfirmUserPassword(Get(body, "password").s, UserPwdHash(t.auth, user.value.id).value)
              && KeyLoaded(keys.secretKey) && KeyLoaded(keys.refreshKey)
              && freshId != "" && Seconds(nowMs) + RefreshLifetime != 0
              && !SessionExists(t.sessions, freshId)
    ensures LoginSpec(t, keys, body, nowMs, freshId).result.Sent? ==> StatusOf(LoginSpec(t, keys, body, nowMs, freshId).result) == 200
  {
    var user := UserByUsername(t.users, StrOf(Get(body, "username")));
    var pwd := Get(body, "password");
    if user.Some? && UserPwdHash(t.auth, user.value.id).Some? && pwd.Str?
       && ConfirmUserPassword(pwd.s, UserPwdHash(t.auth, user.value.id).value) {
      assert UserExists(t.users, user.value.id) by { assert user.value in t.users; }
      assert LoginSpec(t, keys, body, nowMs, freshId) == IssueSession(t, keys, user.value, nowMs, freshId);
      IssueSessionSucceeds(t, keys, user.value, nowMs, freshId);
    } else {
      assert LoginSpec(t, keys, body, nowMs, freshId).result.Failed?;
    }
  }

  /** Issuing a session for an existing user succeeds exactly when the keys are loaded and the row can be inserted. */
  lemma {:induction false} IssueSessionSucceeds(t: Tables, keys: JwtKeys, user: UserRecord, nowMs: int, freshId: string)
    requires UserExists(t.users, user.id)
    ensures IssueSession(t, keys, user, nowMs, freshId).result.Sent? <==>
              && KeyLoaded(keys.secretKey) && KeyLoaded(keys.refreshKey)
              && freshId != "" && Seconds(nowMs) + RefreshLifetime != 0
              && !SessionExists(t.sessions, freshId)
  {
  }

  /** Logging in with a username sent with surrounding spaces looks up the padded name, not the stored one. */
  lemma {:induction false} LoginLooksUpUntrimmedName(t: Tables, keys: JwtKeys, body: seq<(string, Value)>, nowMs: int, freshId: string)
    requires LoginBodyOk(body)
    requires !(exists u :: u in t.users && Str(u.username) == Get(body, "username"))
    ensures LoginSpec(t, keys, body, nowMs, freshId) == Step(t, Failed(InvalidCredentials))
  {
  }

  // ----- logout -----

  /**
   * `logoutUser`: without the refresh key nothing can be checked; without a
   * cookie the user is already logged out; otherwise the verified token's
   * session row is deleted, and deleting nothing is an error.
   */
  function LogoutSpec(t: Tables, keys: JwtKeys, cookie: Option<Token>, nowMs: int): (s: Step<Outcome>)
    ensures s.result.Failed? && !s.result.error.OtherError? ==> false
  {
    if !KeyLoaded(keys.refreshKey) then Step(t, Failed(OtherError("Coudlnt load JWT keys")))
    else if cookie.None? || !TokenPresent(cookie.value) then Step(t, Sent(200, LoggedOut, KeepCookie))
    else
      match Verify(cookie.value, keys.refreshKey.value, nowMs)
      case Err(e) => Step(t, Failed(e))
      case Ok(claims) =>
        // An access token's claims have no `sessionId`; binding `undefined` makes the statement throw.
        if !claims.RefreshClaims? then Step(t, Failed(OtherError("Too few parameter values were provided")))
        else
          var deleted := DeleteSession(t, claims.sessionId);
          if deleted.result == 0 then Step(deleted.tables, Failed(OtherError("Couldnt delete session from db")))
          else Step(deleted.tables, Sent(200, LoggedOut, ClearRefreshCookie))
  }

  /** Without a cookie, logout succeeds, leaves every table alone and does not touch the cookie. */
  lemma {:induction false} LogoutWithoutCookie(t: Tables, keys: JwtKeys, cookie: Option<Token>, nowMs: int)
    requires KeyLoaded(keys.refreshKey)
    requires cookie.None? || !TokenPresent(cookie.value)
    ensures LogoutSpec(t, keys, cookie, nowMs) == Step(t, Sent(200, LoggedOut, KeepCookie))
  {
  }

  /**
   * With a valid refresh token, logout deletes exactly the token's session
   * row and nothing else; it clears the cookie when a row went and is an
   * error (500) when none did.
   */
  lemma {:induction false} LogoutDeletesOnlyItsSession(t: Tables, keys: JwtKeys, token: Token, nowMs: int)
    requires Valid(t) && KeyLoaded(keys.refreshKey)
    requires Verify(token, keys.refreshKey.value, nowMs).Ok?
    requires token.claims.RefreshClaims?
    ensures var s := LogoutSpec(t, keys, Some(token), nowMs);
            var sid := token.claims.sessionId;
            && s.tables == t.(sessions := RemoveSession(t.sessions, sid))
            && (s.result.Sent? <==> SessionExists(t.sessions, sid))
            && (s.result.Sent? ==> s.result.cookie == ClearRefreshCookie)
            && (s.result.Failed? ==> StatusOf(s.result) == 500 && s.tables == t)
  {
    DeleteSessionCount(t.sessions, token.claims.sessionId);
  }

  /** Logging out twice with the same token: the second call finds no row and fails with 500. */
  lemma {:induction false} SecondLogoutFails(t: Tables, keys: JwtKeys, token: Token, nowMs: int, laterMs: int)
    requires Valid(t) && KeyLoaded(keys.refreshKey)
    requires Verify(token, keys.refreshKey.value, nowMs).Ok? && Verify(token, keys.refreshKey.value, laterMs).Ok?
    requires token.claims.RefreshClaims?
    ensures var first := LogoutSpec(t, keys, Some(token), nowMs);
            var second := LogoutSpec(first.tables, keys, Some(token), laterMs);
            && second.tables == first.tables
            && second.result == Failed(OtherError("Couldnt delete session from db"))
  {
    var first := LogoutSpec(t, keys, Some(token), nowMs);
    LogoutDeletesOnlyItsSession(t, keys, token, nowMs);
    assert !SessionExists(first.tables.sessions, token.claims.sessionId);
  }

  // ----- refresh -----

  /**
   * `refreshLogin`: the refresh key must be loaded and the cookie present;
   * the verified token must name a session; the user's session row (the
   * first one in the table) must be that session; an expired row is deleted
   * and answered with 401; otherwise the row is deleted, which must remove
   * exactly one row, a new token pair is issued for a fresh session id, and
   * a row for it expiring seven days from now is inserted.
   */
  function RefreshSpec(t: Tables, keys: JwtKeys, cookie: Option<Token>, nowMs: int, freshId: string): (s: Step<Outcome>)
    ensures s.result.Sent? ==>
              && s.result.status == 200
              && s.result.cookie.SetRefreshCookie? && s.result.cookie.maxAgeMs == CookieMaxAgeMs
              && s.result.cookie.token.Signed?
              && s.result.cookie.token.claims.RefreshClaims? && s.result.cookie.token.claims.sessionId == freshId
              && SessionExists(s.tables.sessions, freshId)
    ensures s.result.Failed? && s.tables != t ==> s.result.error == SessionExpired || s.result.error.OtherError? || s.result.error.SqliteError?
  {
    if !KeyLoaded(keys.refreshKey) then Step(t, Failed(OtherError("Couldnt load refresh key")))
    else if cookie.None? || !TokenPresent(cookie.value) then Step(t, Failed(NoRefreshToken))
    else
      match Verify(cookie.value, keys.refreshKey.value, nowMs)
      case Err(e) => Step(t, Failed(e))
      case Ok(claims) =>
        if !claims.RefreshClaims? || claims.sessionId == "" then Step(t, Failed(InvalidRefreshToken))
        else
          var session := SessionOf(t.sessions, claims.userId);
          if session.None? || session.value.sessionId != claims.sessionId then Step(t, Failed(SessionRevoked))
          else if session.value.expiresAt < nowMs then
            var deleted := DeleteSession(t, claims.sessionId);
            if deleted.result != 1 then Step(deleted.tables, Failed(OtherError("Expired session was not deleted from db")))
            else Step(deleted.tables, Failed(SessionExpired))
          else
            var deleted := DeleteSession(t, claims.sessionId);
            if deleted.result != 1 then Step(deleted.tables, Failed(OtherError("Session was not deleted from db")))
            else
              match GenerateJwtToken(keys, claims.userId, claims.username, Some(freshId), freshId, nowMs)
              case Err(e) => Step(deleted.tables, Failed(e))
              case Ok(resp) =>
                var inserted := AddSession(deleted.tables, freshId, claims.userId, nowMs + RotatedSessionMs);
                match inserted.result
                case Err(e) => Step(inserted.tables, Failed(e))
                case Ok(_) =>
                  Step(inserted.tables, Sent(200, NewAccessToken(resp.accessToken), SetRefreshCookie(resp.refreshToken, CookieMaxAgeMs)))
  }

  /** Without a cookie, refresh fails with 401 and leaves the tables unchanged. */
  lemma {:induction false} RefreshWithoutCookie(t: Tables, keys: JwtKeys, cookie: Option<Token>, nowMs: int, freshId: string)
    requires KeyLoaded(keys.refreshKey)
    requires cookie.None? || !TokenPresent(cookie.value)
    ensures RefreshSpec(t, keys, cookie, nowMs, freshId) == Step(t, Failed(NoRefreshToken))
    ensures StatusOf(Failed(NoRefreshToken)) == 401
  {
  }

  /** The token's claims, when it is a verified refresh token naming a session. */
  predicate Redeemable(keys: JwtKeys, token: Token, nowMs: int) {
    && KeyLoaded(keys.refreshKey)
    && Verify(token, keys.refreshKey.value, nowMs).Ok?
    && token.claims.RefreshClaims?
    && token.claims.sessionId != ""
  }

  /**
   * When the user's looked-up row is missing or belongs to another session,
   * refresh fails with 403 and deletes nothing.
   */
  lemma {:induction false} RefreshRevoked(t: Tables, keys: JwtKeys, token: Token, nowMs: int, freshId: string)
    requires Redeemable(keys, token, nowMs)
    requires var row := SessionOf(t.sessions, token.claims.userId);
             row.None? || row.value.sessionId != token.claims.sessionId
    ensures RefreshSpec(t, keys, Some(token), nowMs, freshId) == Step(t, Failed(SessionRevoked))
    ensures StatusOf(Failed(SessionRevoked)) == 403
  {
  }

  /**
   * Once a session id has no row, every redemption of a token naming it
   * fails with 403 and changes nothing.
   */
  lemma {:induction false} GoneSessionIsRevoked(t: Tables, keys: JwtKeys, token: Token, nowMs: int, freshId: string)
    requires Redeemable(keys, token, nowMs)
    requires !SessionExists(t.sessions, token.claims.sessionId)
    ensures RefreshSpec(t, keys, Some(token), nowMs, freshId) == Step(t, Failed(SessionRevoked))
  {
    RefreshRevoked(t, keys, token, nowMs, freshId);
  }

  /**
   * A matching row whose expiry is strictly before now is deleted and
   * answered with 401 'Session Expired'; a second attempt with the same
   * token then finds no such row and gets 403.
   */
  lemma {:induction false} RefreshExpired(t: Tables, keys: JwtKeys, token: Token, nowMs: int, laterMs: int, freshId: string, freshId2: string)
    requires Valid(t)
    requires Redeemable(keys, token, nowMs)
    requires var row := SessionOf(t.sessions, token.claims.userId);
             row.Some? && row.value.sessionId == token.claims.sessionId && row.value.expiresAt < nowMs
    ensures var first := RefreshSpec(t, keys, Some(token), nowMs, freshId);
            && first.tables == t.(sessions := RemoveSession(t.sessions, token.claims.sessionId))
            && first.result == Failed(SessionExpired)
            && (Redeemable(keys, token, laterMs) ==>
                  RefreshSpec(first.tables, keys, Some(token), laterMs, freshId2) == Step(first.tables, Failed(SessionRevoked)))
  {
    var sid := token.claims.sessionId;
    assert SessionExists(t.sessions, sid);
    DeleteSessionCount(t.sessions, sid);
    var first := RefreshSpec(t, keys, Some(token), nowMs, freshId);
    if Redeemable(keys, token, laterMs) {
      GoneSessionIsRevoked(first.tables, keys, token, laterMs, freshId2);
    }
  }

  /**
   * A successful refresh deletes exactly the redeemed row and appends one
   * row for the fresh session id, expiring seven days from now; the new
   * refresh token names that session. Users and credentials are untouched.
   * Replaying the redeemed token afterwards gets 403 and changes nothing.
   */
  lemma {:induction false} RefreshRotates(t: Tables, keys: JwtKeys, token: Token, nowMs: int, freshId: string,
                       laterMs: int, freshId2: string)
    requires Valid(t)
    requires Redeemable(keys, token, nowMs)
    requires !SessionExists(t.sessions, freshId)
    requires RefreshSpec(t, keys, Some(token), nowMs, freshId).result.Sent?
    ensures var s := RefreshSpec(t, keys, Some(token), nowMs, freshId);
            var sid := token.claims.sessionId;
            && s.tables == t.(sessions := RemoveSession(t.sessions, sid) + [SessionRow(freshId, token.claims.userId, nowMs + RotatedSessionMs)])
            && |s.tables.sessions| == |t.sessions|
            && s.result.cookie.SetRefreshCookie?
            && s.result.cookie.token.claims == RefreshClaims(token.claims.userId, token.claims.username, freshId)
            && (Redeemable(keys, token, laterMs) ==>
                  RefreshSpec(s.tables, keys, Some(token), laterMs, freshId2) == Step(s.tables, Failed(SessionRevoked)))
  {
    var sid := token.claims.sessionId;
    var s := RefreshSpec(t, keys, Some(token), nowMs, freshId);
    assert SessionExists(t.sessions, sid);
    DeleteSessionCount(t.sessions, sid);
    var deleted := DeleteSession(t, sid);
    assert freshId != sid;
    assert !SessionExists(s.tables.sessions, sid) by {
      assert forall r :: r in s.tables.sessions ==> r in deleted.tables.sessions || r.sessionId == freshId;
    }
    if Redeemable(keys, token, laterMs) {
      GoneSessionIsRevoked(s.tables, keys, token, laterMs, freshId2);
    }
  }

  /**
   * A verified refresh token whose session is the user's row and has not
   * expired is redeemed, provided the access key is loaded and the fresh id
   * is new: the reply is 200 with an access token for the token's user.
   */
  lemma {:induction false} RefreshSucceeds(t: Tables, keys: JwtKeys, token: Token, nowMs: int, freshId: string)
    requires Valid(t)
    requires Redeemable(keys, token, nowMs) && KeyLoaded(keys.secretKey)
    requires var row := SessionOf(t.sessions, token.claims.userId);
             row.Some? && row.value.sessionId == token.claims.sessionId && row.value.expiresAt >= nowMs
    requires !SessionExists(t.sessions, freshId)
    ensures var s := RefreshSpec(t, keys, Some(token), nowMs, freshId);
            && s.result.Sent? && StatusOf(s.result) == 200
            && s.result.body.NewAccessToken?
            && s.result.body.accessToken.claims == AccessClaims(token.claims.userId, token.claims.username)
  {
    var sid := token.claims.sessionId;
    var row := SessionOf(t.sessions, token.claims.userId).value;
    RedeemRow(t, row, freshId, nowMs + RotatedSessionMs);
    var deleted := DeleteSession(t, sid);
    var resp := GenerateJwtToken(keys, token.claims.userId, token.claims.username, Some(freshId), freshId, nowMs);
    var inserted := AddSession(deleted.tables, freshId, token.claims.userId, nowMs + RotatedSessionMs);
    assert RefreshSpec(t, keys, Some(token), nowMs, freshId)
        == Step(inserted.tables, Sent(200, NewAccessToken(resp.value.accessToken), SetRefreshCookie(resp.value.refreshToken, CookieMaxAgeMs)));
  }

  /** Deleting an existing row removes exactly it, after which a new id can be inserted for the row's user. */
  lemma {:induction false} RedeemRow(t: Tables, row: SessionRow, freshId: string, expiresAt: int)
    requires Valid(t) && row in t.sessions
    requires !SessionExists(t.sessions, freshId)
    ensures var deleted := DeleteSession(t, row.sessionId);
            deleted.result == 1 && AddSession(deleted.tables, freshId, row.userId, expiresAt).result.Ok?
  {
    assert SessionExists(t.sessions, row.sessionId);
    DeleteSessionCount(t.sessions, row.sessionId);
    var deleted := DeleteSession(t, row.sessionId);
    assert !SessionExists(deleted.tables.sessions, freshId) by {
      assert forall r :: r in deleted.tables.sessions ==> r in t.sessions;
    }
  }

  /**
   * A refresh that issues anything has deleted exactly one row first: when
   * the delete removes nothing, no row is inserted and no token or cookie is
   * issued.
   */
  lemma {:induction false} NoIssueWithoutDeletion(t: Tables, keys: JwtKeys, token: Token, nowMs: int, freshId: string)
    requires Redeemable(keys, token, nowMs)
    requires DeleteSession(t, token.claims.sessionId).result != 1
    ensures var s := RefreshSpec(t, keys, Some(token), nowMs, freshId);
            && s.result.Failed?
            && (forall r :: r in s.tables.sessions ==> r in t.sessions)
  {
  }

  /**
   * Only the user's first session row can be refreshed: a token for any
   * later session of the same user gets 403, though its row exists.
   */
  lemma {:induction false} LaterSessionOfUserRevoked(t: Tables, keys: JwtKeys, token: Token, nowMs: int, freshId: string, other: SessionRow)
    requires Valid(t)
    requires Redeemable(keys, token, nowMs)
    requires other in t.sessions && other.userId == token.claims.userId && other.sessionId != token.claims.sessionId
    requires SessionOf(t.sessions, token.claims.userId) == Some(other)
    ensures SessionExists(t.sessions, other.sessionId)
    ensures RefreshSpec(t, keys, Some(token), nowMs, freshId) == Step(t, Failed(SessionRevoked))
  {
  }

  /** The handlers, run against the database. */
  class AuthController {
    const db: Database
    const keys: JwtKeys

    constructor (db: Database, keys: JwtKeys)
      ensures this.db == db && this.keys == keys
    {
      this.db := db;
      this.keys := keys;
    }

    /** `createUser`. */
    method CreateUser(body: seq<(string, Value)>, salt: int) returns (out: Outcome)
      modifies db
      ensures var s := CreateUserSpec(old(db.State()), body, salt);
              db.State() == s.tables && out == s.result
    {
      var checked := ValidateNewUserBody(body);
      if checked.Err? {
        return Failed(checked.error);
      }
      var user := new JsObject(body);
      var valid := ValidateUserInput(user);
      if valid.Err? {
        return Failed(valid.error);
      }
      var u := NewUserOf(user.props);
      if !u.password.Str? {
        return Failed(HashArgumentError);
      }
      var hash := HashUserPassword(u.password.s, salt);
      var id := db.AddUserWithAuthStmt(u.username, u.fname, u.lname, u.email, hash);
      if id.Err? {
        return Failed(id.error);
      }
      out := Sent(201, UserCreated(u.username), KeepCookie);
    }

    /** `loginUser`. */
    method Login(body: seq<(string, Value)>, nowMs: int, freshId: string) returns (out: Outcome)
      modifies db
      ensures var s := LoginSpec(old(db.State()), keys, body, nowMs, freshId);
              db.State() == s.tables && out == s.result
    {
      var creds := ValidateLoginBody(body);
      if creds.Err? {
        return Failed(creds.error);
      }
      var user := db.GetUsernameAndId(StrOf(Get(body, "username")));
      if user.None? {
        return Failed(InvalidCredentials);
      }
      var pwdHash := db.GetUserPwdHash(user.value.id);
      if pwdHash.None? {
        return Failed(InvalidCredentials);
      }
      var password := Get(body, "password");
      if !password.Str? {
        return Failed(HashArgumentError);
      }
      if !ConfirmUserPassword(password.s, pwdHash.value) {
        return Failed(InvalidCredentials);
      }
      var resp := GenerateJwtToken(keys, user.value.id, user.value.username, None, freshId, nowMs);
      if resp.Err? {
        return Failed(resp.error);
      }
      var refresh := resp.value.refreshToken;
      var sessionId := refresh.claims.sessionId;
      if sessionId == "" || refresh.exp == 0 {
        return Failed(OtherError("Couldnt get sessionId"));
      }
      var inserted := db.AddSessionStmt(sessionId, user.value.id, refresh.exp * 1000);
      if inserted.Err? {
        return Failed(inserted.error);
      }
      out := Sent(200, LoginSuccessful(resp.value.accessToken), SetRefreshCookie(refresh, CookieMaxAgeMs));
    }

    /** `logoutUser`. */
    method Logout(cookie: Option<Token>, nowMs: int) returns (out: Outcome)
      modifies db
      ensures var s := LogoutSpec(old(db.State()), keys, cookie, nowMs);
              db.State() == s.tables && out == s.result
    {
      if !KeyLoaded(keys.refreshKey) {
        return Failed(OtherError("Coudlnt load JWT keys"));
      }
      if cookie.None? || !TokenPresent(cookie.value) {
        return Sent(200, LoggedOut, KeepCookie);
      }
      var payload := Verify(cookie.value, keys.refreshKey.value, nowMs);
      if payload.Err? {
        return Failed(payload.error);
      }
      if !payload.value.RefreshClaims? {
        return Failed(OtherError("Too few parameter values were provided"));
      }
      var deleted := db.DeleteSessionStmt(payload.value.sessionId);
      if deleted == 0 {
        return Failed(OtherError("Couldnt delete session from db"));
      }
      out := Sent(200, LoggedOut, ClearRefreshCookie);
    }

    /** `refreshLogin`. */
    method Refresh(cookie: Option<Token>, nowMs: int, freshId: string) returns (out: Outcome)
      modifies db
      ensures var s := RefreshSpec(old(db.State()), keys, cookie, nowMs, freshId);
              db.State() == s.tables && out == s.result
    {
      if !KeyLoaded(keys.refreshKey) {
        return Failed(OtherError("Couldnt load refresh key"));
      }
      if cookie.None? || !TokenPresent(cookie.value) {
        return Failed(NoRefreshToken);
      }
      var payload := Verify(cookie.value, keys.refreshKey.value, nowMs);
      if payload.Err? {
        return Failed(payload.error);
      }
      var claims := payload.value;
      if !claims.RefreshClaims? || claims.sessionId == "" {
        return Failed(InvalidRefreshToken);
      }
      var session := db.GetSession(claims.userId);
      if session.None? || session.value.sessionId != claims.sessionId {
        return Failed(SessionRevoked);
      }
      if session.value.expiresAt < nowMs {
        var expiredDeleted := db.DeleteSessionStmt(claims.sessionId);
        if expiredDeleted != 1 {
          return Failed(OtherError("Expired session was not deleted from db"));
        }
        return Failed(SessionExpired);
      }
      var rotatedDeleted := db.DeleteSessionStmt(claims.sessionId);
      if rotatedDeleted != 1 {
        return Failed(OtherError("Session was not deleted from db"));
      }
      var resp := GenerateJwtToken(keys, claims.userId, claims.username, Some(freshId), freshId, nowMs);
      if resp.Err? {
        return Failed(resp.error);
      }
      var inserted := db.AddSessionStmt(freshId, claims.userId, nowMs + RotatedSessionMs);
      if inserted.Err? {
        return Failed(inserted.error);
      }
      out := Sent(200, NewAccessToken(resp.value.accessToken), SetRefreshCookie(resp.value.refreshToken, CookieMaxAgeMs));
    }
  }
}
