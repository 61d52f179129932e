/**
 * The access and refresh tokens issued at login and on refresh. Signing is
 * not modelled: a token records the key it was signed with, its claims,
 * and its issue and expiry times in seconds.
 */
module Tokens {
  import opened Wrappers
  import opened ErrorHandling

  /** The claims of an access token (`id`, `username`) and of a refresh token (`userId`, `username`, `sessionId`). */
  datatype Claims =
    | AccessClaims(id: int, username: string)
    | RefreshClaims(userId: int, username: string, sessionId: string)

  /** A signed token, or a cookie value that is not a token at all. */
  datatype Token =
    | Signed(key: string, claims: Claims, iat: int, exp: int)
    | Malformed(text: string)

  /** A cookie value is truthy unless it is the empty string. */
  predicate TokenPresent(t: Token) {
    t.Signed? || t.text != ""
  }

  /** The two signing keys, read from the environment; a key is loaded when it is set and non-empty. */
  datatype JwtKeys = JwtKeys(secretKey: Option<string>, refreshKey: Option<string>)

  predicate KeyLoaded(k: Option<string>) {
    k.Some? && k.value != ""
  }

  /** `expiresIn: '1h'`, in seconds. */
  const AccessLifetime: int := 60 * 60
  /** `expiresIn: JWT_EXPIRATION` with `JWT_EXPIRATION = '30d'`, in seconds. */
  const RefreshLifetime: int := 30 * 24 * 60 * 60

  /** Seconds since the epoch for a clock reading in milliseconds, as the token library takes it. */
  function Seconds(nowMs: int): int {
    nowMs / 1000
  }

  /** `jwt.sign(claims, key, { expiresIn })` at time `nowMs`. */
  function Sign(claims: Claims, key: string, lifetime: int, nowMs: int): (t: Token)
    ensures t.Signed? && t.key == key && t.claims == claims
    ensures t.exp - t.iat == lifetime
  {
    Signed(key, claims, Seconds(nowMs), Seconds(nowMs) + lifetime)
  }

  /**
   * `jwt.verify(token, key)` at time `nowMs`: the claims of a token signed
   * with `key` whose expiry has not been reached; anything else throws.
   */
  function Verify(token: Token, key: string, nowMs: int): (r: Result<Claims, Thrown>)
    ensures r.Ok? <==> token.Signed? && token.key == key && Seconds(nowMs) < token.exp
    ensures r.Ok? ==> r.value == token.claims
    ensures r.Err? ==> r.error.OtherError?
  {
    match token
    case Malformed(_) => Err(OtherError("jwt malformed"))
    case Signed(k, claims, _, exp) =>
      if k != key then Err(OtherError("invalid signature"))
      else if Seconds(nowMs) >= exp then Err(OtherError("jwt expired"))
      else Ok(claims)
  }

  /** A token verifies with the key it was signed with until its lifetime has passed, and never with another key. */
  lemma {:induction false} SignVerify(claims: Claims, key: string, other: string, lifetime: int, signedAt: int, nowMs: int)
    ensures Verify(Sign(claims, key, lifetime, signedAt), key, nowMs) ==
              if Seconds(nowMs) < Seconds(signedAt) + lifetime then Ok(claims) else Err(OtherError("jwt expired"))
    ensures other != key ==> Verify(Sign(claims, key, lifetime, signedAt), other, nowMs).Err?
  {
  }

  /** What `generateJwtToken` returns. */
  datatype LoginResponse = LoginResponse(sessionId: string, accessToken: Token, refreshToken: Token, message: string)

  /**
   * `generateJwtToken(id, username, sessionId?)`: both keys must be loaded;
   * a non-empty session id is kept, otherwise `freshId` (a new UUID) is used.
   */
  function GenerateJwtToken(keys: JwtKeys, id: int, username: string, sessionId: Option<string>,
                            freshId: string, nowMs: int): (r: Result<LoginResponse, Thrown>)
    ensures r.Err? <==> !KeyLoaded(keys.secretKey) || !KeyLoaded(keys.refreshKey)
    ensures r.Err? ==> r.error == OtherError("Jwt Keys Not Loaded")
    ensures r.Ok? ==> r.value.sessionId == if sessionId.Some? && sessionId.value != "" then sessionId.value else freshId
    ensures r.Ok? ==> r.value.accessToken == Sign(AccessClaims(id, username), keys.secretKey.value, AccessLifetime, nowMs)
    ensures r.Ok? ==> r.value.refreshToken ==
                        Sign(RefreshClaims(id, username, r.value.sessionId), keys.refreshKey.value, RefreshLifetime, nowMs)
  {
    if !KeyLoaded(keys.secretKey) || !KeyLoaded(keys.refreshKey) then Err(OtherError("Jwt Keys Not Loaded"))
    else
      var finalSessionId := if sessionId.Some? && sessionId.value != "" then sessionId.value else freshId;
      var access := Sign(AccessClaims(id, username), keys.secretKey.value, AccessLifetime, nowMs);
      var refresh := Sign(RefreshClaims(id, username, finalSessionId), keys.refreshKey.value, RefreshLifetime, nowMs);
      Ok(LoginResponse(finalSessionId, access, refresh, "Verified"))
  }

  /**
   * The pair issued together describes one user: the refresh token's
   * `userId` is the access token's `id`, both carry the same username, the
   * returned session id is the one inside the refresh token, and the access
   * token carries no session id.
   */
  lemma {:induction false} IssuedPairAgrees(keys: JwtKeys, id: int, username: string, sessionId: Option<string>, freshId: string, nowMs: int)
    requires GenerateJwtToken(keys, id, username, sessionId, freshId, nowMs).Ok?
    ensures var resp := GenerateJwtToken(keys, id, username, sessionId, freshId, nowMs).value;
            && resp.accessToken.claims.AccessClaims?
            && resp.refreshToken.claims.RefreshClaims?
            && resp.refreshToken.claims.userId == resp.accessToken.claims.id == id
            && resp.refreshToken.claims.username == resp.accessToken.claims.username == username
            && resp.refreshToken.claims.sessionId == resp.sessionId
  {
  }

  /**
   * With distinct keys neither token of a pair passes for the other: the
   * refresh token fails verification with the access key and vice versa.
   */
  lemma {:induction false} TokensNotInterchangeable(keys: JwtKeys, id: int, username: string, sessionId: Option<string>,
                                 freshId: string, nowMs: int, laterMs: int)
    requires GenerateJwtToken(keys, id, username, sessionId, freshId, nowMs).Ok?
    requires keys.secretKey != keys.refreshKey
    ensures var resp := GenerateJwtToken(keys, id, username, sessionId, freshId, nowMs).value;
            && Verify(resp.refreshToken, keys.secretKey.value, laterMs).Err?
            && Verify(resp.accessToken, keys.refreshKey.value, laterMs).Err?
  {
  }

  /** The access token lives one hour and the refresh token thirty days. */
  lemma {:induction false} Lifetimes(keys: JwtKeys, id: int, username: string, sessionId: Option<string>, freshId: string, nowMs: int)
    requires GenerateJwtToken(keys, id, username, sessionId, freshId, nowMs).Ok?
    ensures var resp := GenerateJwtToken(keys, id, username, sessionId, freshId, nowMs).value;
            && resp.accessToken.exp == Seconds(nowMs) + 3600
            && resp.refreshToken.exp == Seconds(nowMs) + 2592000
  {
  }
}
