/**
 * The `authenticate` middleware of server/src/middleware/auth.ts: pick the
 * token from the request headers, verify it, resolve the subject it names,
 * and attach that account to the request. jsonwebtoken's verify is a
 * parameter that classifies a token as expired, invalid or verified claims.
 */
module Middleware {
  import opened Wrappers
  import opened Text
  import opened ObjectIds
  import opened UserModel
  import opened Session

  const BearerPrefix: string := "Bearer "

  /**
   * The headers the middleware reads. Express looks header names up without
   * regard to case, so `Authorization` and `authorization` are one header.
   */
  datatype Headers = Headers(authorization: Option<string>, xAccessToken: Option<string>, token: Option<string>)

  /** `a || b || ''` on two header values: the first non-empty one, else the empty string. */
  function FirstHeader(a: Option<string>, b: Option<string>): (r: string)
    ensures Present(a) ==> r == a.value
    ensures r != "" ==> Some(r) == a || Some(r) == b
    ensures r == "" <==> !Present(a) && !Present(b)
  {
    if Present(a) then a.value else if Present(b) then b.value else ""
  }

  /** The token carried by an Authorization header: after a leading "Bearer " when there is one, trimmed. */
  function TokenFromAuthorization(header: string): (t: string)
    ensures StartsWith(header, BearerPrefix) ==> t == Trim(header[|BearerPrefix|..])
    ensures !StartsWith(header, BearerPrefix) ==> t == Trim(header)
    ensures IsTrimmed(t)
  {
    if StartsWith(header, BearerPrefix) then
      ReplaceLeadingOccurrence(header, BearerPrefix);
      Trim(ReplaceFirst(header, BearerPrefix, ""))
    else Trim(header)
  }

  /** The fallback token from `x-access-token`, else `token`, trimmed. */
  function AlternativeToken(h: Headers): (t: string)
    ensures t == "" <==> Blank(FirstHeader(h.xAccessToken, h.token))
    ensures IsTrimmed(t)
  {
    Trim(FirstHeader(h.xAccessToken, h.token))
  }

  /**
   * `tokenFromHeader || altToken`: a non-empty token from the Authorization
   * header wins; only when it is empty do the other two headers count.
   */
  function SelectToken(h: Headers): (t: string)
    ensures TokenFromAuthorization(FirstHeader(h.authorization, None)) != "" ==>
      t == TokenFromAuthorization(FirstHeader(h.authorization, None))
    ensures TokenFromAuthorization(FirstHeader(h.authorization, None)) == "" ==> t == AlternativeToken(h)
    ensures t == "" <==> TokenFromAuthorization(FirstHeader(h.authorization, None)) == "" && AlternativeToken(h) == ""
    ensures IsTrimmed(t)
  {
    var fromHeader := TokenFromAuthorization(FirstHeader(h.authorization, None));
    if fromHeader != "" then fromHeader else AlternativeToken(h)
  }

  /** `decoded?.id ?? decoded?.userId`: `id` whenever it is set (even when empty), else `userId`. */
  function ResolveSubject(c: Claims): (s: Option<string>)
    ensures c.id.Some? ==> s == c.id
    ensures s.Some? ==> s == c.id || s == c.userId
    ensures s.None? <==> c.id.None? && c.userId.None?
  {
    if c.id.Some? then c.id else c.userId
  }

  /** How the middleware ends: one 401 response per failure, or the resolved account. */
  datatype AuthOutcome =
    | NoToken
    | TokenExpired
    | InvalidToken
    | InvalidPayload
    | UnknownUser
    | Authenticated(id: UserId, user: User)

  /**
   * The decision the middleware takes. A subject that is not an id makes
   * findById throw, which the outer catch answers as an invalid token.
   */
  function Authenticate(users: map<UserId, User>, h: Headers, verify: string -> Verification): (o: AuthOutcome)
    ensures o == NoToken <==> SelectToken(h) == ""
    ensures o == TokenExpired <==> SelectToken(h) != "" && verify(SelectToken(h)) == Expired
    ensures var t := SelectToken(h);
      o == InvalidPayload <==> t != "" && verify(t).Verified? && !Present(ResolveSubject(verify(t).payload))
    ensures var t := SelectToken(h);
      o == InvalidToken <==>
        t != "" && (verify(t) == Invalid ||
                    (verify(t).Verified? && Present(ResolveSubject(verify(t).payload))
                     && ParseId(ResolveSubject(verify(t).payload).value).None?))
    ensures var t := SelectToken(h);
      o == UnknownUser <==>
        t != "" && verify(t).Verified? && Present(ResolveSubject(verify(t).payload))
        && ParseId(ResolveSubject(verify(t).payload).value).Some?
        && ParseId(ResolveSubject(verify(t).payload).value).value !in users
    ensures var t := SelectToken(h);
      o.Authenticated? ==>
        && t != "" && verify(t).Verified? && Present(ResolveSubject(verify(t).payload))
        && ParseId(ResolveSubject(verify(t).payload).value) == Some(o.id)
        && o.id in users && o.user == users[o.id]
  {
    var token := SelectToken(h);
    if token == "" then NoToken
    else
      match verify(token)
      case Expired => TokenExpired
      case Invalid => InvalidToken
      case Verified(claims) =>
        var subject := ResolveSubject(claims);
        if !Present(subject) then InvalidPayload
        else
          match FindById(users, subject.value)
          case CastError => InvalidToken
          case Missing => UnknownUser
          case Found(id, user) => Authenticated(id, user)
  }

  /** Without a token the verifier is never consulted: the outcome is the same for every verifier. */
  lemma NoTokenSkipsVerification(users: map<UserId, User>, h: Headers, v1: string -> Verification,
                                 v2: string -> Verification)
    requires SelectToken(h) == ""
    ensures Authenticate(users, h, v1) == NoToken && Authenticate(users, h, v2) == NoToken
  {
  }

  /** "Bearer " followed by a token yields the trimmed token. */
  lemma BearerTokenExtracted(token: string)
    ensures TokenFromAuthorization(BearerPrefix + token) == Trim(token)
  {
    assert (BearerPrefix + token)[..|BearerPrefix|] == BearerPrefix;
    assert (BearerPrefix + token)[|BearerPrefix|..] == token;
  }

  /** A request whose only token is "Bearer <token>", the token trimmed and non-empty, presents that token. */
  lemma BearerHeaderSelected(token: string)
    requires token != "" && IsTrimmed(token)
    ensures SelectToken(Headers(Some(BearerPrefix + token), None, None)) == token
  {
    BearerTokenExtracted(token);
    TrimmedIsFixpoint(token);
  }

  /** A set but empty `id` claim shadows `userId`: such a token is refused as an invalid payload. */
  lemma EmptyIdShadowsUserId(users: map<UserId, User>, h: Headers, verify: string -> Verification)
    requires SelectToken(h) != "" && verify(SelectToken(h)).Verified?
    requires verify(SelectToken(h)).payload.id == Some("")
    ensures Authenticate(users, h, verify) == InvalidPayload
  {
  }

  /**
   * A token that generateToken minted for an existing account, sent as
   * "Bearer <token>" and checked by a verifier that applies jsonwebtoken's
   * expiry test before its lifetime ends, authenticates as that account.
   */
  lemma MintedTokenAuthenticates(users: map<UserId, User>, id: UserId, email: string, issuedMs: nat, nowMs: nat,
                                 token: string, verify: string -> Verification)
    requires id in users && token != "" && IsTrimmed(token)
    requires verify(token) == CheckExpiry(GenerateToken(id, email, issuedMs), nowMs)
    requires nowMs < (issuedMs / MsPerSecond + TokenLifetimeSeconds) * MsPerSecond
    ensures Authenticate(users, Headers(Some(BearerPrefix + token), None, None), verify) == Authenticated(id, users[id])
  {
    BearerHeaderSelected(token);
    var claims := GenerateToken(id, email, issuedMs);
    TokenLifetime(id, email, issuedMs, nowMs);
    assert verify(token) == Verified(claims);
    assert ResolveSubject(claims) == Some(IdString(id));
    FindByIdString(users, id);
    assert FindById(users, IdString(id)) == Found(id, users[id]);
  }

  /** The request object: its headers, and the `user` the middleware may attach. */
  class AuthRequest {
    const headers: Headers
    var user: Option<User>

    constructor (headers: Headers)
      ensures this.headers == headers && user.None?
    {
      this.headers := headers;
      user := None;
    }
  }

  /**
   * The middleware on a request: the account is attached and `next` is
   * called exactly on success; on every failure the request is left as it was.
   */
  method AuthenticateRequest(req: AuthRequest, users: map<UserId, User>, verify: string -> Verification)
    returns (callsNext: bool, outcome: AuthOutcome)
    modifies req
    ensures outcome == Authenticate(users, req.headers, verify)
    ensures callsNext <==> outcome.Authenticated?
    ensures req.user == if callsNext then Some(outcome.user) else old(req.user)
  {
    outcome := Authenticate(users, req.headers, verify);
    callsNext := outcome.Authenticated?;
    if callsNext {
      req.user := Some(outcome.user);
    }
  }
}
