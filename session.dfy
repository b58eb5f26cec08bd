/**
 * The session token of server/src/routes/auth.ts (`generateToken`): a signed
 * JWT whose payload is `{ userId, email }` and which expires seven days after
 * it is issued. Signing and the signature check are abstract; the model keeps
 * the claims and the expiry test jsonwebtoken applies to them.
 */
module Session {
  import opened Wrappers
  import opened ObjectIds

  const MsPerSecond: nat := 1000
  /** `expiresIn: '7d'`, in seconds. */
  const TokenLifetimeSeconds: nat := 7 * 24 * 60 * 60

  /** A token's claims. `id` is the older name for the subject that the middleware still accepts. */
  datatype Claims = Claims(id: Option<string>, userId: Option<string>, email: Option<string>, iat: nat, exp: nat)

  /** What verifying a token yields. */
  datatype Verification = Expired | Invalid | Verified(payload: Claims)

  /** generateToken: subject under `userId`, the account's email, iat in whole seconds, exp seven days later. */
  function GenerateToken(userId: nat, email: string, nowMs: nat): (c: Claims)
    ensures c.userId == Some(IdString(userId)) && c.id.None? && c.email == Some(email)
    ensures c.iat * MsPerSecond <= nowMs < (c.iat + 1) * MsPerSecond
    ensures c.exp == c.iat + TokenLifetimeSeconds
  {
    var iat := nowMs / MsPerSecond;
    Claims(None, Some(IdString(userId)), Some(email), iat, iat + TokenLifetimeSeconds)
  }

  /** jsonwebtoken's expiry test on correctly signed claims: expired once the clock, in whole seconds, reaches exp. */
  function CheckExpiry(c: Claims, nowMs: nat): (v: Verification)
    ensures v != Invalid
    ensures v.Verified? ==> v.payload == c
  {
    if nowMs / MsPerSecond >= c.exp then Expired else Verified(c)
  }

  /** A freshly generated token passes the expiry test for seven days from its issue second, and fails after. */
  lemma TokenLifetime(userId: nat, email: string, issuedMs: nat, nowMs: nat)
    ensures var c := GenerateToken(userId, email, issuedMs);
      CheckExpiry(c, nowMs).Verified? <==> nowMs < (issuedMs / MsPerSecond + TokenLifetimeSeconds) * MsPerSecond
  {
  }

  /** In particular it is accepted at every instant from its issue up to seven days minus one second later. */
  lemma TokenAcceptedWithinWindow(userId: nat, email: string, issuedMs: nat, nowMs: nat)
    requires issuedMs <= nowMs < issuedMs + (TokenLifetimeSeconds - 1) * MsPerSecond
    ensures CheckExpiry(GenerateToken(userId, email, issuedMs), nowMs) == Verified(GenerateToken(userId, email, issuedMs))
  {
    TokenLifetime(userId, email, issuedMs, nowMs);
  }
}
