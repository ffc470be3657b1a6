/**
 * The JSON Web Token library (RFC 7519) as the session manager uses it: `sign` turns a payload
 * into a compact token string under a secret, `verify` gives the payload back or fails.
 * The library itself is not modelled; a `Signer` is any pair of functions that behaves as
 * `Sound` says. Nothing cryptographic (unforgeability, secrecy) is assumed.
 */
module Jwt {
  import opened Wrappers

  type UserId = nat

  /** The claims the service signs: `{ userId }` plus the library's `iat` and `exp`, in seconds. */
  datatype Payload = Payload(userId: UserId, iat: nat, exp: nat)

  /** `expiresIn: '15m'` for access tokens. */
  const AccessLifetime: nat := 900
  /** `expiresIn: '7d'` for refresh tokens. */
  const RefreshLifetime: nat := 604800

  /** The payload `jwt.sign({ userId }, secret, { expiresIn })` produces at clock time `nowMs`. */
  function Claims(userId: UserId, lifetime: nat, nowMs: nat): (p: Payload)
    ensures p.userId == userId && p.exp == p.iat + lifetime
    ensures p.iat * 1000 <= nowMs < p.iat * 1000 + 1000
  {
    Payload(userId, nowMs / 1000, nowMs / 1000 + lifetime)
  }

  /** `sign(secret, payload)` and `verify(token, secret, nowMs)`. */
  datatype Signer = Signer(sign: (string, Payload) -> string, verify: (string, string, nat) -> Option<Payload>)

  /**
   * What the service relies on: a token verifies under the secret it was signed with, giving back
   * its payload, exactly while the clock (in whole seconds) is before `exp`; and no token at all
   * verifies once its `exp` has passed.
   */
  ghost predicate Sound(j: Signer) {
    && (forall key: string, p: Payload, now: nat :: j.verify(j.sign(key, p), key, now) == if now / 1000 < p.exp then Some(p) else None)
    && (forall token: string, key: string, now: nat :: j.verify(token, key, now).Some? ==> now / 1000 < j.verify(token, key, now).value.exp)
  }

  /** Signing is deterministic, and under one secret it is injective on payloads that can ever verify. */
  lemma SignInjective(j: Signer, key: string, p1: Payload, p2: Payload)
    requires Sound(j)
    requires p1.exp > 0
    requires j.sign(key, p1) == j.sign(key, p2)
    ensures p1 == p2
  {
    assert j.verify(j.sign(key, p1), key, 0) == Some(p1);
    assert j.verify(j.sign(key, p2), key, 0) == if 0 < p2.exp then Some(p2) else None;
  }

  /**
   * A token issued at `issuedMs` with a lifetime of `lifetime` seconds verifies at `nowMs` exactly
   * while `nowMs` is before `exp * 1000`, where `exp = iat + lifetime`; in particular it never
   * verifies at or after `issuedMs + lifetime * 1000`.
   */
  lemma IssuedTokenVerifies(j: Signer, key: string, userId: UserId, lifetime: nat, issuedMs: nat, nowMs: nat)
    requires Sound(j)
    ensures var v := j.verify(j.sign(key, Claims(userId, lifetime, issuedMs)), key, nowMs);
      && (v.Some? <==> nowMs < (issuedMs / 1000 + lifetime) * 1000)
      && (v.Some? ==> v.value.userId == userId)
      && (issuedMs + lifetime * 1000 <= nowMs ==> v.None?)
  {
    var p := Claims(userId, lifetime, issuedMs);
    assert j.verify(j.sign(key, p), key, nowMs) == if nowMs / 1000 < p.exp then Some(p) else None;
    SecondsBefore(nowMs, p.exp);
  }

  /** The clock in whole seconds is before `s` exactly when the clock in milliseconds is before `s * 1000`. */
  lemma SecondsBefore(ms: nat, s: nat)
    ensures ms / 1000 < s <==> ms < s * 1000
  {
  }
}
