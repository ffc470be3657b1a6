/**
 * `authenticate`, the request hook guarding protected routes: it reads a bearer token
 * (section 2.1 of RFC 6750) from the `Authorization` header and verifies it as an access token.
 * The prefix is matched exactly and case-sensitively, with a single space, which is stricter
 * than the case-insensitive scheme name of section 2.1 of RFC 7235.
 */
module Middleware {
  import opened Wrappers
  import opened Jwt
  import opened Http
  import Session

  const BearerPrefix := "Bearer "
  const NoToken := "Unauthorized - No token provided"
  const InvalidToken := "Unauthorized - Invalid token"

  predicate StartsWith(s: string, prefix: string) {
    |prefix| <= |s| && s[..|prefix|] == prefix
  }

  /** The hook either lets the request through with the decoded payload or answers it itself. */
  datatype Decision = Pass(user: Payload) | Reject(reply: Reply)

  /** The hook's decision for a header (absent, or its text), the access secret and the clock. */
  function Authenticate(header: Option<string>, jwt: Signer, secret: string, now: nat): (d: Decision)
    ensures d.Reject? ==> d.reply.status == 401
    ensures d.Pass? ==> header.Some? && StartsWith(header.value, BearerPrefix) && jwt.verify(header.value[|BearerPrefix|..], secret, now) == Some(d.user)
  {
    if header.None? || !StartsWith(header.value, BearerPrefix) then Reject(Reply(401, ErrorBody(NoToken)))
    else
      var token := header.value[7..];
      match jwt.verify(token, secret, now)
      case None => Reject(Reply(401, ErrorBody(InvalidToken)))
      case Some(decoded) => Pass(decoded)
  }

  /** A header that is absent, or does not begin with exactly `Bearer `, is refused as carrying no token. */
  lemma NoBearerPrefixRejected(header: Option<string>, jwt: Signer, secret: string, now: nat)
    requires header.None? || !StartsWith(header.value, BearerPrefix)
    ensures Authenticate(header, jwt, secret, now) == Reject(Reply(401, ErrorBody(NoToken)))
  {
  }

  /** The token verified is exactly what follows the prefix, so `Bearer ` alone verifies the empty token. */
  lemma BearerTokenExtracted(token: string, jwt: Signer, secret: string, now: nat)
    ensures Authenticate(Some(BearerPrefix + token), jwt, secret, now) ==
      match jwt.verify(token, secret, now)
      case None => Reject(Reply(401, ErrorBody(InvalidToken)))
      case Some(p) => Pass(p)
  {
    assert (BearerPrefix + token)[..|BearerPrefix|] == BearerPrefix;
    assert (BearerPrefix + token)[7..] == token;
  }

  /** The scheme name is matched case-sensitively: `bearer <token>` is refused as carrying no token. */
  lemma LowerCaseSchemeRejected(token: string, jwt: Signer, secret: string, now: nat)
    ensures Authenticate(Some("bearer " + token), jwt, secret, now) == Reject(Reply(401, ErrorBody(NoToken)))
  {
    assert ("bearer " + token)[0] == 'b';
  }

  /**
   * The access token the session manager issues at `issuedMs` passes until its 15 minutes are
   * over and is refused as invalid from then on.
   */
  lemma IssuedAccessTokenAccepted(c: Session.Config, userId: UserId, issuedMs: nat, now: nat)
    requires Jwt.Sound(c.jwt)
    ensures var d := Authenticate(Some(BearerPrefix + Session.AccessToken(c, userId, issuedMs)), c.jwt, c.accessSecret, now);
      && (now < (issuedMs / 1000 + AccessLifetime) * 1000 ==> d == Pass(Claims(userId, AccessLifetime, issuedMs)))
      && (issuedMs + AccessLifetime * 1000 <= now ==> d == Reject(Reply(401, ErrorBody(InvalidToken))))
  {
    var token := Session.AccessToken(c, userId, issuedMs);
    BearerTokenExtracted(token, c.jwt, c.accessSecret, now);
    IssuedTokenVerifies(c.jwt, c.accessSecret, userId, AccessLifetime, issuedMs, now);
  }

  /** The request as the hook sees it: the header, and the `user` slot it fills in. */
  class Request {
    var authorization: Option<string>
    var user: Option<Payload>

    constructor (authorization: Option<string>)
      ensures this.authorization == authorization && user == None
    {
      this.authorization := authorization;
      user := None;
    }
  }

  /** The reply channel: what has been sent, if anything. */
  class Response {
    var sent: Option<Reply>

    constructor ()
      ensures sent == None
    {
      sent := None;
    }
  }

  /** The hook itself: sets `request.user` on success, sends a 401 otherwise, and does nothing else. */
  method AuthenticateRequest(request: Request, reply: Response, jwt: Signer, secret: string, now: nat)
    modifies request`user, reply`sent
    ensures match Authenticate(request.authorization, jwt, secret, now)
      case Pass(p) => request.user == Some(p) && reply.sent == old(reply.sent)
      case Reject(r) => request.user == old(request.user) && reply.sent == Some(r)
  {
    var authHeader := request.authorization;
    if authHeader.None? || !StartsWith(authHeader.value, BearerPrefix) {
      reply.sent := Some(Reply(401, ErrorBody(NoToken)));
      return;
    }
    var token := authHeader.value[7..];
    var decoded := jwt.verify(token, secret, now);
    if decoded.None? {
      reply.sent := Some(Reply(401, ErrorBody(InvalidToken)));
      return;
    }
    request.user := decoded;
  }
}
