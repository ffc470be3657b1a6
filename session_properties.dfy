/**
 * What the session manager guarantees across calls: the store invariant is kept, a refresh
 * token is single-use for as long as the clock does not run backwards, logout revokes, login
 * and refresh do not reveal which check failed, and, at one clock reading, the stored owner and
 * expiry checks never decide a refresh that the token check passed.
 */
module SessionProperties {
  import opened Wrappers
  import opened Jwt
  import opened Store
  import opened Session

  // ---------------------------------------------------------------------------------------
  // The invariant is kept by every operation.

  lemma IssuePreservesWellFormed(c: Config, db: Db, userId: UserId, now: nat)
    requires WellFormed(c, db)
    requires FindUserById(db.users, userId).Some?
    ensures WellFormed(c, IssueRefreshToken(c, db, userId, now).db)
  {
    var s := IssueRefreshToken(c, db, userId, now);
    if s.outcome.Ok? {
      var row := RefreshRow(db.nextId, s.outcome.value, userId, now + RefreshMs);
      var owner := FindUserById(db.users, userId).value;
      assert owner in db.users && owner.id == row.userId;
      AppendRowConsistent(db, row);
      assert Issued(c, row);
      assert forall x :: x in s.db.rows ==> x in db.rows || x == row;
    }
  }

  lemma RegisterPreservesWellFormed(c: Config, db: Db, email: string, password: string, name: string, now: nat, salt: nat)
    requires WellFormed(c, db)
    ensures WellFormed(c, Register(c, db, email, password, name, now, salt).db)
  {
    var s := Register(c, db, email, password, name, now, salt);
    if s.outcome.Ok? {
      var user := User(db.nextId, email, name, c.hasher.hash(password, HashCost, salt), now, now);
      assert s.db.users == db.users + [user];
      assert forall u :: u in db.users ==> u in s.db.users;
    }
  }

  lemma LoginPreservesWellFormed(c: Config, db: Db, email: string, password: string, now: nat)
    requires WellFormed(c, db)
    ensures WellFormed(c, Login(c, db, email, password, now).db)
  {
    match FindUserByEmail(db.users, email)
    case None =>
    case Some(user) =>
      assert FindUserById(db.users, user.id).Some?;
      IssuePreservesWellFormed(c, db, user.id, now);
  }

  /** Every property of `WellFormed` is about membership, so a store with fewer rows keeps it. */
  lemma FewerRowsPreserveWellFormed(c: Config, db: Db, rows: seq<RefreshRow>)
    requires WellFormed(c, db)
    requires forall x :: x in rows ==> x in db.rows
    ensures WellFormed(c, db.(rows := rows))
  {
  }

  lemma RefreshPreservesWellFormed(c: Config, db: Db, token: string, now: nat, deleteFails: bool)
    requires WellFormed(c, db)
    ensures WellFormed(c, Refresh(c, db, token, now, deleteFails).db)
  {
    match c.jwt.verify(token, c.refreshSecret, now)
    case None =>
    case Some(decoded) =>
      match FindRowByToken(db.rows, token)
      case None =>
      case Some(stored) =>
        if stored.userId == decoded.userId && !(stored.expiresAt < now) {
          IssuePreservesWellFormed(c, db, decoded.userId, now);
          var issued := IssueRefreshToken(c, db, decoded.userId, now);
          FewerRowsPreserveWellFormed(c, issued.db, DeleteRowById(issued.db.rows, stored.id));
        }
  }

  lemma LogoutPreservesWellFormed(c: Config, db: Db, token: string)
    requires WellFormed(c, db)
    ensures WellFormed(c, Logout(db, token))
  {
    FewerRowsPreserveWellFormed(c, db, Logout(db, token).rows);
  }

  // ---------------------------------------------------------------------------------------
  // Register.

  /** Registering the same email a second time fails and changes nothing. */
  lemma RegisterTwiceFails(c: Config, db: Db, email: string, p1: string, n1: string, t1: nat, salt1: nat,
                           p2: string, n2: string, t2: nat, salt2: nat)
    requires Register(c, db, email, p1, n1, t1, salt1).outcome.Ok?
    ensures var d := Register(c, db, email, p1, n1, t1, salt1).db;
      Register(c, d, email, p2, n2, t2, salt2) == Step(d, Fail(Error(EmailExists)))
  {
    var d := Register(c, db, email, p1, n1, t1, salt1).db;
    assert d.users[|d.users| - 1] in d.users;
  }

  /** A user just registered can be looked up by its id, and the lookup shows no password. */
  lemma RegisteredUserIsFound(c: Config, db: Db, email: string, password: string, name: string, now: nat, salt: nat)
    requires WellFormed(c, db)
    requires Register(c, db, email, password, name, now, salt).outcome.Ok?
    ensures var s := Register(c, db, email, password, name, now, salt);
      GetUserById(s.db, s.outcome.value.user.id) == Some(Profile(db.nextId, email, name, now, now))
  {
    var s := Register(c, db, email, password, name, now, salt);
    var user := User(db.nextId, email, name, c.hasher.hash(password, HashCost, salt), now, now);
    assert user in s.db.users;
    var r := FindUserById(s.db.users, db.nextId);
    assert r.value == user;
  }

  /** With sound libraries, a user just registered can log in with the same password at any time. */
  lemma RegisterThenLogin(c: Config, db: Db, email: string, password: string, name: string, now: nat, salt: nat, later: nat)
    requires SoundLibraries(c) && WellFormed(c, db)
    requires Register(c, db, email, password, name, now, salt).outcome.Ok?
    ensures Login(c, Register(c, db, email, password, name, now, salt).db, email, password, later).outcome.Ok?
  {
    var d := Register(c, db, email, password, name, now, salt).db;
    var user := User(db.nextId, email, name, c.hasher.hash(password, HashCost, salt), now, now);
    assert user in d.users;
    var found := FindUserByEmail(d.users, email);
    assert found == Some(user);
    var token := RefreshTokenFor(c, user.id, later);
    forall x | x in d.rows
      ensures x.token != token
    {
      var owner := FindUserById(db.users, x.userId).value;
      assert x.userId < user.id;
      if x.token == token {
        SignInjective(c.jwt, c.refreshSecret, Claims(user.id, RefreshLifetime, later),
                      Claims(x.userId, RefreshLifetime, x.expiresAt - RefreshMs));
        assert false;
      }
    }
  }

  // ---------------------------------------------------------------------------------------
  // Login.

  /** An unknown email and a known email with a wrong password give the very same result. */
  lemma LoginFailuresIndistinguishable(c: Config, db: Db, unknown: string, p1: string, known: string, p2: string, now: nat)
    requires forall u :: u in db.users ==> u.email != unknown
    requires forall u :: u in db.users && u.email == known ==> !c.hasher.compare(p2, u.password)
    ensures Login(c, db, unknown, p1, now) == Step(db, Fail(Error(InvalidCredentials)))
    ensures Login(c, db, known, p2, now) == Step(db, Fail(Error(InvalidCredentials)))
  {
  }

  /**
   * The token library signs deterministically and `iat` is in whole seconds, so a second login
   * of the same user within the same second signs the very same refresh token, which the store
   * refuses: the second login throws the database's error and stores nothing.
   */
  lemma SameSecondLoginCollides(c: Config, db: Db, email: string, password: string, t1: nat, t2: nat)
    requires Login(c, db, email, password, t1).outcome.Ok?
    requires t1 / 1000 == t2 / 1000
    ensures var d := Login(c, db, email, password, t1).db;
      Login(c, d, email, password, t2) == Step(d, Fail(Error(UniqueViolation)))
  {
    var d := Login(c, db, email, password, t1).db;
    var user := FindUserByEmail(db.users, email).value;
    assert Claims(user.id, RefreshLifetime, t1) == Claims(user.id, RefreshLifetime, t2);
    assert d.rows[|d.rows| - 1] in d.rows;
  }

  // ---------------------------------------------------------------------------------------
  // Refresh.

  /**
   * Under the invariant, the row holding a token that verifies belongs to the token's subject
   * and has not expired: the owner check and the (strict) stored-expiry check never reject a
   * token the signature check accepted, because the signed `exp` ends no later than `expiresAt`.
   */
  lemma StoredChecksRedundant(c: Config, db: Db, x: RefreshRow, now: nat)
    requires SoundLibraries(c) && WellFormed(c, db)
    requires x in db.rows
    requires c.jwt.verify(x.token, c.refreshSecret, now).Some?
    ensures c.jwt.verify(x.token, c.refreshSecret, now).value.userId == x.userId
    ensures now < x.expiresAt
  {
    var issuedAt := x.expiresAt - RefreshMs;
    var p := Claims(x.userId, RefreshLifetime, issuedAt);
    assert c.jwt.verify(c.jwt.sign(c.refreshSecret, p), c.refreshSecret, now) == if now / 1000 < p.exp then Some(p) else None;
    IssuedTokenVerifies(c.jwt, c.refreshSecret, x.userId, RefreshLifetime, issuedAt, now);
  }

  /** At or after a row's `expiresAt` its token is refused, although the stored check alone would still accept it at that very instant. */
  lemma ExpiredRowRejected(c: Config, db: Db, x: RefreshRow, now: nat, deleteFails: bool)
    requires SoundLibraries(c) && WellFormed(c, db)
    requires x in db.rows && x.expiresAt <= now
    ensures Refresh(c, db, x.token, now, deleteFails) == Step(db, Fail(Error(InvalidRefreshToken)))
  {
    if c.jwt.verify(x.token, c.refreshSecret, now).Some? {
      StoredChecksRedundant(c, db, x, now);
    }
  }

  /**
   * Under the invariant a refresh succeeds exactly when the token verifies, some row still holds
   * it, the replacement token is not already stored, and the delete does not fail.
   */
  lemma RefreshSucceedsIff(c: Config, db: Db, token: string, now: nat, deleteFails: bool)
    requires SoundLibraries(c) && WellFormed(c, db)
    ensures var v := c.jwt.verify(token, c.refreshSecret, now);
      Refresh(c, db, token, now, deleteFails).outcome.Ok? <==>
        && !deleteFails
        && v.Some?
        && (exists x :: x in db.rows && x.token == token)
        && (forall y :: y in db.rows ==> y.token != RefreshTokenFor(c, v.value.userId, now))
  {
    var v := c.jwt.verify(token, c.refreshSecret, now);
    var found := FindRowByToken(db.rows, token);
    if v.Some? && found.Some? {
      StoredChecksRedundant(c, db, found.value, now);
    }
  }

  /**
   * Under the store's consistency a login succeeds exactly when a user has the email, the
   * password matches its hash, and the refresh token signed for that user now is not stored yet.
   */
  lemma LoginSucceedsIff(c: Config, db: Db, email: string, password: string, now: nat)
    requires Consistent(db)
    ensures Login(c, db, email, password, now).outcome.Ok? <==>
      exists u :: && u in db.users && u.email == email && c.hasher.compare(password, u.password)
                  && forall x :: x in db.rows ==> x.token != RefreshTokenFor(c, u.id, now)
  {
    var found := FindUserByEmail(db.users, email);
    if found.Some? {
      assert forall u :: u in db.users && u.email == email ==> u == found.value;
    }
  }

  /**
   * A successful refresh deletes the redeemed row, stores one new row for the same user, leaves
   * every other row alone and returns a new pair whose refresh token differs from the old one.
   */
  lemma RefreshRotates(c: Config, db: Db, token: string, now: nat, deleteFails: bool)
    requires WellFormed(c, db)
    requires Refresh(c, db, token, now, deleteFails).outcome.Ok?
    ensures var s := Refresh(c, db, token, now, deleteFails);
      var userId := c.jwt.verify(token, c.refreshSecret, now).value.userId;
      && s.db.users == db.users && s.db.nextId == db.nextId + 1
      && s.db.rows == DeleteRowsByToken(db.rows, token) + [RefreshRow(db.nextId, s.outcome.value.refreshToken, userId, now + RefreshMs)]
      && s.outcome.value == TokenPair(AccessToken(c, userId, now), RefreshTokenFor(c, userId, now), ExpiresIn)
      && s.outcome.value.refreshToken != token
      && FindRowByToken(db.rows, token).Some? && FindRowByToken(db.rows, token).value.userId == userId
  {
    var userId := c.jwt.verify(token, c.refreshSecret, now).value.userId;
    var stored := FindRowByToken(db.rows, token).value;
    var row := RefreshRow(db.nextId, RefreshTokenFor(c, userId, now), userId, now + RefreshMs);
    DeleteByIdAppend(db.rows, row, stored.id);
    DeleteByIdIsDeleteByToken(db.rows, stored);
  }

  /** Deleting by an id other than the appended row's commutes with appending it. */
  lemma {:induction false} DeleteByIdAppend(rows: seq<RefreshRow>, row: RefreshRow, id: nat)
    requires row.id != id
    ensures DeleteRowById(rows + [row], id) == DeleteRowById(rows, id) + [row]
  {
    if rows == [] {
      assert rows + [row] == [row];
    } else {
      assert (rows + [row])[1..] == rows[1..] + [row];
      DeleteByIdAppend(rows[1..], row, id);
    }
  }

  /**
   * A refresh token that was redeemed once is refused ever after: whatever registrations, logins,
   * refreshes and logouts follow, as long as the clock does not run backwards, and the refusal
   * changes nothing.
   */
  lemma RefreshIsSingleUse(c: Config, db: Db, token: string, now: nat, deleteFails: bool,
                           calls: seq<Call>, later: nat, deleteFailsLater: bool)
    requires SoundLibraries(c) && WellFormed(c, db) && IssuedBy(db, now)
    requires Refresh(c, db, token, now, deleteFails).outcome.Ok?
    requires forall i :: 0 <= i < |calls| ==> NotBefore(calls[i], now)
    ensures var d := Replay(c, Refresh(c, db, token, now, deleteFails).db, calls);
      Refresh(c, d, token, later, deleteFailsLater) == Step(d, Fail(Error(InvalidRefreshToken)))
  {
    RedeemedRow(c, db, token, now, deleteFails);
    var x := FindRowByToken(db.rows, token).value;
    RedeemedInLaterSecond(c, db, x, now);
    var issuer: UserId, issuedMs: nat :| x.token == RefreshTokenFor(c, issuer, issuedMs) && issuedMs / 1000 < now / 1000;
    AbsentTokenStaysAbsent(c, Refresh(c, db, token, now, deleteFails).db, calls, token, issuer, issuedMs, now);
  }

  /**
   * A successful refresh redeemed a stored, issued row whose replacement was not stored yet,
   * and no row holds the redeemed token afterwards.
   */
  lemma RedeemedRow(c: Config, db: Db, token: string, now: nat, deleteFails: bool)
    requires SoundLibraries(c) && WellFormed(c, db)
    requires Refresh(c, db, token, now, deleteFails).outcome.Ok?
    ensures FindRowByToken(db.rows, token).Some?
    ensures var x := FindRowByToken(db.rows, token).value;
      && x in db.rows && x.token == token && Issued(c, x)
      && forall y :: y in db.rows ==> y.token != RefreshTokenFor(c, x.userId, now)
    ensures forall y :: y in Refresh(c, db, token, now, deleteFails).db.rows ==> y.token != token
  {
    RefreshRotates(c, db, token, now, deleteFails);
    RefreshSucceedsIff(c, db, token, now, deleteFails);
  }

  /**
   * A stored row whose replacement at `now` is not stored yet was signed in an earlier second
   * than `now`: in the same second its replacement would be its own token.
   */
  lemma RedeemedInLaterSecond(c: Config, db: Db, x: RefreshRow, now: nat)
    requires x in db.rows && Issued(c, x) && x.expiresAt <= now + RefreshMs
    requires forall y :: y in db.rows ==> y.token != RefreshTokenFor(c, x.userId, now)
    ensures exists issuer: UserId, issuedMs: nat :: x.token == RefreshTokenFor(c, issuer, issuedMs) && issuedMs / 1000 < now / 1000
  {
    var issuedMs := x.expiresAt - RefreshMs;
    if issuedMs / 1000 == now / 1000 {
      assert false;
    }
    assert x.token == RefreshTokenFor(c, x.userId, issuedMs);
  }

  // ---------------------------------------------------------------------------------------
  // Histories of calls.

  /** A call into the service that can change the store, with the clock reading it is made at. */
  datatype Call =
    | SignUp(email: string, password: string, name: string, now: nat, salt: nat)
    | SignIn(email: string, password: string, now: nat)
    | Redeem(token: string, now: nat, deleteFails: bool)
    | SignOut(token: string)

  /** The store after one call. */
  function Apply(c: Config, db: Db, call: Call): Db {
    match call
    case SignUp(email, password, name, now, salt) => Register(c, db, email, password, name, now, salt).db
    case SignIn(email, password, now) => Login(c, db, email, password, now).db
    case Redeem(token, now, deleteFails) => Refresh(c, db, token, now, deleteFails).db
    case SignOut(token) => Logout(db, token)
  }

  /** The store after a sequence of calls, made one after another. */
  function Replay(c: Config, db: Db, calls: seq<Call>): Db
    decreases |calls|
  {
    if calls == [] then db else Replay(c, Apply(c, db, calls[0]), calls[1..])
  }

  /** The call reads the clock at `t` or later; a logout reads no clock. */
  predicate NotBefore(call: Call, t: nat) {
    call.SignOut? || t <= call.now
  }

  /** No stored row was issued after `now`. */
  ghost predicate IssuedBy(db: Db, now: nat) {
    forall x :: x in db.rows ==> x.expiresAt <= now + RefreshMs
  }

  lemma DivMonotone(a: nat, b: nat)
    requires a <= b
    ensures a / 1000 <= b / 1000
  {
  }

  /** Refresh tokens signed for any users in two different seconds differ. */
  lemma TokensOfDifferentSecondsDiffer(c: Config, userId: UserId, issuedMs: nat, other: UserId, now: nat)
    requires Jwt.Sound(c.jwt)
    requires issuedMs / 1000 != now / 1000
    ensures RefreshTokenFor(c, other, now) != RefreshTokenFor(c, userId, issuedMs)
  {
    if RefreshTokenFor(c, other, now) == RefreshTokenFor(c, userId, issuedMs) {
      SignInjective(c.jwt, c.refreshSecret, Claims(other, RefreshLifetime, now), Claims(userId, RefreshLifetime, issuedMs));
    }
  }

  /** A call made at `t` or later, in a later second than a token was signed in, never stores that token. */
  lemma ApplyKeepsTokenAbsent(c: Config, db: Db, call: Call, token: string, userId: UserId, issuedMs: nat, t: nat)
    requires Jwt.Sound(c.jwt)
    requires token == RefreshTokenFor(c, userId, issuedMs)
    requires forall x :: x in db.rows ==> x.token != token
    requires NotBefore(call, t) && issuedMs / 1000 < t / 1000
    ensures forall x :: x in Apply(c, db, call).rows ==> x.token != token
  {
    if !call.SignOut? {
      DivMonotone(t, call.now);
    }
    match call
    case SignUp(email, password, name, now, salt) =>
    case SignIn(email, password, now) =>
      forall other: UserId
        ensures RefreshTokenFor(c, other, now) != token
      {
        TokensOfDifferentSecondsDiffer(c, userId, issuedMs, other, now);
      }
    case Redeem(redeemed, now, deleteFails) =>
      forall other: UserId
        ensures RefreshTokenFor(c, other, now) != token
      {
        TokensOfDifferentSecondsDiffer(c, userId, issuedMs, other, now);
      }
    case SignOut(revoked) =>
  }

  /** A token absent from the store stays absent through every call made at `t` or later, when `t` falls in a later second than the token was signed in. */
  lemma {:induction false} AbsentTokenStaysAbsent(c: Config, db: Db, calls: seq<Call>, token: string, userId: UserId, issuedMs: nat, t: nat)
    requires Jwt.Sound(c.jwt)
    requires token == RefreshTokenFor(c, userId, issuedMs)
    requires forall x :: x in db.rows ==> x.token != token
    requires issuedMs / 1000 < t / 1000
    requires forall i :: 0 <= i < |calls| ==> NotBefore(calls[i], t)
    ensures forall x :: x in Replay(c, db, calls).rows ==> x.token != token
    decreases |calls|
  {
    if calls != [] {
      ApplyKeepsTokenAbsent(c, db, calls[0], token, userId, issuedMs, t);
      assert forall i :: 0 <= i < |calls[1..]| ==> calls[1..][i] == calls[i + 1];
      AbsentTokenStaysAbsent(c, Apply(c, db, calls[0]), calls[1..], token, userId, issuedMs, t);
    }
  }

  /** When the final `delete` throws, the caller gets the generic error but the new row stays stored. */
  lemma FailedDeleteKeepsNewRow(c: Config, db: Db, token: string, now: nat)
    requires Refresh(c, db, token, now, false).outcome.Ok?
    ensures var userId := c.jwt.verify(token, c.refreshSecret, now).value.userId;
      Refresh(c, db, token, now, true) ==
        Step(db.(rows := db.rows + [RefreshRow(db.nextId, RefreshTokenFor(c, userId, now), userId, now + RefreshMs)],
                 nextId := db.nextId + 1),
             Fail(Error(InvalidRefreshToken)))
  {
  }

  /**
   * A token cannot be redeemed in the second it was issued: the replacement would be signed
   * over the same claims, the store refuses the duplicate, and the refusal changes nothing.
   */
  lemma RefreshInIssuingSecondFails(c: Config, db: Db, x: RefreshRow, now: nat, deleteFails: bool)
    requires SoundLibraries(c) && WellFormed(c, db)
    requires x in db.rows
    requires now / 1000 == (x.expiresAt - RefreshMs) / 1000
    ensures Refresh(c, db, x.token, now, deleteFails) == Step(db, Fail(Error(InvalidRefreshToken)))
  {
    if c.jwt.verify(x.token, c.refreshSecret, now).Some? {
      StoredChecksRedundant(c, db, x, now);
      assert FindRowByToken(db.rows, x.token) == Some(x);
      assert Claims(x.userId, RefreshLifetime, now) == Claims(x.userId, RefreshLifetime, x.expiresAt - RefreshMs);
      assert IssueRefreshToken(c, db, x.userId, now) == Step(db, Fail(Error(UniqueViolation)));
    }
  }

  // ---------------------------------------------------------------------------------------
  // Logout.

  /** Logging out twice is the same as logging out once. */
  lemma LogoutIdempotent(db: Db, token: string)
    ensures Logout(Logout(db, token), token) == Logout(db, token)
  {
    DeleteRowsByTokenIdempotent(db.rows, token);
  }

  /** Logging out with a token no row holds changes nothing. */
  lemma LogoutUnknownToken(db: Db, token: string)
    requires forall x :: x in db.rows ==> x.token != token
    ensures Logout(db, token) == db
  {
    DeleteAbsentToken(db.rows, token);
  }

  /** After logout the token can no longer be redeemed. */
  lemma LogoutRevokes(c: Config, db: Db, token: string, now: nat, deleteFails: bool)
    ensures Refresh(c, Logout(db, token), token, now, deleteFails) == Step(Logout(db, token), Fail(Error(InvalidRefreshToken)))
  {
  }
}
