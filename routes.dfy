/**
 * The five route handlers: each turns what the session manager returned or threw into one
 * reply. Internal error detail is logged (not modelled) and never sent.
 */
module Routes {
  import opened Wrappers
  import opened Jwt
  import opened Store
  import opened Session
  import opened Http
  import SessionProperties

  const RegistrationFailed := "Registration failed"
  const DatabaseError := "Database error"
  const LoginFailed := "Login failed"
  const LogoutSuccessful := "Logout successful"
  const Unauthorized := "Unauthorized"
  const UserNotFound := "User not found"
  const FetchFailed := "Failed to fetch user data"

  /** POST /api/auth/register */
  function RegisterReply(o: Outcome<Registered>): (r: Reply)
    ensures r.status == 201 <==> o.Ok?
    ensures r.status == 400 <==> o == Fail(Error(EmailExists))
    ensures r.status == 201 || r.status == 400 || r.status == 500
    ensures o.Ok? ==> r == Reply(201, RegisteredBody(o.value))
    ensures o == Fail(Error(EmailExists)) ==> r == Reply(400, ErrorBody(EmailExists))
    ensures o.Fail? && o.thrown.Error? && o.thrown.message != EmailExists ==> r == Reply(500, ErrorBody(RegistrationFailed))
    ensures o == Fail(NonError) ==> r == Reply(500, ErrorBody(DatabaseError))
  {
    match o
    case Ok(result) => Reply(201, RegisteredBody(result))
    case Fail(Error(message)) =>
      if message == EmailExists then Reply(400, ErrorBody(message)) else Reply(500, ErrorBody(RegistrationFailed))
    case Fail(NonError) => Reply(500, ErrorBody(DatabaseError))
  }

  /** POST /api/auth/login */
  function LoginReply(o: Outcome<LoggedIn>): (r: Reply)
    ensures r.status == 200 <==> o.Ok?
    ensures r.status == 401 <==> o == Fail(Error(InvalidCredentials))
    ensures r.status == 200 || r.status == 401 || r.status == 500
    ensures o.Ok? ==> r == Reply(200, LoggedInBody(o.value))
    ensures o == Fail(Error(InvalidCredentials)) ==> r == Reply(401, ErrorBody(InvalidCredentials))
    ensures o.Fail? && o != Fail(Error(InvalidCredentials)) ==> r == Reply(500, ErrorBody(LoginFailed))
  {
    match o
    case Ok(result) => Reply(200, LoggedInBody(result))
    case Fail(thrown) =>
      if thrown.Error? && thrown.message == InvalidCredentials then Reply(401, ErrorBody(thrown.message))
      else Reply(500, ErrorBody(LoginFailed))
  }

  /** POST /api/auth/refresh: every failure is the same 401. */
  function RefreshReply(o: Outcome<TokenPair>): (r: Reply)
    ensures o.Fail? ==> r == Reply(401, ErrorBody(InvalidRefreshToken))
    ensures r.status == 200 <==> o.Ok?
  {
    match o
    case Ok(result) => Reply(200, TokensBody(result))
    case Fail(_) => Reply(401, ErrorBody(InvalidRefreshToken))
  }

  /** POST /api/auth/logout: the same success reply whether or not the service threw. */
  function LogoutReply(o: Outcome<()>): (r: Reply)
    ensures r == Reply(200, LogoutBody("Logout successful"))
  {
    match o
    case Ok(_) => Reply(200, LogoutBody(LogoutSuccessful))
    case Fail(_) => Reply(200, LogoutBody(LogoutSuccessful))
  }

  /**
   * GET /api/auth/me, given the payload the hook stored (if any) and what `getUserById` on its
   * subject returned or threw; the lookup is only made when there is a subject.
   */
  function MeReply(user: Option<Payload>, lookup: Outcome<Option<Profile>>): (r: Reply)
    ensures user.None? ==> r == Reply(401, ErrorBody(Unauthorized))
    ensures r.status == 200 <==> user.Some? && lookup.Ok? && lookup.value.Some?
    ensures r.status == 200 ==> r.body == UserBody(lookup.value.value)
    ensures user.Some? && lookup.Fail? ==> r == Reply(500, ErrorBody(FetchFailed))
    ensures user.Some? && lookup == Ok(None) ==> r == Reply(401, ErrorBody(UserNotFound))
  {
    if user.None? then Reply(401, ErrorBody(Unauthorized))
    else
      match lookup
      case Fail(_) => Reply(500, ErrorBody(FetchFailed))
      case Ok(None) => Reply(401, ErrorBody(UserNotFound))
      case Ok(Some(profile)) => Reply(200, UserBody(profile))
  }

  // ---------------------------------------------------------------------------------------
  // Service and handler together.

  /** Registering a taken email is answered 400 with the service's message; a new email is answered 201. */
  lemma RegisterReplies(c: Config, db: Db, email: string, password: string, name: string, now: nat, salt: nat)
    ensures var r := RegisterReply(Register(c, db, email, password, name, now, salt).outcome);
      && ((exists u :: u in db.users && u.email == email) ==> r == Reply(400, ErrorBody("Email already exists")))
      && ((forall u :: u in db.users ==> u.email != email) ==> r.status == 201)
  {
  }

  /** An unknown email and a wrong password get the very same reply. */
  lemma LoginFailuresSameReply(c: Config, db: Db, unknown: string, p1: string, known: string, p2: string, now: nat)
    requires forall u :: u in db.users ==> u.email != unknown
    requires forall u :: u in db.users && u.email == known ==> !c.hasher.compare(p2, u.password)
    ensures LoginReply(Login(c, db, unknown, p1, now).outcome) == Reply(401, ErrorBody("Invalid credentials"))
    ensures LoginReply(Login(c, db, known, p2, now).outcome) == Reply(401, ErrorBody("Invalid credentials"))
  {
    SessionProperties.LoginFailuresIndistinguishable(c, db, unknown, p1, known, p2, now);
  }

  /** A second login of the same user in the same second is answered 500 `Login failed`. */
  lemma SameSecondLoginIs500(c: Config, db: Db, email: string, password: string, t1: nat, t2: nat)
    requires Login(c, db, email, password, t1).outcome.Ok?
    requires t1 / 1000 == t2 / 1000
    ensures LoginReply(Login(c, Login(c, db, email, password, t1).db, email, password, t2).outcome) == Reply(500, ErrorBody(LoginFailed))
  {
    SessionProperties.SameSecondLoginCollides(c, db, email, password, t1, t2);
  }

  /** A refresh is answered 200 or 401 and nothing else, whatever happened in the service. */
  lemma RefreshNever500(c: Config, db: Db, token: string, now: nat, deleteFails: bool)
    ensures var r := RefreshReply(Refresh(c, db, token, now, deleteFails).outcome);
      r.status == 200 || r == Reply(401, ErrorBody("Invalid or expired refresh token"))
  {
  }

  /** `me` answers 200 with the profile exactly when the hook stored a subject that is a stored user. */
  lemma MeRepliesProfile(db: Db, user: Option<Payload>)
    ensures var r := MeReply(user, if user.Some? then Ok(GetUserById(db, user.value.userId)) else Ok(None));
      && (r.status == 200 <==> user.Some? && exists u :: u in db.users && u.id == user.value.userId)
      && (user.Some? && r.status != 200 ==> r == Reply(401, ErrorBody(UserNotFound)))
  {
  }
}
