/**
 * The session manager (`AuthService`) as a transition system over the two tables: each
 * operation maps the store before the call to the store after it and to what the caller sees,
 * a result or a thrown error. The class in module Service performs the same steps in place.
 */
module Session {
  import opened Wrappers
  import opened Jwt
  import opened Store
  import Bcrypt

  /** What an operation throws: an `Error` with its message, or some other value. */
  datatype Thrown = Error(message: string) | NonError

  /** A call either returns a value or throws. */
  datatype Outcome<T> = Ok(value: T) | Fail(thrown: Thrown)

  /** The store after a call, and the call's outcome. */
  datatype Step<T> = Step(db: Db, outcome: Outcome<T>)

  const EmailExists := "Email already exists"
  const InvalidCredentials := "Invalid credentials"
  const InvalidRefreshToken := "Invalid or expired refresh token"
  const RegisteredMessage := "Registration successful. Please check your email."
  /** What the database throws when `create` would store a second row with the same token. */
  const UniqueViolation := "Unique constraint failed on the fields: (`token`)"

  /** bcrypt cost factor. */
  const HashCost: nat := 12
  /** Lifetime of a stored refresh row: 7 days in milliseconds. */
  const RefreshMs: nat := 7 * 24 * 60 * 60 * 1000
  /** `expires_in` reported with every token pair, in seconds. */
  const ExpiresIn: nat := 900

  /** The token library, the hashing library and the two signing secrets. */
  datatype Config = Config(jwt: Signer, hasher: Bcrypt.Hasher, accessSecret: string, refreshSecret: string)

  ghost predicate SoundLibraries(c: Config) {
    Jwt.Sound(c.jwt) && Bcrypt.Sound(c.hasher)
  }

  /** The fields `register` selects from the new user: never the password. */
  datatype CreatedUser = CreatedUser(id: UserId, email: string, name: string, createdAt: nat)
  datatype Registered = Registered(user: CreatedUser, message: string)
  datatype LoginUser = LoginUser(id: UserId, email: string, name: string)
  datatype TokenPair = TokenPair(accessToken: string, refreshToken: string, expiresIn: nat)
  datatype LoggedIn = LoggedIn(user: LoginUser, tokens: TokenPair)
  /** The fields `getUserById` selects: never the password. */
  datatype Profile = Profile(id: UserId, email: string, name: string, createdAt: nat, updatedAt: nat)

  /**
   * `generateAccessToken`: a token for `userId` under the access secret, valid for 15 minutes:
   * it verifies with the user's claims when issued and no longer 15 minutes later.
   */
  function AccessToken(c: Config, userId: UserId, now: nat): (t: string)
    ensures Jwt.Sound(c.jwt) ==> c.jwt.verify(t, c.accessSecret, now) == Some(Claims(userId, AccessLifetime, now))
    ensures Jwt.Sound(c.jwt) ==> c.jwt.verify(t, c.accessSecret, now + AccessLifetime * 1000) == None
  {
    var p := Claims(userId, AccessLifetime, now);
    SecondsBefore(now + AccessLifetime * 1000, p.exp);
    c.jwt.sign(c.accessSecret, p)
  }

  /** The token `generateRefreshToken` signs for `userId` at `now`, under the refresh secret, valid for 7 days. */
  function RefreshTokenFor(c: Config, userId: UserId, now: nat): string {
    c.jwt.sign(c.refreshSecret, Claims(userId, RefreshLifetime, now))
  }

  /** A row exactly as `generateRefreshToken` stores it: its token was signed when the row was created. */
  ghost predicate Issued(c: Config, x: RefreshRow) {
    x.expiresAt >= RefreshMs && x.token == RefreshTokenFor(c, x.userId, x.expiresAt - RefreshMs)
  }

  /** The invariant every operation keeps. */
  ghost predicate WellFormed(c: Config, db: Db) {
    Consistent(db) && forall x :: x in db.rows ==> Issued(c, x)
  }

  /**
   * `generateRefreshToken`: signs a refresh token and stores it with `expiresAt = now + 7 days`.
   * The database refuses a second row with the same token; nothing is stored then.
   */
  function IssueRefreshToken(c: Config, db: Db, userId: UserId, now: nat): (s: Step<string>)
    ensures s.outcome.Ok? ==>
      && s.outcome.value == RefreshTokenFor(c, userId, now)
      && s.db == db.(rows := db.rows + [RefreshRow(db.nextId, s.outcome.value, userId, now + RefreshMs)], nextId := db.nextId + 1)
      && (forall x :: x in db.rows ==> x.token != s.outcome.value)
    ensures s.outcome.Fail? ==>
      && s == Step(db, Fail(Error(UniqueViolation)))
      && exists x :: x in db.rows && x.token == RefreshTokenFor(c, userId, now)
  {
    var token := RefreshTokenFor(c, userId, now);
    if FindRowByToken(db.rows, token).Some? then Step(db, Fail(Error(UniqueViolation)))
    else
      var row := RefreshRow(db.nextId, token, userId, now + RefreshMs);
      Step(db.(rows := db.rows + [row], nextId := db.nextId + 1), Ok(token))
  }

  /**
   * `register`: refuses an email already stored; otherwise stores one user with the hashed
   * password and returns its public fields. It issues no token.
   */
  function Register(c: Config, db: Db, email: string, password: string, name: string, now: nat, salt: nat): (s: Step<Registered>)
    ensures (exists u :: u in db.users && u.email == email) ==> s == Step(db, Fail(Error(EmailExists)))
    ensures (forall u :: u in db.users ==> u.email != email) ==>
      && s.db == db.(users := db.users + [User(db.nextId, email, name, c.hasher.hash(password, HashCost, salt), now, now)],
                     nextId := db.nextId + 1)
      && s.outcome == Ok(Registered(CreatedUser(db.nextId, email, name, now), RegisteredMessage))
  {
    if FindUserByEmail(db.users, email).Some? then Step(db, Fail(Error(EmailExists)))
    else
      var hashed := c.hasher.hash(password, HashCost, salt);
      var user := User(db.nextId, email, name, hashed, now, now);
      Step(db.(users := db.users + [user], nextId := db.nextId + 1),
           Ok(Registered(CreatedUser(user.id, user.email, user.name, user.createdAt), RegisteredMessage)))
  }

  /**
   * `login`: an unknown email and a wrong password throw the same error; a match issues an
   * access token and a stored refresh token.
   */
  function Login(c: Config, db: Db, email: string, password: string, now: nat): (s: Step<LoggedIn>)
    ensures s.outcome.Fail? ==> s.db == db
    ensures s.outcome.Fail? ==> s.outcome.thrown == Error(InvalidCredentials) || s.outcome.thrown == Error(UniqueViolation)
    ensures (forall u :: u in db.users ==> u.email != email) ==> s == Step(db, Fail(Error(InvalidCredentials)))
    ensures FindUserByEmail(db.users, email).Some? ==>
      var u := FindUserByEmail(db.users, email).value;
      && (!c.hasher.compare(password, u.password) ==> s == Step(db, Fail(Error(InvalidCredentials))))
      && (c.hasher.compare(password, u.password) && (exists x :: x in db.rows && x.token == RefreshTokenFor(c, u.id, now)) ==>
            s == Step(db, Fail(Error(UniqueViolation))))
      && (c.hasher.compare(password, u.password) && (forall x :: x in db.rows ==> x.token != RefreshTokenFor(c, u.id, now)) ==>
            s.outcome.Ok?)
    ensures s.outcome.Ok? ==> exists u :: (
      && u in db.users && u.email == email && c.hasher.compare(password, u.password)
      && var pair := TokenPair(AccessToken(c, u.id, now), RefreshTokenFor(c, u.id, now), ExpiresIn);
         && s.outcome.value == LoggedIn(LoginUser(u.id, u.email, u.name), pair)
         && s.db == db.(rows := db.rows + [RefreshRow(db.nextId, pair.refreshToken, u.id, now + RefreshMs)], nextId := db.nextId + 1))
  {
    match FindUserByEmail(db.users, email)
    case None => Step(db, Fail(Error(InvalidCredentials)))
    case Some(user) =>
      if !c.hasher.compare(password, user.password) then Step(db, Fail(Error(InvalidCredentials)))
      else
        var access := AccessToken(c, user.id, now);
        var issued := IssueRefreshToken(c, db, user.id, now);
        match issued.outcome
        case Fail(e) => Step(issued.db, Fail(e))
        case Ok(refresh) =>
          Step(issued.db, Ok(LoggedIn(LoginUser(user.id, user.email, user.name), TokenPair(access, refresh, ExpiresIn))))
  }

  /**
   * `refreshToken`: redeems a stored refresh token for a new pair. Every failure, whatever its
   * cause, is thrown as the one error `InvalidRefreshToken`. The new row is created before the
   * old one is deleted; `deleteFails` stands for a `delete` that throws (for instance because a
   * concurrent request already removed the row), after which the new row stays.
   */
  function Refresh(c: Config, db: Db, token: string, now: nat, deleteFails: bool): (s: Step<TokenPair>)
    ensures s.outcome.Fail? ==> s.outcome.thrown == Error(InvalidRefreshToken)
    ensures c.jwt.verify(token, c.refreshSecret, now).None? ==> s == Step(db, Fail(Error(InvalidRefreshToken)))
    ensures (forall x :: x in db.rows ==> x.token != token) ==> s == Step(db, Fail(Error(InvalidRefreshToken)))
    ensures s.outcome.Ok? ==> !deleteFails && exists x :: x in db.rows && x.token == token && !(x.expiresAt < now)
    ensures var v := c.jwt.verify(token, c.refreshSecret, now);
      v.Some? && FindRowByToken(db.rows, token).Some? ==>
      var x := FindRowByToken(db.rows, token).value;
      var renewed := RefreshTokenFor(c, x.userId, now);
      var added := db.(rows := db.rows + [RefreshRow(db.nextId, renewed, x.userId, now + RefreshMs)], nextId := db.nextId + 1);
      && (x.userId != v.value.userId || x.expiresAt < now ==> s == Step(db, Fail(Error(InvalidRefreshToken))))
      && (x.userId == v.value.userId && !(x.expiresAt < now) ==>
            && ((exists y :: y in db.rows && y.token == renewed) ==> s == Step(db, Fail(Error(InvalidRefreshToken))))
            && ((forall y :: y in db.rows ==> y.token != renewed) && deleteFails ==> s == Step(added, Fail(Error(InvalidRefreshToken))))
            && ((forall y :: y in db.rows ==> y.token != renewed) && !deleteFails ==>
                  s == Step(added.(rows := DeleteRowById(added.rows, x.id)), Ok(TokenPair(AccessToken(c, x.userId, now), renewed, ExpiresIn)))))
  {
    match c.jwt.verify(token, c.refreshSecret, now)
    case None => Step(db, Fail(Error(InvalidRefreshToken)))
    case Some(decoded) =>
      match FindRowByToken(db.rows, token)
      case None => Step(db, Fail(Error(InvalidRefreshToken)))
      case Some(stored) =>
        if stored.userId != decoded.userId || stored.expiresAt < now then Step(db, Fail(Error(InvalidRefreshToken)))
        else
          var access := AccessToken(c, decoded.userId, now);
          var issued := IssueRefreshToken(c, db, decoded.userId, now);
          match issued.outcome
          case Fail(_) => Step(issued.db, Fail(Error(InvalidRefreshToken)))
          case Ok(newToken) =>
            if deleteFails then Step(issued.db, Fail(Error(InvalidRefreshToken)))
            else Step(issued.db.(rows := DeleteRowById(issued.db.rows, stored.id)), Ok(TokenPair(access, newToken, ExpiresIn)))
  }

  /** `logout`: deletes every row holding the token and nothing else; it never fails. */
  function Logout(db: Db, token: string): (d: Db)
    ensures d.users == db.users && d.nextId == db.nextId
    ensures forall x :: x in d.rows <==> x in db.rows && x.token != token
  {
    db.(rows := DeleteRowsByToken(db.rows, token))
  }

  /** `getUserById`: the public fields of the user with that id, or nothing. */
  function GetUserById(db: Db, id: UserId): (r: Option<Profile>)
    ensures r.None? <==> forall u :: u in db.users ==> u.id != id
    ensures r.Some? ==> exists u :: u in db.users && u.id == id && r.value == Profile(u.id, u.email, u.name, u.createdAt, u.updatedAt)
  {
    match FindUserById(db.users, id)
    case None => None
    case Some(u) => Some(Profile(u.id, u.email, u.name, u.createdAt, u.updatedAt))
  }
}
