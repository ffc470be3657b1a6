/**
 * `AuthService`: the session manager as an object over the two tables, performing each
 * operation step by step (look up, check, sign, create, delete). Every method is specified by
 * the matching transition of module Session and keeps the store invariant.
 */
module Service {
  import opened Wrappers
  import opened Jwt
  import opened Store
  import opened Session
  import SessionProperties

  class AuthService {
    /** The token and hashing libraries and the two secrets (read from the environment in the original). */
    const config: Config
    /** The users table. */
    var users: seq<User>
    /** The refresh-token table. */
    var rows: seq<RefreshRow>
    /** The next id the database hands out. */
    var nextId: nat

    function State(): Db
      reads this
    {
      Db(users, rows, nextId)
    }

    ghost predicate Valid()
      reads this
    {
      WellFormed(config, State())
    }

    constructor (config: Config)
      ensures Valid()
      ensures this.config == config && State() == Db([], [], 0)
    {
      this.config := config;
      users, rows, nextId := [], [], 0;
    }

    method Register(email: string, password: string, name: string, now: nat, salt: nat) returns (r: Outcome<Registered>)
      requires Valid()
      modifies this
      ensures Valid()
      ensures Step(State(), r) == Session.Register(config, old(State()), email, password, name, now, salt)
    {
      SessionProperties.RegisterPreservesWellFormed(config, State(), email, password, name, now, salt);
      var existing := FindUserByEmail(users, email);
      if existing.Some? {
        return Fail(Error(EmailExists));
      }
      var hashed := config.hasher.hash(password, HashCost, salt);
      var user := User(nextId, email, name, hashed, now, now);
      users := users + [user];
      nextId := nextId + 1;
      r := Ok(Registered(CreatedUser(user.id, user.email, user.name, user.createdAt), RegisteredMessage));
    }

    method Login(email: string, password: string, now: nat) returns (r: Outcome<LoggedIn>)
      requires Valid()
      modifies this
      ensures Valid()
      ensures Step(State(), r) == Session.Login(config, old(State()), email, password, now)
    {
      var found := FindUserByEmail(users, email);
      if found.None? {
        return Fail(Error(InvalidCredentials));
      }
      var user := found.value;
      var isValidPassword := config.hasher.compare(password, user.password);
      if !isValidPassword {
        return Fail(Error(InvalidCredentials));
      }
      var accessToken := AccessToken(config, user.id, now);
      SessionProperties.LoginPreservesWellFormed(config, State(), email, password, now);
      var refreshToken := GenerateRefreshToken(user.id, now);
      match refreshToken
      case Fail(e) =>
        r := Fail(e);
      case Ok(token) =>
        r := Ok(LoggedIn(LoginUser(user.id, user.email, user.name), TokenPair(accessToken, token, ExpiresIn)));
    }

    /**
     * `deleteFails` stands for the final `delete` throwing; the new row is stored by then and
     * stays.
     */
    method RefreshToken(token: string, now: nat, deleteFails: bool) returns (r: Outcome<TokenPair>)
      requires Valid()
      modifies this
      ensures Valid()
      ensures Step(State(), r) == Session.Refresh(config, old(State()), token, now, deleteFails)
    {
      ghost var before := State();
      var decoded := config.jwt.verify(token, config.refreshSecret, now);
      if decoded.None? {
        return Fail(Error(InvalidRefreshToken));
      }
      var found := FindRowByToken(rows, token);
      if found.None? {
        return Fail(Error(InvalidRefreshToken));
      }
      var stored := found.value;
      if stored.userId != decoded.value.userId || stored.expiresAt < now {
        return Fail(Error(InvalidRefreshToken));
      }
      var accessToken := AccessToken(config, decoded.value.userId, now);
      var newRefreshToken := GenerateRefreshToken(decoded.value.userId, now);
      SessionProperties.RefreshPreservesWellFormed(config, before, token, now, deleteFails);
      ghost var expected := Session.Refresh(config, before, token, now, deleteFails);
      if newRefreshToken.Fail? || deleteFails {
        r := Fail(Error(InvalidRefreshToken));
        assert expected == Step(State(), r);
      } else {
        rows := DeleteRowById(rows, stored.id);
        r := Ok(TokenPair(accessToken, newRefreshToken.value, ExpiresIn));
        assert expected == Step(State(), r);
      }
    }

    method Logout(token: string)
      requires Valid()
      modifies this
      ensures Valid()
      ensures State() == Session.Logout(old(State()), token)
    {
      SessionProperties.LogoutPreservesWellFormed(config, State(), token);
      rows := DeleteRowsByToken(rows, token);
    }

    method GetUserById(id: UserId) returns (r: Option<Profile>)
      ensures r.None? <==> forall u :: u in users ==> u.id != id
      ensures r.Some? ==> exists u :: u in users && u.id == id && r.value == Profile(u.id, u.email, u.name, u.createdAt, u.updatedAt)
    {
      var user := FindUserById(users, id);
      if user.None? {
        return None;
      }
      var u := user.value;
      r := Some(Profile(u.id, u.email, u.name, u.createdAt, u.updatedAt));
    }

    /** `generateRefreshToken`: signs a refresh token and stores its row; the store refuses a duplicate token. */
    method GenerateRefreshToken(userId: UserId, now: nat) returns (r: Outcome<string>)
      modifies this
      ensures Step(State(), r) == IssueRefreshToken(config, old(State()), userId, now)
    {
      var token := config.jwt.sign(config.refreshSecret, Claims(userId, RefreshLifetime, now));
      if FindRowByToken(rows, token).Some? {
        return Fail(Error(UniqueViolation));
      }
      rows := rows + [RefreshRow(nextId, token, userId, now + RefreshMs)];
      nextId := nextId + 1;
      r := Ok(token);
    }
  }
}
