/**
 * The two database tables the session manager works on, and the queries it issues against
 * them: `findUnique` by email, id or token, `create`, `delete` by row id and `deleteMany` by
 * token. A table is the sequence of its rows in insertion order.
 */
module Store {
  import opened Wrappers
  import opened Jwt

  /** A row of the users table; `password` holds the password hash. */
  datatype User = User(id: UserId, email: string, name: string, password: string, createdAt: nat, updatedAt: nat)

  /** A row of the refresh-token table; `expiresAt` is a clock time in milliseconds. */
  datatype RefreshRow = RefreshRow(id: nat, token: string, userId: UserId, expiresAt: nat)

  /** Both tables and the source of fresh row ids. */
  datatype Db = Db(users: seq<User>, rows: seq<RefreshRow>, nextId: nat)

  /**
   * The uniqueness the queries rely on: email and id identify a user, token and id identify a
   * refresh row, every id is below `nextId`, and every refresh row belongs to a stored user.
   */
  ghost predicate Consistent(db: Db) {
    && (forall u, v :: u in db.users && v in db.users && u.email == v.email ==> u == v)
    && (forall u, v :: u in db.users && v in db.users && u.id == v.id ==> u == v)
    && (forall u :: u in db.users ==> u.id < db.nextId)
    && (forall x, y :: x in db.rows && y in db.rows && x.token == y.token ==> x == y)
    && (forall x, y :: x in db.rows && y in db.rows && x.id == y.id ==> x == y)
    && (forall x :: x in db.rows ==> x.id < db.nextId && exists u :: u in db.users && u.id == x.userId)
  }

  /** `db.user.findUnique({ where: { email } })`. */
  function FindUserByEmail(users: seq<User>, email: string): (r: Option<User>)
    ensures r.Some? ==> r.value in users && r.value.email == email
    ensures r.None? <==> forall u :: u in users ==> u.email != email
  {
    if users == [] then None
    else if users[0].email == email then Some(users[0])
    else
      assert forall u :: u in users ==> u == users[0] || u in users[1..];
      FindUserByEmail(users[1..], email)
  }

  /** `db.user.findUnique({ where: { id } })`. */
  function FindUserById(users: seq<User>, id: UserId): (r: Option<User>)
    ensures r.Some? ==> r.value in users && r.value.id == id
    ensures r.None? <==> forall u :: u in users ==> u.id != id
  {
    if users == [] then None
    else if users[0].id == id then Some(users[0])
    else
      assert forall u :: u in users ==> u == users[0] || u in users[1..];
      FindUserById(users[1..], id)
  }

  /** `db.refreshToken.findUnique({ where: { token } })`. */
  function FindRowByToken(rows: seq<RefreshRow>, token: string): (r: Option<RefreshRow>)
    ensures r.Some? ==> r.value in rows && r.value.token == token
    ensures r.None? <==> forall x :: x in rows ==> x.token != token
  {
    if rows == [] then None
    else if rows[0].token == token then Some(rows[0])
    else
      assert forall x :: x in rows ==> x == rows[0] || x in rows[1..];
      FindRowByToken(rows[1..], token)
  }

  /** `db.refreshToken.delete({ where: { id } })`: every other row stays, in order. */
  function DeleteRowById(rows: seq<RefreshRow>, id: nat): (r: seq<RefreshRow>)
    ensures forall x :: x in r <==> x in rows && x.id != id
    ensures |r| <= |rows|
  {
    if rows == [] then []
    else
      assert forall x :: x in rows ==> x == rows[0] || x in rows[1..];
      (if rows[0].id == id then [] else [rows[0]]) + DeleteRowById(rows[1..], id)
  }

  /** `db.refreshToken.deleteMany({ where: { token } })`: every other row stays, in order. */
  function DeleteRowsByToken(rows: seq<RefreshRow>, token: string): (r: seq<RefreshRow>)
    ensures forall x :: x in r <==> x in rows && x.token != token
    ensures |r| <= |rows|
  {
    if rows == [] then []
    else
      assert forall x :: x in rows ==> x == rows[0] || x in rows[1..];
      (if rows[0].token == token then [] else [rows[0]]) + DeleteRowsByToken(rows[1..], token)
  }

  /** Deleting by a token no row holds leaves the table exactly as it was. */
  lemma {:induction false} DeleteAbsentToken(rows: seq<RefreshRow>, token: string)
    requires forall x :: x in rows ==> x.token != token
    ensures DeleteRowsByToken(rows, token) == rows
  {
    if rows != [] {
      DeleteAbsentToken(rows[1..], token);
      assert rows == [rows[0]] + rows[1..];
    }
  }

  /** `deleteMany` by token is idempotent. */
  lemma DeleteRowsByTokenIdempotent(rows: seq<RefreshRow>, token: string)
    ensures DeleteRowsByToken(DeleteRowsByToken(rows, token), token) == DeleteRowsByToken(rows, token)
  {
    DeleteAbsentToken(DeleteRowsByToken(rows, token), token);
  }

  /** Deleting the row that holds a token, by its id, removes exactly the rows `deleteMany` on that token removes. */
  lemma {:induction false} DeleteByIdIsDeleteByToken(rows: seq<RefreshRow>, row: RefreshRow)
    requires row in rows
    requires forall x, y :: x in rows && y in rows && x.token == y.token ==> x == y
    requires forall x, y :: x in rows && y in rows && x.id == y.id ==> x == y
    ensures DeleteRowById(rows, row.id) == DeleteRowsByToken(rows, row.token)
  {
    if rows != [] {
      assert forall x :: x in rows[1..] ==> x in rows;
      if row in rows[1..] {
        DeleteByIdIsDeleteByToken(rows[1..], row);
      } else {
        assert rows[0] == row;
        assert forall x :: x in rows[1..] ==> x.id != row.id && x.token != row.token;
        DeleteAbsentToken(rows[1..], row.token);
        DeleteAbsentId(rows[1..], row.id);
      }
    }
  }

  /** Deleting by an id no row holds leaves the table exactly as it was. */
  lemma {:induction false} DeleteAbsentId(rows: seq<RefreshRow>, id: nat)
    requires forall x :: x in rows ==> x.id != id
    ensures DeleteRowById(rows, id) == rows
  {
    if rows != [] {
      DeleteAbsentId(rows[1..], id);
      assert rows == [rows[0]] + rows[1..];
    }
  }

  /** Storing a row with a fresh id, a token no row holds and an existing owner keeps the store consistent. */
  lemma AppendRowConsistent(db: Db, row: RefreshRow)
    requires Consistent(db)
    requires row.id == db.nextId
    requires forall x :: x in db.rows ==> x.token != row.token
    requires exists u :: u in db.users && u.id == row.userId
    ensures Consistent(db.(rows := db.rows + [row], nextId := db.nextId + 1))
  {
    var rows := db.rows + [row];
    assert forall x :: x in rows <==> x in db.rows || x == row;
  }
}
