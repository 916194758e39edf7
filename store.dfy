/**
 * The abstract store the request handlers of api.c work against, in place of the MySQL tables
 * of database.c: users, passwords and per-user keys, the lookups the handlers make, and the
 * inserts they request, with the schema's uniqueness constraints (a username once, a password
 * name once per user) and its auto-increment ids.
 */
module Store {
  import opened Wrappers
  import Base64

  /** A row of `users` (the `user_t` record). */
  datatype User = User(
    id: int,
    username: string,
    firstName: string,
    lastName: string,
    password: string,
    token: string)

  /** A row of `passwords` as api.c reads it, with the `username` column it sends. */
  datatype PasswordRow = PasswordRow(
    id: int,
    name: string,
    username: string,
    password: string,
    userId: int)

  /** A stored secret-box key of a user. */
  datatype KeyRow = KeyRow(userId: int, key: seq<Base64.byte>)

  /** The tables, and the next value of each AUTO_INCREMENT id. */
  datatype Store = Store(
    users: seq<User>,
    passwords: seq<PasswordRow>,
    keys: seq<KeyRow>,
    nextUserId: int,
    nextPasswordId: int)

  /** The length of a key made by `crypto_secretbox_keygen`. */
  const KeyBytes := 32

  /** The record `db_user_new` hands out before a lookup fills it. */
  const BlankUser := User(0, "", "", "", "", "")

  const Empty := Store([], [], [], 1, 1)

  function UserIds(st: Store): set<int> {
    set u | u in st.users :: u.id
  }

  /**
   * The constraints of the schema: ids and usernames of users are unique, a password name occurs
   * once per user, every password belongs to a user, keys have 32 bytes, and every id handed
   * out so far is below the next one.
   */
  ghost predicate Valid(st: Store) {
    0 < st.nextUserId && 0 < st.nextPasswordId
    && (forall i, j :: 0 <= i < j < |st.users| ==>
      st.users[i].username != st.users[j].username && st.users[i].id != st.users[j].id)
    && (forall u :: u in st.users ==> 0 < u.id < st.nextUserId)
    && (forall i, j :: 0 <= i < j < |st.passwords| ==>
      (st.passwords[i].name, st.passwords[i].userId) != (st.passwords[j].name, st.passwords[j].userId)
      && st.passwords[i].id != st.passwords[j].id)
    && (forall p :: p in st.passwords ==> p.userId in UserIds(st) && 0 < p.id < st.nextPasswordId)
    && (forall k :: k in st.keys ==> |k.key| == KeyBytes && k.userId < st.nextUserId)
  }

  lemma EmptyIsValid()
    ensures Valid(Empty)
  {
  }

  // ---------------------------------------------------------------------------------------
  // Lookups
  // ---------------------------------------------------------------------------------------

  /** The rows a `SELECT ... WHERE` returns, in table order. */
  function Where<T>(rows: seq<T>, keep: T -> bool): (r: seq<T>)
    ensures |r| <= |rows|
    ensures forall x :: x in r ==> x in rows && keep(x)
  {
    if |rows| == 0 then []
    else if keep(rows[0]) then [rows[0]] + Where(rows[1..], keep)
    else Where(rows[1..], keep)
  }

  /** Every kept row is returned. */
  lemma {:induction false} WhereKeeps<T>(rows: seq<T>, keep: T -> bool, x: T)
    requires x in rows && keep(x)
    ensures x in Where(rows, keep)
  {
    if rows[0] != x {
      WhereKeeps(rows[1..], keep, x);
    }
  }

  /** A filter that keeps nothing returns nothing. */
  lemma {:induction false} WhereNone<T>(rows: seq<T>, keep: T -> bool)
    requires forall x :: x in rows ==> !keep(x)
    ensures Where(rows, keep) == []
  {
    if |rows| > 0 {
      WhereNone(rows[1..], keep);
    }
  }

  /** A filter that keeps every row returns the table. */
  lemma {:induction false} WhereAll<T>(rows: seq<T>, keep: T -> bool)
    requires forall x :: x in rows ==> keep(x)
    ensures Where(rows, keep) == rows
  {
    if |rows| > 0 {
      WhereAll(rows[1..], keep);
      assert rows == [rows[0]] + rows[1..];
    }
  }

  /** A row appended to the table is returned after the earlier ones when it is kept. */
  lemma {:induction false} WhereAppend<T>(rows: seq<T>, x: T, keep: T -> bool)
    ensures Where(rows + [x], keep) == Where(rows, keep) + (if keep(x) then [x] else [])
  {
    if |rows| > 0 {
      assert (rows + [x])[1..] == rows[1..] + [x];
      WhereAppend(rows[1..], x, keep);
    } else {
      assert rows + [x] == [x];
    }
  }

  /**
   * What a fetch loop leaves in the record: each row overwrites the record, so the last row
   * wins, and with no row the record stays blank.
   */
  function Fetched(rows: seq<User>): (u: User)
    ensures |rows| == 0 ==> u == BlankUser
    ensures |rows| > 0 ==> u in rows && u == rows[|rows| - 1]
  {
    if |rows| == 0 then BlankUser else rows[|rows| - 1]
  }

  /** `db_user_get_by_token`: the users holding `token`. */
  function UsersWithToken(st: Store, token: string): (rows: seq<User>)
    ensures forall u :: u in rows <==> u in st.users && u.token == token
  {
    var rows := Where(st.users, (u: User) => u.token == token);
    forall u | u in st.users && u.token == token ensures u in rows {
      WhereKeeps(st.users, (u: User) => u.token == token, u);
    }
    rows
  }

  /** `db_user_get_by_username`: the users called `username`. */
  function UsersNamed(st: Store, username: string): (rows: seq<User>)
    ensures forall u :: u in rows <==> u in st.users && u.username == username
  {
    var rows := Where(st.users, (u: User) => u.username == username);
    forall u | u in st.users && u.username == username ensures u in rows {
      WhereKeeps(st.users, (u: User) => u.username == username, u);
    }
    rows
  }

  /** `db_user_get_by_id`: the users with id `id`. */
  function UsersWithId(st: Store, id: int): (rows: seq<User>)
    ensures forall u :: u in rows <==> u in st.users && u.id == id
  {
    var rows := Where(st.users, (u: User) => u.id == id);
    forall u | u in st.users && u.id == id ensures u in rows {
      WhereKeeps(st.users, (u: User) => u.id == id, u);
    }
    rows
  }

  /** `db_user_get_token`: the users whose username and password both match. */
  function UsersWithCredentials(st: Store, username: string, password: string): (rows: seq<User>)
    ensures forall u :: u in rows <==> u in st.users && u.username == username && u.password == password
  {
    var keep := (u: User) => u.username == username && u.password == password;
    var rows := Where(st.users, keep);
    forall u | u in st.users && keep(u) ensures u in rows {
      WhereKeeps(st.users, keep, u);
    }
    rows
  }

  /** `db_passwords_get_by_token`: the passwords of the users holding `token`. */
  function PasswordsWithToken(st: Store, token: string): (rows: seq<PasswordRow>)
    ensures forall p :: p in rows <==>
      p in st.passwords && exists u :: u in st.users && u.token == token && u.id == p.userId
  {
    var keep := (p: PasswordRow) => exists u :: u in st.users && u.token == token && u.id == p.userId;
    var rows := Where(st.passwords, keep);
    forall p | p in st.passwords && keep(p) ensures p in rows {
      WhereKeeps(st.passwords, keep, p);
    }
    rows
  }

  /** `db_key_get_by_user_id`: the keys stored for user `id`. */
  function KeysOf(st: Store, id: int): (rows: seq<KeyRow>)
    ensures forall k :: k in rows <==> k in st.keys && k.userId == id
  {
    var rows := Where(st.keys, (k: KeyRow) => k.userId == id);
    forall k | k in st.keys && k.userId == id ensures k in rows {
      WhereKeeps(st.keys, (k: KeyRow) => k.userId == id, k);
    }
    rows
  }

  // ---------------------------------------------------------------------------------------
  // Inserts
  // ---------------------------------------------------------------------------------------

  /**
   * `db_user_add`: None when the username is taken (the UNIQUE constraint); otherwise the
   * store with the new row, which gets the next id.
   */
  function AddUser(st: Store, username: string, firstName: string, lastName: string, password: string, token: string): (r: Option<Store>)
    ensures r.None? <==> exists u :: u in st.users && u.username == username
    ensures r.Some? ==> r.value == st.(
      users := st.users + [User(st.nextUserId, username, firstName, lastName, password, token)],
      nextUserId := st.nextUserId + 1)
  {
    if exists u :: u in st.users && u.username == username then None
    else Some(st.(
      users := st.users + [User(st.nextUserId, username, firstName, lastName, password, token)],
      nextUserId := st.nextUserId + 1))
  }

  /**
   * `db_password_add`: None when the user already has a password of that name (the UNIQUE
   * index on name and user id); otherwise the store with the new row under the next id.
   */
  function AddPassword(st: Store, name: string, username: string, password: string, userId: int): (r: Option<Store>)
    ensures r.None? <==> exists p :: p in st.passwords && p.name == name && p.userId == userId
    ensures r.Some? ==> r.value == st.(
      passwords := st.passwords + [PasswordRow(st.nextPasswordId, name, username, password, userId)],
      nextPasswordId := st.nextPasswordId + 1)
  {
    if exists p :: p in st.passwords && p.name == name && p.userId == userId then None
    else Some(st.(
      passwords := st.passwords + [PasswordRow(st.nextPasswordId, name, username, password, userId)],
      nextPasswordId := st.nextPasswordId + 1))
  }

  /** `db_key_add`: the store with one more key row. */
  function AddKey(st: Store, key: seq<Base64.byte>, userId: int): (r: Store)
    ensures r.keys == st.keys + [KeyRow(userId, key)]
    ensures r.users == st.users && r.passwords == st.passwords
    ensures r.nextUserId == st.nextUserId && r.nextPasswordId == st.nextPasswordId
  {
    st.(keys := st.keys + [KeyRow(userId, key)])
  }

  /** Adding a user keeps the constraints, and the new user is the only one with that name. */
  lemma AddUserValid(st: Store, username: string, firstName: string, lastName: string, password: string, token: string)
    requires Valid(st) && AddUser(st, username, firstName, lastName, password, token).Some?
    ensures var st' := AddUser(st, username, firstName, lastName, password, token).value;
      Valid(st') && UsersNamed(st', username) == [User(st.nextUserId, username, firstName, lastName, password, token)]
  {
    var u := User(st.nextUserId, username, firstName, lastName, password, token);
    var st' := AddUser(st, username, firstName, lastName, password, token).value;
    assert st'.users == st.users + [u];
    forall i, j | 0 <= i < j < |st'.users|
      ensures st'.users[i].username != st'.users[j].username && st'.users[i].id != st'.users[j].id
    {
      assert st'.users[i] in st.users;
      if j == |st.users| {
        assert st'.users[j] == u;
      }
    }
    forall p | p in st'.passwords ensures p.userId in UserIds(st') {
      assert p.userId in UserIds(st);
    }
    WhereAppend(st.users, u, (v: User) => v.username == username);
    WhereNone(st.users, (v: User) => v.username == username);
  }

  /** Adding a password keeps the constraints when it belongs to a stored user. */
  lemma AddPasswordValid(st: Store, name: string, username: string, password: string, userId: int)
    requires Valid(st) && userId in UserIds(st)
    requires AddPassword(st, name, username, password, userId).Some?
    ensures Valid(AddPassword(st, name, username, password, userId).value)
  {
    var row := PasswordRow(st.nextPasswordId, name, username, password, userId);
    var st' := AddPassword(st, name, username, password, userId).value;
    assert st'.passwords == st.passwords + [row];
    forall i, j | 0 <= i < j < |st'.passwords|
      ensures (st'.passwords[i].name, st'.passwords[i].userId) != (st'.passwords[j].name, st'.passwords[j].userId)
        && st'.passwords[i].id != st'.passwords[j].id
    {
      assert st'.passwords[i] in st.passwords;
      if j == |st.passwords| {
        assert st'.passwords[j] == row;
      }
    }
  }

  /** Adding a key of 32 bytes for a stored user keeps the constraints. */
  lemma AddKeyValid(st: Store, key: seq<Base64.byte>, userId: int)
    requires Valid(st) && |key| == KeyBytes && userId in UserIds(st)
    ensures Valid(AddKey(st, key, userId))
  {
  }
}
