/**
 * What the handlers of api.c guarantee: who passes the admin gate, what an unknown token gets,
 * that a new password is filed under the caller, that the key reply is a 44-character Base64
 * text of a stored key, that a password list holds the caller's passwords and no one else's,
 * that every handler keeps the store's constraints, and that a user created by the admin can
 * log in and fetch the key made for them.
 */
module HandlerProperties {
  import opened Wrappers
  import opened Store
  import opened Handlers
  import Base64
  import Base64Properties

  /** No stored user holds `token`. */
  predicate Unknown(st: Store, token: string) {
    forall u :: u in st.users ==> u.token != token
  }

  /** Password `p` belongs to a user holding `token`. */
  predicate OwnedBy(st: Store, p: PasswordRow, token: string) {
    exists u :: u in st.users && u.token == token && u.id == p.userId
  }

  // ---------------------------------------------------------------------------------------
  // The admin gate and unknown tokens
  // ---------------------------------------------------------------------------------------

  /** The three admin handlers refuse exactly the callers whose token does not fetch `admin`. */
  lemma AdminGate(st: Store, token: string, body: Option<Fields>, newToken: string, key: seq<Base64.byte>, id: int)
    ensures NewUser(st, Some(token), body, newToken, key) == Done(NotAdmin, st) <==> !IsAdmin(st, token)
    ensures GetUsers(st, Some(token)) == Done(NotAdmin, st) <==> !IsAdmin(st, token)
    ensures GetUserById(st, Some(token), id) == Done(NotAdmin, st) <==> !IsAdmin(st, token)
  {
  }

  /** Passing the gate needs a stored user called `admin` holding the token. */
  lemma AdminHoldsToken(st: Store, token: string)
    requires IsAdmin(st, token)
    ensures exists u :: u in st.users && u.username == "admin" && u.token == token
  {
    var rows := UsersWithToken(st, token);
    if |rows| > 0 {
      assert Fetched(rows) in rows;
    }
  }

  /**
   * A token no user holds gets 401 from the admin handlers, no status from the key and
   * new-password handlers, and 404 from the password list; nothing is stored.
   */
  lemma UnknownTokenRejected(st: Store, token: string, body: Fields, newToken: string, key: seq<Base64.byte>, id: int, username: Option<string>)
    requires Unknown(st, token)
    ensures NewUser(st, Some(token), Some(body), newToken, key) == Done(NotAdmin, st)
    ensures GetUsers(st, Some(token)) == Done(NotAdmin, st)
    ensures GetUserById(st, Some(token), id) == Done(NotAdmin, st)
    ensures GetUserKey(st, Some(token), username) == Done(Reply(Unauthorized, None, NoBody), st)
    ensures NewPassword(st, Some(token), Some(body)) == Done(Reply(Unauthorized, None, NoBody), st)
    ensures GetPasswords(st, Some(token)) == Done(Reply(Continue, Some(StatusNotFound), NotFoundText), st)
  {
  }

  /**
   * The admin gets 200 with `count`, the number of stored users, and `users`, one
   * `{id, first_name, last_name}` summary per stored user in table order; nothing is stored.
   */
  lemma AdminListsUsers(st: Store, admin: string)
    requires IsAdmin(st, admin)
    ensures var out := GetUsers(st, Some(admin));
      out.Done? && out.store == st && out.reply.code == Continue && out.reply.status == Some(StatusOk)
      && exists items: seq<Json> ::
           out.reply.body == JsonBody(JObject([("count", JInt(|st.users|)), ("users", JArray(items))]))
           && |items| == |st.users|
           && forall i :: 0 <= i < |items| ==> items[i] == UserSummary(st.users[i])
  {
    var items := UserSummaries(st.users);
    assert GetUsers(st, Some(admin)).reply.body == JsonBody(JObject([("count", JInt(|st.users|)), ("users", JArray(items))]));
  }

  /** A body that does not parse is answered with 400 before any token is looked at. */
  lemma MalformedBodyFirst(st: Store, auth: Option<string>)
    ensures NewPassword(st, auth, None) == Done(BadJson, st)
    ensures Login(st, None) == Done(BadJson, st)
  {
  }

  // ---------------------------------------------------------------------------------------
  // Creating users and passwords
  // ---------------------------------------------------------------------------------------

  /**
   * For the admin with a complete body, `callback_new_user` fails (500) exactly when the
   * username is taken and then stores nothing; otherwise it answers with the new token, appends
   * the user under the next id and files the key under that id.
   */
  lemma NewUserOutcome(st: Store, admin: string, body: Fields, token: string, key: seq<Base64.byte>)
    requires Valid(st) && IsAdmin(st, admin)
    requires "username" in body && "first_name" in body && "last_name" in body && "password" in body
    ensures var out := NewUser(st, Some(admin), Some(body), token, key);
      out.Done?
      && (out.reply.status == Some(StatusServerError) <==> exists u :: u in st.users && u.username == body["username"])
      && (out.reply.status == Some(StatusServerError) ==> out.store == st)
      && (out.reply.status != Some(StatusServerError) ==>
            var u := User(st.nextUserId, body["username"], body["first_name"], body["last_name"], body["password"], token);
            out.reply == Reply(Continue, Some(StatusOk), JsonBody(JObject([("token", JString(token))])))
            && out.store == st.(users := st.users + [u], nextUserId := st.nextUserId + 1, keys := st.keys + [KeyRow(u.id, key)]))
  {
    var username := body["username"];
    var r := AddUser(st, username, body["first_name"], body["last_name"], body["password"], token);
    if r.Some? {
      AddUserValid(st, username, body["first_name"], body["last_name"], body["password"], token);
    }
  }

  /**
   * When a known caller with a complete body gets 201, the password is appended under the
   * next id and filed under the caller's user id; it fails (500) exactly when the caller
   * already has a password of that name.
   */
  lemma NewPasswordStored(st: Store, token: string, body: Fields)
    requires |UsersWithToken(st, token)| > 0
    requires "name" in body && "username" in body && "password" in body
    ensures var out := NewPassword(st, Some(token), Some(body));
      var caller := Fetched(UsersWithToken(st, token));
      out.Done? && caller in st.users && caller.token == token
      && (out.reply.status == Some(StatusServerError) <==>
            exists p :: p in st.passwords && p.name == body["name"] && p.userId == caller.id)
      && (out.reply.status == Some(StatusServerError) ==> out.store == st)
      && (out.reply.status != Some(StatusServerError) ==>
            out.reply == Reply(Continue, Some(StatusCreated), Text(""))
            && out.store == st.(
              passwords := st.passwords + [PasswordRow(st.nextPasswordId, body["name"], body["username"], body["password"], caller.id)],
              nextPasswordId := st.nextPasswordId + 1))
  {
    assert Fetched(UsersWithToken(st, token)) in UsersWithToken(st, token);
  }

  // ---------------------------------------------------------------------------------------
  // Reading keys, users and passwords
  // ---------------------------------------------------------------------------------------

  /** The `:username` path parameter plays no part in `callback_get_user_key`. */
  lemma KeyIgnoresUsername(st: Store, auth: Option<string>, a: Option<string>, b: Option<string>)
    ensures GetUserKey(st, auth, a) == GetUserKey(st, auth, b)
  {
  }

  /**
   * A key reply carries the Base64 text of a key stored for the caller: 44 characters, the
   * last one a single '=' pad, and text the decoder accepts.
   */
  lemma KeyReplyShape(st: Store, token: string, username: Option<string>)
    requires Valid(st)
    requires GetUserKey(st, Some(token), username).Done?
    requires GetUserKey(st, Some(token), username).reply.status == Some(StatusOk)
    ensures var caller := Fetched(UsersWithToken(st, token));
      exists k :: k in st.keys && k.userId == caller.id && caller.token == token
        && GetUserKey(st, Some(token), username).reply.body == JsonBody(JObject([("key", JString(Base64.Base64Of(k.key)))]))
        && |Base64.Base64Of(k.key)| == 44
        && Base64.Base64Of(k.key)[43] == '=' && Base64.Base64Of(k.key)[42] != '='
        && Base64.Decodable(Base64.Base64Of(k.key))
  {
    var callers := UsersWithToken(st, token);
    assert Fetched(callers) in callers;
    var keys := KeysOf(st, Fetched(callers).id);
    var k := keys[|keys| - 1];
    assert k in keys;
    KeyText(k.key);
  }

  /** The Base64 text of a 32-byte key: 44 characters ending in exactly one '=', accepted by the decoder. */
  lemma KeyText(key: seq<Base64.byte>)
    requires |key| == KeyBytes
    ensures var text := Base64.Base64Of(key);
      |text| == 44 && text[43] == '=' && text[42] != '=' && Base64.Decodable(text)
  {
    var text := Base64.Base64Of(key);
    Base64Properties.EncodingPadding(key);
    Base64.TrailingPadsIs(text, 1);
    Base64Properties.EncodingIsDecodable(key);
  }

  /**
   * `callback_get_user_by_id` answers 404 exactly when no user has the id; under the
   * constraints a 200 carries the summary of the one user that has it.
   */
  lemma UserByIdFound(st: Store, admin: string, id: int)
    requires Valid(st) && IsAdmin(st, admin)
    ensures var out := GetUserById(st, Some(admin), id);
      out.Done?
      && (out.reply.status == Some(StatusNotFound) <==> forall u :: u in st.users ==> u.id != id)
      && (out.reply.status != Some(StatusNotFound) ==>
            forall u :: u in st.users && u.id == id ==> out.reply == Reply(Continue, Some(StatusOk), JsonBody(UserSummary(u))))
  {
    var found := UsersWithId(st, id);
    if |found| == 0 {
      forall u | u in st.users ensures u.id != id {
        assert u in found <==> u.id == id;
      }
    } else {
      var v := Fetched(found);
      assert v in found;
      forall u | u in st.users && u.id == id ensures u == v {
        var i :| 0 <= i < |st.users| && st.users[i] == u;
        var j :| 0 <= j < |st.users| && st.users[j] == v;
        assert i == j;
      }
    }
  }

  /** `items` holds the entries of the passwords owned by `token`'s users and only those. */
  ghost predicate ListsPasswordsOf(st: Store, token: string, items: seq<Json>) {
    (forall j :: 0 <= j < |items| ==>
      exists p :: p in st.passwords && OwnedBy(st, p, token) && items[j] == PasswordEntry(p))
    && (forall p :: p in st.passwords && OwnedBy(st, p, token) ==> PasswordEntry(p) in items)
  }

  /** The entries of a password lookup list the caller's passwords and only those. */
  lemma EntriesListPasswordsOf(st: Store, token: string)
    ensures ListsPasswordsOf(st, token, PasswordEntries(PasswordsWithToken(st, token)))
  {
    var rows := PasswordsWithToken(st, token);
    var items := PasswordEntries(rows);
    forall j | 0 <= j < |items|
      ensures exists p :: p in st.passwords && OwnedBy(st, p, token) && items[j] == PasswordEntry(p)
    {
      var p := rows[j];
      assert p in rows;
      assert p in st.passwords && OwnedBy(st, p, token);
    }
    forall p | p in st.passwords && OwnedBy(st, p, token) ensures PasswordEntry(p) in items {
      assert p in rows;
      var j :| 0 <= j < |rows| && rows[j] == p;
      assert items[j] == PasswordEntry(p);
    }
  }

  /** The caller's users own no password exactly when the password lookup is empty. */
  lemma NoPasswordsIff(st: Store, token: string)
    ensures |PasswordsWithToken(st, token)| == 0 <==> forall p :: p in st.passwords ==> !OwnedBy(st, p, token)
  {
    var rows := PasswordsWithToken(st, token);
    if |rows| == 0 {
      forall p | p in st.passwords ensures !OwnedBy(st, p, token) {
        assert p in rows <==> OwnedBy(st, p, token);
      }
    } else {
      assert rows[0] in rows;
    }
  }

  /**
   * A password list answers 404 exactly when the caller's users own no password; a 200 lists
   * every password they own, nobody else's, with its count.
   */
  lemma PasswordListIsCallers(st: Store, token: string)
    ensures var out := GetPasswords(st, Some(token));
      var items := PasswordEntries(PasswordsWithToken(st, token));
      out.Done?
      && (out.reply.status == Some(StatusNotFound) <==> forall p :: p in st.passwords ==> !OwnedBy(st, p, token))
      && (out.reply.status != Some(StatusNotFound) ==>
            0 < |items| && ListsPasswordsOf(st, token, items)
            && out.reply == Reply(Continue, Some(StatusOk), JsonBody(JObject([("count", JInt(|items|)), ("passwords", JArray(items))]))))
  {
    NoPasswordsIff(st, token);
    EntriesListPasswordsOf(st, token);
  }

  /**
   * A login answers 401 exactly when no user has the given name and password; otherwise,
   * under the constraints, it answers with the token of the one user that has them.
   */
  lemma LoginOutcome(st: Store, body: Fields)
    requires Valid(st) && "username" in body && "password" in body
    ensures var out := Login(st, Some(body));
      out.Done? && out.store == st
      && (out.reply.status == Some(StatusUnauthorized) <==>
            forall u :: u in st.users ==> u.username != body["username"] || u.password != body["password"])
      && (out.reply.status != Some(StatusUnauthorized) ==>
            forall u :: u in st.users && u.username == body["username"] && u.password == body["password"] ==>
              out.reply == Reply(Continue, Some(StatusOk), JsonBody(JObject([("token", JString(u.token))]))))
  {
    var found := UsersWithCredentials(st, body["username"], body["password"]);
    if |found| == 0 {
      forall u | u in st.users ensures u.username != body["username"] || u.password != body["password"] {
        assert u in found <==> u.username == body["username"] && u.password == body["password"];
      }
    } else {
      var v := Fetched(found);
      assert v in found;
      forall u | u in st.users && u.username == body["username"] && u.password == body["password"] ensures u == v {
        var i :| 0 <= i < |st.users| && st.users[i] == u;
        var j :| 0 <= j < |st.users| && st.users[j] == v;
        assert i == j;
      }
    }
  }

  // ---------------------------------------------------------------------------------------
  // Constraints and a whole exchange
  // ---------------------------------------------------------------------------------------

  /** A completed `callback_new_user` keeps the constraints when the key has 32 bytes. */
  lemma NewUserKeepsValid(st: Store, auth: Option<string>, body: Option<Fields>, token: string, key: seq<Base64.byte>)
    requires Valid(st) && |key| == KeyBytes
    requires NewUser(st, auth, body, token, key).Done?
    ensures Valid(NewUser(st, auth, body, token, key).store)
  {
    if auth.Some? && body.Some? {
      var b := body.value;
      if IsAdmin(st, auth.value) && "username" in b && "first_name" in b && "last_name" in b && "password" in b
        && AddUser(st, b["username"], b["first_name"], b["last_name"], b["password"], token).Some?
      {
        AddUserValid(st, b["username"], b["first_name"], b["last_name"], b["password"], token);
        var added := AddUser(st, b["username"], b["first_name"], b["last_name"], b["password"], token).value;
        AddKeyValid(added, key, st.nextUserId);
      }
    }
  }

  /** A completed `callback_new_password` keeps the constraints. */
  lemma NewPasswordKeepsValid(st: Store, auth: Option<string>, body: Option<Fields>)
    requires Valid(st)
    requires NewPassword(st, auth, body).Done?
    ensures Valid(NewPassword(st, auth, body).store)
  {
    if auth.Some? && body.Some? {
      var b := body.value;
      var callers := UsersWithToken(st, auth.value);
      if |callers| > 0 && "name" in b && "username" in b && "password" in b {
        assert Fetched(callers) in callers;
        if AddPassword(st, b["name"], b["username"], b["password"], Fetched(callers).id).Some? {
          AddPasswordValid(st, b["name"], b["username"], b["password"], Fetched(callers).id);
        }
      }
    }
  }

  /** The user a successful `callback_new_user` appends, and what it appends. */
  lemma CreatedUser(st: Store, admin: string, body: Fields, token: string, key: seq<Base64.byte>)
    requires Valid(st)
    requires NewUser(st, Some(admin), Some(body), token, key).Done?
    requires NewUser(st, Some(admin), Some(body), token, key).reply.status == Some(StatusOk)
    ensures "username" in body && "first_name" in body && "last_name" in body && "password" in body
    ensures !exists v :: v in st.users && v.username == body["username"]
    ensures var u := User(st.nextUserId, body["username"], body["first_name"], body["last_name"], body["password"], token);
      var st' := NewUser(st, Some(admin), Some(body), token, key).store;
      st'.users == st.users + [u] && st'.keys == st.keys + [KeyRow(u.id, key)]
  {
    NewUserOutcome(st, admin, body, token, key);
  }

  /** After the admin creates a user with a token nobody held, that token fetches the user's key. */
  lemma CreatedUserFetchesKey(st: Store, admin: string, body: Fields, token: string, key: seq<Base64.byte>, path: Option<string>)
    requires Valid(st) && Unknown(st, token)
    requires NewUser(st, Some(admin), Some(body), token, key).Done?
    requires NewUser(st, Some(admin), Some(body), token, key).reply.status == Some(StatusOk)
    ensures var st' := NewUser(st, Some(admin), Some(body), token, key).store;
      GetUserKey(st', Some(token), path)
        == Done(Reply(Continue, Some(StatusOk), JsonBody(JObject([("key", JString(Base64.Base64Of(key)))]))), st')
  {
    CreatedUser(st, admin, body, token, key);
    var u := User(st.nextUserId, body["username"], body["first_name"], body["last_name"], body["password"], token);
    var st' := NewUser(st, Some(admin), Some(body), token, key).store;
    var callers := UsersWithToken(st', token);
    assert u in callers;
    assert Fetched(callers) in callers;
    assert Fetched(callers) == u;
    var keys := KeysOf(st', u.id);
    assert keys[|keys| - 1] in keys;
    assert keys[|keys| - 1] == KeyRow(u.id, key);
  }

  /** After the admin creates a user, logging in with the name and password returns the user's token. */
  lemma CreatedUserLogsIn(st: Store, admin: string, body: Fields, token: string, key: seq<Base64.byte>)
    requires Valid(st)
    requires NewUser(st, Some(admin), Some(body), token, key).Done?
    requires NewUser(st, Some(admin), Some(body), token, key).reply.status == Some(StatusOk)
    ensures var st' := NewUser(st, Some(admin), Some(body), token, key).store;
      "username" in body && "password" in body
      && Login(st', Some(map["username" := body["username"], "password" := body["password"]]))
        == Done(Reply(Continue, Some(StatusOk), JsonBody(JObject([("token", JString(token))]))), st')
  {
    CreatedUser(st, admin, body, token, key);
    var name, pass := body["username"], body["password"];
    var u := User(st.nextUserId, name, body["first_name"], body["last_name"], pass, token);
    var st' := NewUser(st, Some(admin), Some(body), token, key).store;
    var found := UsersWithCredentials(st', name, pass);
    assert u in found;
    assert Fetched(found) in found;
    assert Fetched(found) == u;
  }
}
