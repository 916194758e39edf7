/**
 * The decision rules of the request handlers of api.c, each a function from the request fields
 * and the store to what the callback leaves behind: the ulfius return code, the status and body
 * it set on the response, and the store after the inserts it requested. Generated values
 * (`generate_password`, `crypto_secretbox_keygen`) and the `strtol` reading of the `:id`
 * parameter are inputs.
 */
module Handlers {
  import opened Wrappers
  import opened Store
  import Base64

  /** What a ulfius callback returns: `U_CALLBACK_CONTINUE`, `U_CALLBACK_UNAUTHORIZED` or `U_CALLBACK_ERROR`. */
  datatype Code = Continue | Unauthorized | Error

  /** The JSON values the handlers build with `json_pack`. */
  datatype Json =
    | JInt(n: int)
    | JString(s: string)
    | JArray(items: seq<Json>)
    | JObject(fields: seq<(string, Json)>)

  /** The body a callback set: none, a text body, ulfius's default "not found" text, or JSON. */
  datatype Body = NoBody | Text(text: string) | NotFoundText | JsonBody(json: Json)

  /** The response as the callback left it (status None: never set). */
  datatype Reply = Reply(code: Code, status: Option<int>, body: Body)

  /**
   * The result of a handler: its reply and the store afterwards, or Unspecified where the
   * C code passes a NULL string to the database layer or reads a record no lookup filled.
   */
  datatype Outcome = Done(reply: Reply, store: Store) | Unspecified

  /** A parsed JSON request body: the string members of the object (None: the parse failed). */
  type Fields = map<string, string>

  /** `json_string_value(json_object_get(body, key))`: None stands for NULL. */
  function Field(body: Fields, key: string): (v: Option<string>)
    ensures v.Some? <==> key in body
    ensures v.Some? ==> v.value == body[key]
  {
    if key in body then Some(body[key]) else None
  }

  const StatusOk := 200
  const StatusCreated := 201
  const StatusBadRequest := 400
  const StatusUnauthorized := 401
  const StatusNotFound := 404
  const StatusServerError := 500

  /** The reply of the admin gate to anyone else (api.c:128-131 and the two copies of it). */
  const NotAdmin := Reply(Unauthorized, Some(StatusUnauthorized), Text("error authentication"))

  /** The reply to a body that does not parse as JSON. */
  const BadJson := Reply(Error, Some(StatusBadRequest), Text(""))

  /**
   * The admin gate: the record `db_user_get_by_token` leaves must be called `admin`; the row
   * count is not looked at, so no row (a blank record) fails and several rows leave the last.
   */
  function IsAdmin(st: Store, token: string): (ok: bool)
    ensures ok <==> var holders := UsersWithToken(st, token);
      |holders| > 0 && holders[|holders| - 1].username == "admin"
  {
    Fetched(UsersWithToken(st, token)).username == "admin"
  }

  /** `callback_new_user` (api.c:119-182). */
  function NewUser(st: Store, auth: Option<string>, body: Option<Fields>, token: string, key: seq<Base64.byte>): (out: Outcome)
    ensures out.Done? && out.store != st ==> auth.Some? && IsAdmin(st, auth.value)
  {
    if auth.None? then Unspecified
    else if !IsAdmin(st, auth.value) then Done(NotAdmin, st)
    else if body.None? then Done(BadJson, st)
    else
      var username := Field(body.value, "username");
      var firstName := Field(body.value, "first_name");
      var lastName := Field(body.value, "last_name");
      var password := Field(body.value, "password");
      if username.None? || firstName.None? || lastName.None? || password.None? then Unspecified
      else
        match AddUser(st, username.value, firstName.value, lastName.value, password.value, token)
        case None => Done(Reply(Error, Some(StatusServerError), Text("failed to add new user")), st)
        case Some(added) =>
          var named := UsersNamed(added, username.value);
          if |named| != 1 then Done(Reply(Error, Some(StatusServerError), Text("failed to add new user")), added)
          else
            Done(Reply(Continue, Some(StatusOk), JsonBody(JObject([("token", JString(token))]))),
                 AddKey(added, key, Fetched(named).id))
  }

  /** One entry of the user list: `{"id", "first_name", "last_name"}`. */
  function UserSummary(u: User): Json {
    JObject([("id", JInt(u.id)), ("first_name", JString(u.firstName)), ("last_name", JString(u.lastName))])
  }

  function UserSummaries(users: seq<User>): (items: seq<Json>)
    ensures |items| == |users|
    ensures forall i :: 0 <= i < |users| ==> items[i] == UserSummary(users[i])
  {
    if |users| == 0 then [] else [UserSummary(users[0])] + UserSummaries(users[1..])
  }

  /** `callback_get_users` (api.c:187-224). */
  function GetUsers(st: Store, auth: Option<string>): (out: Outcome)
    ensures out.Done? ==> out.store == st
  {
    if auth.None? then Unspecified
    else if !IsAdmin(st, auth.value) then Done(NotAdmin, st)
    else
      Done(Reply(Continue, Some(StatusOk), JsonBody(JObject([
        ("count", JInt(|st.users|)),
        ("users", JArray(UserSummaries(st.users)))]))), st)
  }

  /**
   * `callback_get_user_key` (api.c:229-261). `username` is the `:username` path parameter,
   * which the code reads and never uses. The row count of the key lookup is checked and the
   * test does nothing, so with no key row the record encoded is one no lookup filled
   * (Unspecified), and with several the last one fetched.
   */
  function GetUserKey(st: Store, auth: Option<string>, username: Option<string>): (out: Outcome)
    ensures out.Done? ==> out.store == st
  {
    if auth.None? then Unspecified
    else
      var callers := UsersWithToken(st, auth.value);
      if |callers| == 0 then Done(Reply(Unauthorized, None, NoBody), st)
      else
        var keys := KeysOf(st, Fetched(callers).id);
        if |keys| == 0 then Unspecified
        else
          Done(Reply(Continue, Some(StatusOk),
            JsonBody(JObject([("key", JString(Base64.Base64Of(keys[|keys| - 1].key)))]))), st)
  }

  /** `callback_get_user_by_id` (api.c:266-303); `id` is what `strtol` read from `:id`. */
  function GetUserById(st: Store, auth: Option<string>, id: int): (out: Outcome)
    ensures out.Done? ==> out.store == st
  {
    if auth.None? then Unspecified
    else if !IsAdmin(st, auth.value) then Done(NotAdmin, st)
    else
      var found := UsersWithId(st, id);
      if |found| == 0 then Done(Reply(Continue, Some(StatusNotFound), NotFoundText), st)
      else Done(Reply(Continue, Some(StatusOk), JsonBody(UserSummary(Fetched(found)))), st)
  }

  /** One entry of the password list: `{"id", "name", "username", "password"}`. */
  function PasswordEntry(p: PasswordRow): Json {
    JObject([("id", JInt(p.id)), ("name", JString(p.name)), ("username", JString(p.username)),
             ("password", JString(p.password))])
  }

  function PasswordEntries(rows: seq<PasswordRow>): (items: seq<Json>)
    ensures |items| == |rows|
    ensures forall i :: 0 <= i < |rows| ==> items[i] == PasswordEntry(rows[i])
  {
    if |rows| == 0 then [] else [PasswordEntry(rows[0])] + PasswordEntries(rows[1..])
  }

  /** `callback_get_passwords` (api.c:330-370). */
  function GetPasswords(st: Store, auth: Option<string>): (out: Outcome)
    ensures out.Done? ==> out.store == st
  {
    if auth.None? then Unspecified
    else
      var rows := PasswordsWithToken(st, auth.value);
      if |rows| == 0 then Done(Reply(Continue, Some(StatusNotFound), NotFoundText), st)
      else
        Done(Reply(Continue, Some(StatusOk), JsonBody(JObject([
          ("count", JInt(|rows|)),
          ("passwords", JArray(PasswordEntries(rows)))]))), st)
  }

  /** `callback_new_password` (api.c:372-410): the body is parsed before the token is looked at. */
  function NewPassword(st: Store, auth: Option<string>, body: Option<Fields>): (out: Outcome)
    ensures out.Done? && out.store != st ==> auth.Some? && |UsersWithToken(st, auth.value)| > 0
  {
    if body.None? then Done(BadJson, st)
    else if auth.None? then Unspecified
    else
      var callers := UsersWithToken(st, auth.value);
      if |callers| == 0 then Done(Reply(Unauthorized, None, NoBody), st)
      else
        var name := Field(body.value, "name");
        var username := Field(body.value, "username");
        var password := Field(body.value, "password");
        if name.None? || username.None? || password.None? then Unspecified
        else
          match AddPassword(st, name.value, username.value, password.value, Fetched(callers).id)
          case None => Done(Reply(Error, Some(StatusServerError), Text("failed to add new password")), st)
          case Some(added) => Done(Reply(Continue, Some(StatusCreated), Text("")), added)
  }

  /** `callback_login` (api.c:412-446). */
  function Login(st: Store, body: Option<Fields>): (out: Outcome)
    ensures out.Done? ==> out.store == st
  {
    if body.None? then Done(BadJson, st)
    else
      var username := Field(body.value, "username");
      var password := Field(body.value, "password");
      if username.None? || password.None? then Unspecified
      else
        var found := UsersWithCredentials(st, username.value, password.value);
        if |found| == 0 then Done(Reply(Unauthorized, Some(StatusUnauthorized), NoBody), st)
        else Done(Reply(Continue, Some(StatusOk), JsonBody(JObject([("token", JString(Fetched(found).token))]))), st)
  }
}
