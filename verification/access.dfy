/** Login, the `x-username` principal resolver and the role gate. */
module Access {
  import opened Wrappers
  import opened JsValues
  import opened Seqs
  import opened Domain

  /** `authorizeRole(role)`: a request passes only with a bound principal of that role. */
  predicate Authorize(principal: Option<User>, role: string) {
    principal.Some? && principal.value.role == role
  }

  function UsernameIs(name: string): User -> bool {
    (u: User) => u.username == name
  }

  /** The header middleware: a truthy `x-username` binds the first user of
      that name; an absent or empty header, or an unknown name, binds none. */
  function ResolvePrincipal(users: seq<User>, header: Option<string>): (p: Option<User>)
    ensures p.Some? <==>
      header.Some? && header.value != "" &&
      exists i :: 0 <= i < |users| && users[i].username == header.value
    ensures p.Some? ==>
      exists i :: IsFirst(users, UsernameIs(header.value), i) && p.value == users[i]
  {
    if header.None? || header.value == "" then None
    else
      var k := FindIndex(users, UsernameIs(header.value));
      if k == -1 then None else Some(users[k])
  }

  /** `u.username === username && u.password === password` with body values. */
  function CredentialsOf(username: Option<JsValue>, password: Option<JsValue>): User -> bool {
    (u: User) => username == Some(JStr(u.username)) && password == Some(JStr(u.password))
  }

  /** POST /api/login. */
  function Login(users: seq<User>, username: Option<JsValue>, password: Option<JsValue>): (resp: Response)
    ensures resp.status == 200 <==>
      exists i :: 0 <= i < |users| && CredentialsOf(username, password)(users[i])
    ensures forall i :: IsFirst(users, CredentialsOf(username, password), i) ==>
      resp == Response(200, LoginSuccess(WithoutPassword(users[i])))
    ensures resp.status != 200 ==> resp == Response(401, LoginFailure(InvalidCredentials))
  {
    var k := FindIndex(users, CredentialsOf(username, password));
    if k == -1 then Response(401, LoginFailure(InvalidCredentials))
    else Response(200, LoginSuccess(WithoutPassword(users[k])))
  }

  /** After a successful login the client sends its username as the header;
      a non-empty one then binds a principal with that username (the first
      user of that name, which need not be the one whose password matched). */
  lemma LoginThenResolve(users: seq<User>, name: string, password: Option<JsValue>)
    requires Login(users, Some(JStr(name)), password).status == 200 && name != ""
    ensures ResolvePrincipal(users, Some(name)).Some?
    ensures ResolvePrincipal(users, Some(name)).value.username == name
  {
    var i :| 0 <= i < |users| && CredentialsOf(Some(JStr(name)), password)(users[i]);
    assert users[i].username == name;
  }
}
