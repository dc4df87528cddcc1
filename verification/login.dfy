/** `POST /api/login`: check that both fields are present, look the user up
    by name, compare the password with the stored hash, and sign a token
    for the user's id and name. The hash comparison and the signer are
    parameters; each of the three library or database calls can throw,
    which the handler reports as 500. */
module Login {
  import opened Common
  import opened Auth
  import opened Schema

  datatype LoginBody = LoginBody(username: Option<string>, password: Option<string>)

  /** The calls that can throw, in the order they happen. */
  datatype LoginStep = Lookup | Compare | Sign

  datatype LoginReply =
    | LoginFailure(error: string)
    | LoggedIn(token: string, userId: nat, username: string)

  /** The response, and whether the users table was queried. */
  datatype LoginResult = LoginResult(status: int, reply: LoginReply, queried: bool)

  const CredentialsRequired: string := "Username and password required"
  const InvalidCredentials: string := "Invalid credentials"
  const ServerError: string := "Server error"
  const TokenLifetime: string := "24h"

  /** `SELECT * FROM users WHERE username = ?`, first row. Usernames are
      unique, so there is at most one. */
  function FindUser(u: UserTable, name: string): (r: Option<UserRow>)
    requires UsersValid(u)
    ensures r.Some? <==> HasUser(u, name)
    ensures r.Some? ==> r.value.id in u.rows && u.rows[r.value.id] == r.value && r.value.username == name
  {
    if HasUser(u, name) then
      var id :| id in u.rows && u.rows[id].username == name;
      Some(u.rows[id])
    else None
  }

  /** The login handler. `compare(password, hash)` is the hash check and
      `sign(claims, secret, lifetime)` the token signer. */
  function HandleLogin(u: UserTable, body: LoginBody, secret: string,
                       compare: (string, string) -> bool,
                       sign: (Claims, string, string) -> string,
                       failing: Option<LoginStep>): LoginResult
    requires UsersValid(u)
  {
    if !Present(body.username) || !Present(body.password) then
      LoginResult(400, LoginFailure(CredentialsRequired), false)
    else if failing == Some(Lookup) then
      LoginResult(500, LoginFailure(ServerError), true)
    else
      match FindUser(u, body.username.value)
      case None => LoginResult(401, LoginFailure(InvalidCredentials), true)
      case Some(user) =>
        if failing == Some(Compare) then LoginResult(500, LoginFailure(ServerError), true)
        else if !compare(body.password.value, user.passwordHash) then
          LoginResult(401, LoginFailure(InvalidCredentials), true)
        else if failing == Some(Sign) then LoginResult(500, LoginFailure(ServerError), true)
        else
          var token := sign(Claims(user.id, user.username), secret, TokenLifetime);
          LoginResult(200, LoggedIn(token, user.id, user.username), true)
  }

  /** A missing or empty username or password gives 400 before any
      database query. */
  lemma MissingFieldIs400(u: UserTable, body: LoginBody, secret: string,
                          compare: (string, string) -> bool, sign: (Claims, string, string) -> string,
                          failing: Option<LoginStep>)
    requires UsersValid(u)
    requires !Present(body.username) || !Present(body.password)
    ensures HandleLogin(u, body, secret, compare, sign, failing) ==
      LoginResult(400, LoginFailure(CredentialsRequired), false)
  {
  }

  /** An unknown user and a wrong password get the very same response, so a
      caller cannot tell which one happened. */
  lemma FailuresIndistinguishable(u: UserTable, unknown: LoginBody, wrong: LoginBody, secret: string,
                                  compare: (string, string) -> bool, sign: (Claims, string, string) -> string)
    requires UsersValid(u)
    requires Present(unknown.username) && Present(unknown.password) && !HasUser(u, unknown.username.value)
    requires Present(wrong.username) && Present(wrong.password) && HasUser(u, wrong.username.value)
    requires !compare(wrong.password.value, FindUser(u, wrong.username.value).value.passwordHash)
    ensures HandleLogin(u, unknown, secret, compare, sign, None) == HandleLogin(u, wrong, secret, compare, sign, None)
    ensures HandleLogin(u, unknown, secret, compare, sign, None) ==
      LoginResult(401, LoginFailure(InvalidCredentials), true)
  {
  }

  /** A login succeeds exactly when both fields are present, no call
      throws, the user exists and the password matches its hash. The token
      is signed for exactly the stored id and name, with a 24-hour lifetime,
      under the given secret, and the response's user carries the same id
      and name. */
  lemma SuccessIff(u: UserTable, body: LoginBody, secret: string,
                   compare: (string, string) -> bool, sign: (Claims, string, string) -> string,
                   failing: Option<LoginStep>)
    requires UsersValid(u)
    ensures var r := HandleLogin(u, body, secret, compare, sign, failing);
      r.status == 200 <==>
        Present(body.username) && Present(body.password) && failing.None? &&
        HasUser(u, body.username.value) &&
        compare(body.password.value, FindUser(u, body.username.value).value.passwordHash)
    ensures var r := HandleLogin(u, body, secret, compare, sign, failing);
      r.status == 200 ==>
        var user := FindUser(u, body.username.value).value;
        user.id in u.rows && u.rows[user.id] == user && user.username == body.username.value &&
        r.reply == LoggedIn(sign(Claims(user.id, user.username), secret, TokenLifetime), user.id, user.username)
  {
    if Present(body.username) && Present(body.password) && HasUser(u, body.username.value) {
      var user := FindUser(u, body.username.value).value;
      if compare(body.password.value, user.passwordHash) {
        assert FindUser(u, body.username.value) == Some(user);
        match failing {
          case None =>
          case Some(Lookup) =>
          case Some(Compare) =>
          case Some(Sign) =>
        }
      }
    }
  }

  /** Any call that throws once the fields are present gives 500 with a
      generic message; a throw can only come after the query started. */
  lemma ThrowIs500(u: UserTable, body: LoginBody, secret: string,
                   compare: (string, string) -> bool, sign: (Claims, string, string) -> string,
                   step: LoginStep)
    requires UsersValid(u)
    ensures var r := HandleLogin(u, body, secret, compare, sign, Some(step));
      (r.status == 500 ==> r.reply == LoginFailure(ServerError) && r.queried) &&
      (step == Lookup && Present(body.username) && Present(body.password) ==> r.status == 500)
  {
  }

  /** The outcomes are exactly 200, 400, 401 and 500. */
  lemma LoginStatuses(u: UserTable, body: LoginBody, secret: string,
                      compare: (string, string) -> bool, sign: (Claims, string, string) -> string,
                      failing: Option<LoginStep>)
    requires UsersValid(u)
    ensures var r := HandleLogin(u, body, secret, compare, sign, failing);
      (r.status == 200 || r.status == 400 || r.status == 401 || r.status == 500) &&
      (r.status != 200 <==> r.reply.LoginFailure?)
  {
  }
}
