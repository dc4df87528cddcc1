/** The token check that guards the admin routes: take the second
    space-separated field of the `Authorization` header as the token, refuse
    with 401 when there is none, ask the verifier, refuse with 403 when it
    rejects the token, and otherwise record the decoded claims on the request
    and pass it on. The verifier is a parameter. */
module Auth {
  import opened Common
  import opened JsText
  import opened Sql

  /** The payload the login handler signs and the verifier hands back. */
  datatype Claims = Claims(id: nat, username: string)

  const DefaultSecret: string := "your-secret-key-change-in-production"

  /** `JWT_SECRET`: the variable when it is non-empty, else the default. */
  function JwtSecret(env: Env): (secret: string)
    ensures Present(EnvVar(env, "JWT_SECRET")) ==> secret == env["JWT_SECRET"]
    ensures !Present(EnvVar(env, "JWT_SECRET")) ==> secret == DefaultSecret
  {
    OrElse(EnvVar(env, "JWT_SECRET"), DefaultSecret)
  }

  /** `authHeader && authHeader.split(' ')[1]`: `None` stands for a missing
      header or a header with fewer than two fields. */
  function TokenOf(header: Option<string>): Option<string>
  {
    if !Present(header) then None
    else
      var fields := Split(header.value, ' ');
      if |fields| >= 2 then Some(fields[1]) else None
  }

  /** The token is the second field whatever the first says: for any scheme
      word, token and further fields free of spaces, the header made of them
      yields the token. */
  lemma TokenIsSecondField(fields: seq<string>)
    requires |fields| >= 2
    requires forall i | 0 <= i < |fields| :: ' ' !in fields[i]
    ensures TokenOf(Some(JoinWith(fields, " "))) == Some(fields[1])
  {
    SplitJoin(fields, ' ');
    JoinSplit(JoinWith(fields, " "), ' ');
  }

  /** A header with no space at all carries no token. */
  lemma NoSpaceNoToken(header: string)
    requires ' ' !in header
    ensures TokenOf(Some(header)) == None
  {
    SplitJoin([header], ' ');
  }

  /** What the middleware does, in order. */
  datatype Effect =
    | VerifyCalled(token: string)
    | Responded(status: int, error: string)
    | UserSet(user: Claims)
    | NextCalled

  const TokenRequired: string := "Access token required"
  const TokenInvalid: string := "Invalid or expired token"

  /** `authenticateToken`. `verify(token, secret)` is the signature and
      expiry check: the decoded claims, or `None` when it reports an error. */
  function Authenticate(header: Option<string>, secret: string,
                        verify: (string, string) -> Option<Claims>): (trace: seq<Effect>)
    ensures |trace| >= 1
    ensures !Admitted(trace) ==> trace[|trace| - 1].Responded?
  {
    var token := TokenOf(header);
    if !Present(token) then [Responded(401, TokenRequired)]
    else
      match verify(token.value, secret)
      case None => [VerifyCalled(token.value), Responded(403, TokenInvalid)]
      case Some(user) => [VerifyCalled(token.value), UserSet(user), NextCalled]
  }

  function CountNext(trace: seq<Effect>): nat
  {
    if |trace| == 0 then 0 else (if trace[0] == NextCalled then 1 else 0) + CountNext(trace[1..])
  }

  predicate CallsVerify(trace: seq<Effect>)
  {
    exists i | 0 <= i < |trace| :: trace[i].VerifyCalled?
  }

  /** The request goes on to the route handler. */
  predicate Admitted(trace: seq<Effect>)
  {
    |trace| > 0 && trace[|trace| - 1] == NextCalled
  }

  /** No usable token (no header, one field only, or an empty second
      field): 401, and neither the verifier nor the next handler runs. */
  lemma MissingTokenIs401(header: Option<string>, secret: string, verify: (string, string) -> Option<Claims>)
    requires !Present(TokenOf(header))
    ensures Authenticate(header, secret, verify) == [Responded(401, TokenRequired)]
    ensures !CallsVerify(Authenticate(header, secret, verify)) && CountNext(Authenticate(header, secret, verify)) == 0
  {
  }

  /** A token the verifier rejects: 403 after verifying, and the next
      handler does not run. */
  lemma RejectedTokenIs403(header: Option<string>, secret: string, verify: (string, string) -> Option<Claims>)
    requires Present(TokenOf(header)) && verify(TokenOf(header).value, secret).None?
    ensures var trace := Authenticate(header, secret, verify);
      trace == [VerifyCalled(TokenOf(header).value), Responded(403, TokenInvalid)] &&
      CountNext(trace) == 0
  {
    var trace := Authenticate(header, secret, verify);
    assert trace[1..] == [Responded(403, TokenInvalid)];
    assert trace[1..][1..] == [];
    assert CountNext(trace[1..]) == 0;
  }

  /** A request is admitted exactly when a non-empty token is present and
      the verifier accepts it under the configured secret; then the decoded
      claims are recorded on the request and the next handler runs exactly
      once, last. */
  lemma AdmittedIff(header: Option<string>, secret: string, verify: (string, string) -> Option<Claims>)
    ensures var trace := Authenticate(header, secret, verify);
      (Admitted(trace) <==> Present(TokenOf(header)) && verify(TokenOf(header).value, secret).Some?) &&
      (Admitted(trace) ==>
         CountNext(trace) == 1 && UserSet(verify(TokenOf(header).value, secret).value) in trace) &&
      (!Admitted(trace) ==> CountNext(trace) == 0 && trace[|trace| - 1].Responded?)
  {
    var trace := Authenticate(header, secret, verify);
    if !Present(TokenOf(header)) {
      MissingTokenIs401(header, secret, verify);
    } else if verify(TokenOf(header).value, secret).None? {
      RejectedTokenIs403(header, secret, verify);
    } else {
      var user := verify(TokenOf(header).value, secret).value;
      assert trace[1..] == [UserSet(user), NextCalled];
      assert trace[1..][1..] == [NextCalled];
      assert trace[1..][1..][1..] == [];
      assert CountNext(trace[1..][1..]) == 1;
      assert CountNext(trace[1..]) == 1;
      assert trace[1] == UserSet(user);
    }
  }
}
