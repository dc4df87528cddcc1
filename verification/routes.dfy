/** The posts router's protected routes as registered: the three writes
    and the admin listing each run the token check first and reach their
    handler only when the check passes the request on. */
module Routes {
  import opened Common
  import opened Sql
  import opened Auth
  import opened Posts
  import opened PostQueries

  /** A write request by route: `POST /posts`, `PUT /posts/:id`,
      `DELETE /posts/:id`. */
  datatype WriteRequest =
    | CreateRequest(body: PostBody)
    | UpdateRequest(id: Option<nat>, body: PostBody)
    | DeleteRequest(id: Option<nat>)

  /** The handler a request reaches once admitted. */
  function Handle(t: PostTable, req: WriteRequest, now: int, engine: Engine,
                  failAt: FailurePoint): (out: Transition)
    requires Valid(t)
    ensures Valid(out.table)
    ensures (out.response.status == 400 || out.response.status == 404 ||
             out.response.status == 500) ==> out.table == t
  {
    match req
    case CreateRequest(b) => CreatePost(t, b, now, failAt)
    case UpdateRequest(id, b) => UpdatePost(t, id, b, now, engine, failAt)
    case DeleteRequest(id) => DeletePost(t, id, failAt)
  }

  /** The middleware's response when it stops the request. */
  function Refusal(trace: seq<Effect>): Response
    requires |trace| >= 1 && trace[|trace| - 1].Responded?
  {
    var last := trace[|trace| - 1];
    Fail(last.status, last.error)
  }

  /** A write route: the token check, then the handler. */
  function GuardedWrite(t: PostTable, header: Option<string>, secret: string,
                        verify: (string, string) -> Option<Claims>,
                        req: WriteRequest, now: int, engine: Engine,
                        failAt: FailurePoint): (out: Transition)
    requires Valid(t)
    ensures Valid(out.table)
  {
    var trace := Authenticate(header, secret, verify);
    if Admitted(trace) then Handle(t, req, now, engine, failAt)
    else Transition(Refusal(trace), t)
  }

  /** Without a token the verifier accepts, no write route changes the
      table: the request is refused with 401 when no token was sent and 403
      when the verifier rejects it. With one, the route behaves exactly as
      its handler. */
  lemma WritesNeedAcceptedToken(t: PostTable, header: Option<string>, secret: string,
                                verify: (string, string) -> Option<Claims>,
                                req: WriteRequest, now: int, engine: Engine,
                                failAt: FailurePoint)
    requires Valid(t)
    ensures var out := GuardedWrite(t, header, secret, verify, req, now, engine, failAt);
      var token := TokenOf(header);
      (!Present(token) ==> out == Transition(Fail(401, TokenRequired), t)) &&
      (Present(token) && verify(token.value, secret).None? ==>
         out == Transition(Fail(403, TokenInvalid), t)) &&
      (Present(token) && verify(token.value, secret).Some? ==>
         out == Handle(t, req, now, engine, failAt))
  {
    AdmittedIff(header, secret, verify);
    var token := TokenOf(header);
    if !Present(token) {
      MissingTokenIs401(header, secret, verify);
    } else if verify(token.value, secret).None? {
      RejectedTokenIs403(header, secret, verify);
    }
  }

  /** A table changes only through an admitted request whose handler
      answers with success. */
  lemma ChangesOnlyWhenAdmitted(t: PostTable, header: Option<string>, secret: string,
                                verify: (string, string) -> Option<Claims>,
                                req: WriteRequest, now: int, engine: Engine,
                                failAt: FailurePoint)
    requires Valid(t)
    requires GuardedWrite(t, header, secret, verify, req, now, engine, failAt).table != t
    ensures Admitted(Authenticate(header, secret, verify))
    ensures var status := GuardedWrite(t, header, secret, verify, req, now, engine, failAt).response.status;
      status == 200 || status == 201
  {
  }

  /** `GET /api/admin/posts`: the token check, then the listing of every
      post, drafts included. Without a token the verifier accepts, the
      request is refused with 401 or 403 and no post is listed, so drafts
      reach only a caller holding an accepted token. */
  method GuardedAdminPosts(t: PostTable, header: Option<string>, secret: string,
                           verify: (string, string) -> Option<Claims>,
                           failAt: FailurePoint) returns (resp: Response)
    requires Valid(t)
    ensures var token := TokenOf(header);
      (!Present(token) ==> resp == Fail(401, TokenRequired)) &&
      (Present(token) && verify(token.value, secret).None? ==> resp == Fail(403, TokenInvalid))
    ensures resp.reply.Listing? <==>
      Present(TokenOf(header)) && verify(TokenOf(header).value, secret).Some? && !FailsAt(failAt, 0)
    ensures resp.reply.Listing? ==> resp.status == 200 && IsListing(t, AllRows, resp.reply.posts)
    ensures Admitted(Authenticate(header, secret, verify)) && FailsAt(failAt, 0) ==>
      resp == Fail(500, DatabaseError)
  {
    var trace := Authenticate(header, secret, verify);
    AdmittedIff(header, secret, verify);
    if Admitted(trace) {
      resp := AdminPosts(t, failAt);
    } else {
      var token := TokenOf(header);
      if !Present(token) {
        MissingTokenIs401(header, secret, verify);
      } else {
        RejectedTokenIs403(header, secret, verify);
      }
      resp := Refusal(trace);
    }
  }
}
