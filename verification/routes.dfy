/**
 * The wired note routes: `protect` in front of each handler, as function
 * composition. `deleteNote` has no route, and `getMyProfile` is not mounted
 * either; both are reachable only as handlers.
 */
module NoteRoutes {
  import opened Wrappers
  import opened Text
  import opened Jwt
  import opened UserModel
  import opened NoteModel
  import opened Responses
  import opened AuthMiddleware
  import opened NoteControllers
  import opened UserControllers

  datatype NoteRequest =
    | ListNotes
    | ReadNote(id: NoteId)
    | PostNote(body: NoteBody, freshId: NoteId)
    | PutNote(id: NoteId, body: NoteBody)

  /** What the client gets: the JSON envelope, or Express's default error page. */
  datatype Reply = Answered(response: Response) | ErrorPage(message: string)

  datatype Exchange = Exchange(reply: Reply, notes: NoteStore)

  /**
   * The route table: runs one admitted request through its handler. Every
   * admitted request is answered with an envelope, a success carries the
   * gate's outbound token, and only the caller's notes can change.
   */
  function Dispatch(notes: NoteStore, ctx: AuthContext, req: NoteRequest, nowMs: nat): (x: Exchange)
    ensures x.reply.Answered?
    ensures x.reply.response.status == StatusSuccess ==> TokenOf(x.reply.response.payload) == Some(ctx.newToken)
    ensures req.ListNotes? || req.ReadNote? ==> x.notes == notes
    ensures OnlyOwnNotesTouched(notes, x.notes, ctx.user.id) && OwnersKept(notes, x.notes)
  {
    match req
    case ListNotes => Exchange(Answered(GetAllNotes(notes, Some(ctx))), notes)
    case ReadNote(id) => Exchange(Answered(GetNote(notes, Some(ctx), id)), notes)
    case PostNote(body, freshId) =>
      CreateRespectsOwnership(notes, ctx, body, freshId, nowMs);
      var t := CreateNote(notes, Some(ctx), body, freshId, nowMs);
      Exchange(Answered(t.response), t.store)
    case PutNote(id, body) =>
      UpdateRespectsOwnership(notes, ctx, id, body, nowMs);
      var t := UpdateNote(notes, Some(ctx), id, body, nowMs);
      Exchange(Answered(t.response), t.store)
  }

  /** `router.route(...).<verb>(protect, handler)`: the handler runs only when the gate admits. */
  function Serve(
    users: UserStore, notes: NoteStore, jwt: JwtConfig, header: Option<string>, nowMs: nat, req: NoteRequest): (x: Exchange)
    ensures Protect(users, jwt, header, nowMs).Rejected? ==>
              x == Exchange(Answered(Fail(401, NotAuthorizedMessage)), notes)
    ensures Protect(users, jwt, header, nowMs).Crashed? ==> x.notes == notes && x.reply.ErrorPage?
    ensures Protect(users, jwt, header, nowMs).Admitted? ==>
              x == Dispatch(notes, Protect(users, jwt, header, nowMs).context, req, nowMs)
  {
    match Protect(users, jwt, header, nowMs)
    case Rejected(response) => Exchange(Answered(response), notes)
    case Crashed(message) => Exchange(ErrorPage(message), notes)
    case Admitted(ctx) => Dispatch(notes, ctx, req, nowMs)
  }

  /** The outbound token a reply carries, if it has one. */
  function ReplyToken(x: Exchange): Option<string> {
    if x.reply.Answered? then TokenOf(x.reply.response.payload) else None
  }

  /** A request without a Bearer header never reaches a handler and changes nothing. */
  lemma NoTokenNeverReachesHandler(
    users: UserStore, notes: NoteStore, jwt: JwtConfig, header: Option<string>, nowMs: nat, req: NoteRequest)
    requires header.None? || !StartsWith(header.value, "Bearer")
    ensures Serve(users, notes, jwt, header, nowMs, req) == Exchange(Answered(Fail(401, NotAuthorizedMessage)), notes)
  {
    FailuresCollapse(users, jwt, header, nowMs);
  }

  /** Every successful reply to an admitted request carries the gate's outbound token. */
  lemma SuccessCarriesOutboundToken(
    users: UserStore, notes: NoteStore, jwt: JwtConfig, header: Option<string>, nowMs: nat, req: NoteRequest)
    requires Serve(users, notes, jwt, header, nowMs, req).reply.Answered?
    requires Serve(users, notes, jwt, header, nowMs, req).reply.response.status == StatusSuccess
    ensures Protect(users, jwt, header, nowMs).Admitted?
    ensures ReplyToken(Serve(users, notes, jwt, header, nowMs, req)) == Some(Protect(users, jwt, header, nowMs).context.newToken)
  {
  }

  /** An admitted note creation is answered by the handler, and a success carries the gate's outbound token. */
  lemma AdmittedCreateCarriesToken(
    users: UserStore, notes: NoteStore, jwt: JwtConfig, header: Option<string>, nowMs: nat, body: NoteBody, freshId: NoteId)
    requires Protect(users, jwt, header, nowMs).Admitted?
    ensures var x := Serve(users, notes, jwt, header, nowMs, PostNote(body, freshId));
            && x.reply.Answered?
            && (x.reply.response.status == StatusSuccess ==>
                  ReplyToken(x) == Some(Protect(users, jwt, header, nowMs).context.newToken))
  {
    var ctx := Protect(users, jwt, header, nowMs).context;
    var t := CreateNote(notes, Some(ctx), body, freshId, nowMs);
    assert Serve(users, notes, jwt, header, nowMs, PostNote(body, freshId)) == Exchange(Answered(t.response), t.store);
  }

  /**
   * Log in, then create a note less than twelve days (minus one second) later
   * presenting the login token:
   * the note is answered with that same token, not a renewed one.
   */
  lemma LoginTokenIsEchoed(
    users: UserStore, notes: NoteStore, jwt: JwtConfig, hasher: Hasher, login: LoginBody,
    loginMs: nat, laterMs: nat, body: NoteBody, freshId: NoteId)
    requires LoginUser(users, jwt, hasher, login, loginMs).code == 200
    requires loginMs <= laterMs < loginMs + 12 * 24 * 60 * 60 * 1000 - 1000
    requires var u := FindByEmail(users, login.email.value).value;
             var issued := GenerateToken(jwt, u.id, loginMs).value;
             && ' ' !in issued.text
             && jwt.verify(issued.text, Seconds(laterMs)) == Some(issued.claims)
    requires UsersInvariant(users)
    ensures var token := LoginUser(users, jwt, hasher, login, loginMs).payload.token;
            var x := Serve(users, notes, jwt, Some("Bearer " + token), laterMs, PostNote(body, freshId));
            x.reply.Answered? && (x.reply.response.status == StatusSuccess ==> ReplyToken(x) == Some(token))
  {
    var u := FindByEmail(users, login.email.value).value;
    var issued := GenerateToken(jwt, u.id, loginMs).value;
    var token := LoginUser(users, jwt, hasher, login, loginMs).payload.token;
    assert token == issued.text && SecretPresent(jwt.secret);
    var i :| 0 <= i < |users| && users[i] == u;
    FindByIdUnique(users, i);
    RenewedTokenIsKept(users, jwt, u.id, loginMs, laterMs);
    AdmittedCreateCarriesToken(users, notes, jwt, Some("Bearer " + token), laterMs, body, freshId);
  }

  /**
   * A request whose token has a day or less left is answered with a fresh
   * token for the same user, valid for fourteen days from now.
   */
  lemma NearExpiryRenews(
    users: UserStore, notes: NoteStore, jwt: JwtConfig, header: Option<string>, nowMs: nat, req: NoteRequest)
    requires SecretPresent(jwt.secret)
    requires VerifyToken(users, jwt, header, Seconds(nowMs)).Some?
    requires VerifyToken(users, jwt, header, Seconds(nowMs)).value.expirationTime - Seconds(nowMs) <= 24 * 60 * 60
    ensures var d := VerifyToken(users, jwt, header, Seconds(nowMs)).value;
            var issued := GenerateToken(jwt, d.user.id, nowMs).value;
            && Protect(users, jwt, header, nowMs) == Admitted(AuthContext(d.user, issued.text))
            && issued.claims.id == d.user.id
            && issued.claims.exp == Seconds(nowMs) + 1209600
  {
  }

  /** A user reading another user's note gets 401 and no note content. */
  lemma StrangerCannotRead(
    users: UserStore, notes: NoteStore, jwt: JwtConfig, header: Option<string>, nowMs: nat, id: NoteId)
    requires Protect(users, jwt, header, nowMs).Admitted?
    requires id in notes && notes[id].owner != Protect(users, jwt, header, nowMs).context.user.id
    ensures Serve(users, notes, jwt, header, nowMs, ReadNote(id)) == Exchange(Answered(Fail(401, NotOwnerMessage)), notes)
  {
  }
}
