/**
 * The five note handlers, each a pure transition from the note collection and
 * the context the gate attached to the request to a response and the new
 * collection. Read-only handlers return no collection at all.
 */
module NoteControllers {
  import opened Wrappers
  import opened Text
  import opened UserModel
  import opened NoteModel
  import opened Responses
  import opened AuthMiddleware

  const NoUserMessage := "Unauthorized: No User found"
  const NoteNotFoundMessage := "Note not found"
  const NotOwnerMessage := "Unauthorized: Note does not belong to user"
  const FieldsRequiredMessage := "Title and content are required"
  const ServerErrorMessage := "Server error"

  /** `req.body` of create and update; a field the client left out is `None`. */
  datatype NoteBody = NoteBody(
    title: Option<string>,
    content: Option<string>,
    tags: Option<seq<string>>,
    isPinned: Option<bool>)

  /** A handler's response and the collection after it. */
  datatype Transition = Transition(response: Response, store: NoteStore)

  /** A response that carries `_token` equal to the gate's outbound token. */
  predicate CarriesGateToken(r: Response, auth: Option<AuthContext>) {
    auth.Some? && TokenOf(r.payload) == Some(auth.value.newToken)
  }

  /** Every note that changed or disappeared belonged to `uid`, and every new note belongs to `uid`. */
  predicate OnlyOwnNotesTouched(before: NoteStore, after: NoteStore, uid: UserId) {
    && (forall k :: k in before && (k !in after || after[k] != before[k]) ==> before[k].owner == uid)
    && (forall k :: k in after && k !in before ==> after[k].owner == uid)
  }

  /** Owners are fixed once a note exists. */
  predicate OwnersKept(before: NoteStore, after: NoteStore) {
    forall k :: k in before && k in after ==> after[k].owner == before[k].owner
  }

  // ---------------------------------------------------------------------------

  /**
   * `getAllNotes`: the caller's notes, newest first, each exactly once. An empty
   * list is still a success, with its own message.
   */
  function GetAllNotes(store: NoteStore, auth: Option<AuthContext>): (r: Response)
    ensures auth.None? ==> r == Fail(401, NoUserMessage)
    ensures auth.Some? ==> r.code == 200 && r.status == StatusSuccess && r.payload.NotesPayload?
    ensures auth.Some? ==> CarriesGateToken(r, auth)
    ensures auth.Some? ==>
              && (forall e :: e in r.payload.notes <==> OwnedEntry(store, auth.value.user.id, e))
              && DistinctIds(r.payload.notes)
              && NewestFirst(r.payload.notes)
    ensures auth.Some? ==>
              (r.message == "No notes found for user" <==> forall k :: k in store ==> store[k].owner != auth.value.user.id)
    ensures auth.Some? && (exists k :: k in store && store[k].owner == auth.value.user.id) ==>
              r.message == "Notes fetched successfully"
  {
    match auth
    case None => Fail(401, NoUserMessage)
    case Some(ctx) => ListOwnNotes(store, ctx)
  }

  /** The body of `getAllNotes` once a user is attached. */
  function ListOwnNotes(store: NoteStore, ctx: AuthContext): (r: Response)
    ensures r.code == 200 && r.status == StatusSuccess && r.payload.NotesPayload?
    ensures TokenOf(r.payload) == Some(ctx.newToken)
    ensures forall e :: e in r.payload.notes <==> OwnedEntry(store, ctx.user.id, e)
    ensures DistinctIds(r.payload.notes) && NewestFirst(r.payload.notes)
    ensures r.message == "No notes found for user" <==> forall k :: k in store ==> store[k].owner != ctx.user.id
    ensures (exists k :: k in store && store[k].owner == ctx.user.id) ==> r.message == "Notes fetched successfully"
  {
    var notes := FindByOwner(store, ctx.user.id);
    if |notes| == 0 then
      assert forall k :: k in store ==> store[k].owner != ctx.user.id by {
        forall k | k in store ensures store[k].owner != ctx.user.id {
          assert !OwnedEntry(store, ctx.user.id, Entry(k, store[k]));
        }
      }
      Succeed(200, "No notes found for user", NotesPayload([], ctx.newToken))
    else
      assert OwnedEntry(store, ctx.user.id, notes[0]);
      Succeed(200, "Notes fetched successfully", NotesPayload(notes, ctx.newToken))
  }

  /**
   * The guards `getNote`, `updateNote` and `deleteNote` share, in this order:
   * a user is attached (else 401), the note exists (else 404), the user owns it
   * (else 401, without the note).
   */
  function OwnedNote(store: NoteStore, auth: Option<AuthContext>, id: NoteId): (r: Result<Note, Response>)
    ensures r.Success? <==> auth.Some? && id in store && store[id].owner == auth.value.user.id
    ensures r.Success? ==> r.value == store[id]
    ensures r.Failure? ==> r.error.payload == NoPayload && r.error.status == StatusError
    ensures auth.None? ==> r == Failure(Fail(401, NoUserMessage))
    ensures auth.Some? && id !in store ==> r == Failure(Fail(404, NoteNotFoundMessage))
    ensures auth.Some? && id in store && store[id].owner != auth.value.user.id ==>
              r == Failure(Fail(401, NotOwnerMessage))
  {
    if auth.None? then Failure(Fail(401, NoUserMessage))
    else if id !in store then Failure(Fail(404, NoteNotFoundMessage))
    else if store[id].owner != auth.value.user.id then Failure(Fail(401, NotOwnerMessage))
    else Success(store[id])
  }

  /** `getNote`: the note, to its owner only. */
  function GetNote(store: NoteStore, auth: Option<AuthContext>, id: NoteId): (r: Response)
    ensures OwnedNote(store, auth, id).Failure? ==> r == OwnedNote(store, auth, id).error
    ensures OwnedNote(store, auth, id).Success? ==>
              r == Succeed(200, "Note fetched successfully", NotePayload(Entry(id, store[id]), auth.value.newToken))
    ensures r.status == StatusSuccess <==> auth.Some? && id in store && store[id].owner == auth.value.user.id
    ensures r.status == StatusSuccess ==> CarriesGateToken(r, auth)
  {
    match OwnedNote(store, auth, id)
    case Failure(response) => response
    case Success(note) =>
      Succeed(200, "Note fetched successfully", NotePayload(Entry(id, note), auth.value.newToken))
  }

  /**
   * `createNote`: a falsy title or content is a 400; otherwise one note owned by
   * the caller is inserted under a fresh id. The schema trims both strings, so
   * a title or content of blanks only fails validation (500), as does a title
   * over 100 characters; an id already in use is a duplicate-key error (500).
   */
  function CreateNote(store: NoteStore, auth: Option<AuthContext>, body: NoteBody, freshId: NoteId, nowMs: nat): (r: Transition)
    ensures auth.None? ==> r == Transition(Fail(401, NoUserMessage), store)
    ensures auth.Some? && (!Truthy(body.title) || !Truthy(body.content)) ==>
              r == Transition(Fail(400, FieldsRequiredMessage), store)
    ensures r.response.status == StatusError ==> r.store == store
    ensures r.response.status == StatusSuccess ==>
              && auth.Some? && freshId !in store
              && freshId in r.store && r.store == store[freshId := r.store[freshId]]
              && |r.store| == |store| + 1
              && r.response == Succeed(201, "Note created successfully", NotePayload(Entry(freshId, r.store[freshId]), auth.value.newToken))
    ensures r.response.status == StatusSuccess ==>
              var n := r.store[freshId];
              && n.owner == auth.value.user.id
              && n.title == Trim(body.title.value) && n.content == Trim(body.content.value)
              && n.tags == (if body.tags.Some? then body.tags.value else [])
              && n.isPinned == (body.isPinned.Some? && body.isPinned.value)
              && n.createdAt == nowMs && n.updatedAt == nowMs
    ensures auth.Some? && Truthy(body.title) && Truthy(body.content) && freshId !in store
            && Trim(body.title.value) != "" && |Trim(body.title.value)| <= 100 && Trim(body.content.value) != "" ==>
              r.response.status == StatusSuccess
    ensures auth.Some? && Truthy(body.title) && Truthy(body.content) && r.response.status == StatusError ==>
              r.response == FailWithError(500, ServerErrorMessage,
                               if Trim(body.title.value) == "" || |Trim(body.title.value)| > 100 || Trim(body.content.value) == ""
                               then NoteValidationFailedMessage else DuplicateKeyMessage)
  {
    match auth
    case None => Transition(Fail(401, NoUserMessage), store)
    case Some(ctx) =>
      if !Truthy(body.title) || !Truthy(body.content) then
        Transition(Fail(400, FieldsRequiredMessage), store)
      else
        match CastNote(body.title.value, body.content.value, body.tags, ctx.user.id, body.isPinned, nowMs, nowMs)
        case Failure(error) => Transition(FailWithError(500, ServerErrorMessage, error), store)
        case Success(note) =>
          if freshId in store then
            Transition(FailWithError(500, ServerErrorMessage, DuplicateKeyMessage), store)
          else
            Transition(Succeed(201, "Note created successfully", NotePayload(Entry(freshId, note), ctx.newToken)),
                       store[freshId := note])
  }

  /**
   * `updateNote`: after the shared guards and the 400 check, merge the body into
   * the note and save it. The merge is `title || note.title`,
   * `content || note.content`, `tags || note.tags`, and `isPinned` when defined;
   * `updatedAt` is refreshed.
   */
  function UpdateNote(store: NoteStore, auth: Option<AuthContext>, id: NoteId, body: NoteBody, nowMs: nat): (r: Transition)
    ensures OwnedNote(store, auth, id).Failure? ==> r == Transition(OwnedNote(store, auth, id).error, store)
    ensures OwnedNote(store, auth, id).Success? && (!Truthy(body.title) || !Truthy(body.content)) ==>
              r == Transition(Fail(400, FieldsRequiredMessage), store)
    ensures r.response.status == StatusError ==> r.store == store
    ensures r.response.status == StatusSuccess ==>
              && OwnedNote(store, auth, id).Success?
              && id in r.store && r.store == store[id := r.store[id]]
              && r.response == Succeed(200, "Note updated successfully", NotePayload(Entry(id, r.store[id]), auth.value.newToken))
    ensures r.response.status == StatusSuccess ==>
              var before := store[id];
              var after := r.store[id];
              && after.title == Trim(body.title.value)
              && after.content == Trim(body.content.value)
              && after.tags == (if body.tags.Some? then body.tags.value else before.tags)
              && after.isPinned == (if body.isPinned.Some? then body.isPinned.value else before.isPinned)
              && after.owner == before.owner
              && after.createdAt == before.createdAt
              && after.updatedAt == nowMs
    ensures OwnedNote(store, auth, id).Success? && Truthy(body.title) && Truthy(body.content)
            && Trim(body.title.value) != "" && |Trim(body.title.value)| <= 100 && Trim(body.content.value) != "" ==>
              r.response.status == StatusSuccess
    ensures OwnedNote(store, auth, id).Success? && Truthy(body.title) && Truthy(body.content) && r.response.status == StatusError ==>
              r.response == FailWithError(500, ServerErrorMessage, NoteValidationFailedMessage) && r.store == store
  {
    match OwnedNote(store, auth, id)
    case Failure(response) => Transition(response, store)
    case Success(note) =>
      if !Truthy(body.title) || !Truthy(body.content) then
        Transition(Fail(400, FieldsRequiredMessage), store)
      else
        var title := if Truthy(body.title) then body.title.value else note.title;
        var content := if Truthy(body.content) then body.content.value else note.content;
        var tags := if body.tags.Some? then body.tags.value else note.tags;
        var isPinned := if body.isPinned.Some? then body.isPinned.value else note.isPinned;
        match CastNote(title, content, Some(tags), note.owner, Some(isPinned), note.createdAt, nowMs)
        case Failure(error) => Transition(FailWithError(500, ServerErrorMessage, error), store)
        case Success(updated) =>
          Transition(Succeed(200, "Note updated successfully", NotePayload(Entry(id, updated), auth.value.newToken)),
                     store[id := updated])
  }

  /** `deleteNote`: after the shared guards, remove the note and answer with it. */
  function DeleteNote(store: NoteStore, auth: Option<AuthContext>, id: NoteId): (r: Transition)
    ensures OwnedNote(store, auth, id).Failure? ==> r == Transition(OwnedNote(store, auth, id).error, store)
    ensures OwnedNote(store, auth, id).Success? ==>
              && r.store.Keys == store.Keys - {id}
              && (forall k :: k in r.store ==> r.store[k] == store[k])
              && r.response == Succeed(200, "Note deleted successfully", NotePayload(Entry(id, store[id]), auth.value.newToken))
  {
    match OwnedNote(store, auth, id)
    case Failure(response) => Transition(response, store)
    case Success(note) =>
      Transition(Succeed(200, "Note deleted successfully", NotePayload(Entry(id, note), auth.value.newToken)),
                 store - {id})
  }

  // ---------------------------------------------------------------------------
  // Properties across the handlers

  /** The ownership check comes before the body check: a stranger with an empty title gets 401, not 400. */
  lemma OwnershipBeforeValidation(store: NoteStore, ctx: AuthContext, id: NoteId, body: NoteBody, nowMs: nat)
    requires id in store && store[id].owner != ctx.user.id
    requires !Truthy(body.title)
    ensures UpdateNote(store, Some(ctx), id, body, nowMs) == Transition(Fail(401, NotOwnerMessage), store)
  {
  }

  /**
   * The `|| note.title` and `|| note.content` fallbacks of `updateNote` are dead:
   * every successful update stores the trimmed title and content the body sent,
   * never the note's old ones.
   */
  lemma TitleFallbackIsDead(store: NoteStore, auth: Option<AuthContext>, id: NoteId, body: NoteBody, nowMs: nat)
    requires UpdateNote(store, auth, id, body, nowMs).response.status == StatusSuccess
    ensures UpdateNote(store, auth, id, body, nowMs).store[id].title == Trim(body.title.value)
    ensures UpdateNote(store, auth, id, body, nowMs).store[id].content == Trim(body.content.value)
  {
  }

  /** An empty tag list is truthy in JavaScript, so sending one clears the tags. */
  lemma EmptyTagsClear(store: NoteStore, auth: Option<AuthContext>, id: NoteId, body: NoteBody, nowMs: nat)
    requires body.tags == Some([])
    requires UpdateNote(store, auth, id, body, nowMs).response.status == StatusSuccess
    ensures UpdateNote(store, auth, id, body, nowMs).store[id].tags == []
  {
  }

  /** Creating, updating and deleting keep every stored note schema-valid. */
  lemma CreateKeepsNotesInvariant(store: NoteStore, auth: Option<AuthContext>, body: NoteBody, freshId: NoteId, nowMs: nat)
    requires NotesInvariant(store)
    ensures NotesInvariant(CreateNote(store, auth, body, freshId, nowMs).store)
  {
    var r := CreateNote(store, auth, body, freshId, nowMs);
    if r.response.status == StatusSuccess {
      var cast := CastNote(body.title.value, body.content.value, body.tags, auth.value.user.id, body.isPinned, nowMs, nowMs);
      assert r.store == store[freshId := cast.value];
    }
  }

  lemma UpdateKeepsNotesInvariant(store: NoteStore, auth: Option<AuthContext>, id: NoteId, body: NoteBody, nowMs: nat)
    requires NotesInvariant(store)
    ensures NotesInvariant(UpdateNote(store, auth, id, body, nowMs).store)
  {
    var r := UpdateNote(store, auth, id, body, nowMs);
    if r.response.status == StatusSuccess {
      var note := store[id];
      var tags := if body.tags.Some? then body.tags.value else note.tags;
      var isPinned := if body.isPinned.Some? then body.isPinned.value else note.isPinned;
      var cast := CastNote(body.title.value, body.content.value, Some(tags), note.owner, Some(isPinned), note.createdAt, nowMs);
      assert r.store == store[id := cast.value];
    }
  }

  lemma DeleteKeepsNotesInvariant(store: NoteStore, auth: Option<AuthContext>, id: NoteId)
    requires NotesInvariant(store)
    ensures NotesInvariant(DeleteNote(store, auth, id).store)
  {
  }

  /**
   * No handler touches another user's note or changes an owner: whatever the
   * request, the notes that change, vanish or appear are the caller's own.
   */
  lemma CreateRespectsOwnership(store: NoteStore, ctx: AuthContext, body: NoteBody, freshId: NoteId, nowMs: nat)
    ensures OnlyOwnNotesTouched(store, CreateNote(store, Some(ctx), body, freshId, nowMs).store, ctx.user.id)
    ensures OwnersKept(store, CreateNote(store, Some(ctx), body, freshId, nowMs).store)
  {
  }

  lemma UpdateRespectsOwnership(store: NoteStore, ctx: AuthContext, id: NoteId, body: NoteBody, nowMs: nat)
    ensures OnlyOwnNotesTouched(store, UpdateNote(store, Some(ctx), id, body, nowMs).store, ctx.user.id)
    ensures OwnersKept(store, UpdateNote(store, Some(ctx), id, body, nowMs).store)
  {
  }

  lemma DeleteRespectsOwnership(store: NoteStore, ctx: AuthContext, id: NoteId)
    ensures OnlyOwnNotesTouched(store, DeleteNote(store, Some(ctx), id).store, ctx.user.id)
    ensures OwnersKept(store, DeleteNote(store, Some(ctx), id).store)
  {
  }

  /** Without an attached user every handler answers the same 401 and leaves the collection alone. */
  lemma NoUserNoEffect(store: NoteStore, id: NoteId, body: NoteBody, freshId: NoteId, nowMs: nat)
    ensures GetAllNotes(store, None) == Fail(401, NoUserMessage)
    ensures GetNote(store, None, id) == Fail(401, NoUserMessage)
    ensures CreateNote(store, None, body, freshId, nowMs) == Transition(Fail(401, NoUserMessage), store)
    ensures UpdateNote(store, None, id, body, nowMs) == Transition(Fail(401, NoUserMessage), store)
    ensures DeleteNote(store, None, id) == Transition(Fail(401, NoUserMessage), store)
  {
  }
}
