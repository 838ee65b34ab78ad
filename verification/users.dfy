/**
 * The `User` model: the stored document, the password-free view of it that the
 * handlers pass around, the schema's setters and validators, and the queries
 * the handlers issue. The collection is a sequence in natural (insertion)
 * order, so `findOne` returns the first match.
 */
module UserModel {
  import opened Wrappers
  import opened Text

  const DefaultAvatar := "https://www.gravatar.com/avatar/?d=mp"
  const UserValidationFailedMessage := "User validation failed"

  datatype User = User(
    id: UserId,
    name: string,
    userName: string,
    email: string,
    password: string,
    avatar: string,
    createdAt: int,
    updatedAt: int)

  /** The public fields of a user: the document without its password, as sent in `_user`. */
  datatype Principal = Principal(id: UserId, name: string, userName: string, email: string, avatar: string)

  function ToPrincipal(u: User): (p: Principal)
    ensures p.id == u.id && p.name == u.name && p.userName == u.userName
    ensures p.email == u.email && p.avatar == u.avatar
  {
    Principal(u.id, u.name, u.userName, u.email, u.avatar)
  }

  /** What the schema guarantees of a saved document. */
  predicate UserSchemaValid(u: User) {
    && u.name != "" && Trimmed(u.name) && |u.name| <= 50
    && u.userName != "" && Trimmed(u.userName) && |u.userName| <= 20
    && u.email != "" && Trimmed(u.email) && IsLowerCased(u.email)
    && u.password != ""
  }

  type UserStore = seq<User>

  /** The `unique` indexes, plus the uniqueness of `_id`. */
  predicate UniqueKeys(users: UserStore) {
    forall i, j :: 0 <= i < j < |users| ==>
      && users[i].id != users[j].id
      && users[i].email != users[j].email
      && users[i].userName != users[j].userName
  }

  /** The collection invariant: every document passed the schema, and the unique keys are unique. */
  predicate UsersInvariant(users: UserStore) {
    && (forall i :: 0 <= i < |users| ==> UserSchemaValid(users[i]))
    && UniqueKeys(users)
  }

  // ---------------------------------------------------------------------------
  // Setters: applied to documents before validation and to query filter values.

  function NameSetter(name: string): string { Trim(name) }
  function UserNameSetter(userName: string): string { Trim(userName) }
  function EmailSetter(email: string): (r: string)
    ensures Trimmed(r) && IsLowerCased(r)
  {
    ToLowerKeepsTrimmed(Trim(email));
    ToLower(Trim(email))
  }

  /**
   * `new User({...})` followed by `User.create`: setters, the `avatar` default,
   * timestamps, then the schema validators. A validation error is thrown.
   */
  function NewUserDocument(
    id: UserId, name: string, userName: string, email: string, password: string,
    avatar: Option<string>, nowMs: nat): (r: Result<User, string>)
    ensures r.Success? ==> UserSchemaValid(r.value)
    ensures r.Success? ==>
              && r.value.id == id && r.value.password == password
              && r.value.name == Trim(name) && r.value.userName == Trim(userName)
              && r.value.email == EmailSetter(email)
              && r.value.avatar == avatar.GetOr(DefaultAvatar)
              && r.value.createdAt == nowMs && r.value.updatedAt == nowMs
    ensures r.Failure? <==>
              || Trim(name) == "" || |Trim(name)| > 50
              || Trim(userName) == "" || |Trim(userName)| > 20
              || Trim(email) == "" || password == ""
    ensures r.Failure? ==> r.error == UserValidationFailedMessage
  {
    var u := User(id, NameSetter(name), UserNameSetter(userName), EmailSetter(email), password,
                  avatar.GetOr(DefaultAvatar), nowMs, nowMs);
    if UserSchemaValid(u) then Success(u) else Failure(UserValidationFailedMessage)
  }

  /**
   * The schema's guarantee is exactly what creation leaves alone: a user is
   * schema-valid iff building a document from its own fields gives it back,
   * up to the timestamps creation sets.
   */
  lemma ValidUserRecreates(u: User, nowMs: nat)
    ensures UserSchemaValid(u) <==>
              NewUserDocument(u.id, u.name, u.userName, u.email, u.password, Some(u.avatar), nowMs)
                == Success(u.(createdAt := nowMs, updatedAt := nowMs))
  {
    if UserSchemaValid(u) {
      TrimOfTrimmed(u.name);
      TrimOfTrimmed(u.userName);
      TrimOfTrimmed(u.email);
      ToLowerOfLowerCased(u.email);
    }
  }

  // ---------------------------------------------------------------------------
  // Queries

  /** Index of the first document satisfying `p`, in natural order. */
  function FirstMatch(users: UserStore, p: User -> bool): (r: Option<nat>)
    ensures r.Some? ==> r.value < |users| && p(users[r.value])
    ensures r.Some? ==> forall i :: 0 <= i < r.value ==> !p(users[i])
    ensures r.None? ==> forall i :: 0 <= i < |users| ==> !p(users[i])
  {
    if users == [] then None
    else if p(users[0]) then Some(0)
    else
      match FirstMatch(users[1..], p)
      case None => None
      case Some(i) => Some(i + 1)
  }

  /** `User.findById(id)`. */
  function FindById(users: UserStore, id: UserId): (r: Option<User>)
    ensures r.Some? ==> r.value in users && r.value.id == id
    ensures r.None? <==> forall i :: 0 <= i < |users| ==> users[i].id != id
  {
    match FirstMatch(users, (u: User) => u.id == id)
    case None => None
    case Some(i) => Some(users[i])
  }

  /** `User.findOne({ email })`, the filter value passing through the schema's setters. */
  function FindByEmail(users: UserStore, email: string): (r: Option<User>)
    ensures r.Some? ==> r.value in users && r.value.email == EmailSetter(email)
    ensures r.None? <==> forall i :: 0 <= i < |users| ==> users[i].email != EmailSetter(email)
  {
    match FirstMatch(users, (u: User) => u.email == EmailSetter(email))
    case None => None
    case Some(i) => Some(users[i])
  }

  /** A user appended as the only holder of `email` is the one `findOne({ email })` finds. */
  lemma FindByEmailAppended(users: UserStore, u: User, email: string)
    requires forall i :: 0 <= i < |users| ==> users[i].email != EmailSetter(email)
    requires u.email == EmailSetter(email)
    ensures FindByEmail(users + [u], email) == Some(u)
  {
    var all := users + [u];
    assert all[|users|] == u;
    assert forall i :: 0 <= i < |users| ==> all[i] == users[i];
    var r := FirstMatch(all, (v: User) => v.email == EmailSetter(email));
    assert r == Some(|users|);
  }

  /** `User.findOne({ $or: [{ email }, { userName }] })` with setters applied. */
  function FindByEmailOrUserName(users: UserStore, email: string, userName: string): (r: Option<User>)
    ensures r.Some? ==> r.value in users && (r.value.email == EmailSetter(email) || r.value.userName == UserNameSetter(userName))
    ensures r.None? <==> forall i :: 0 <= i < |users| ==>
                           users[i].email != EmailSetter(email) && users[i].userName != UserNameSetter(userName)
  {
    match FirstMatch(users, (u: User) => u.email == EmailSetter(email) || u.userName == UserNameSetter(userName))
    case None => None
    case Some(i) => Some(users[i])
  }

  /** Under the collection invariant, a user found by id is the only one with that id. */
  lemma {:induction false} FindByIdUnique(users: UserStore, i: nat)
    requires UsersInvariant(users) && i < |users|
    ensures FindById(users, users[i].id) == Some(users[i])
  {
    var r := FirstMatch(users, (u: User) => u.id == users[i].id);
    assert r.Some? && r.value <= i;
    assert users[r.value].id == users[i].id;
  }

  /** Appending a document that passed the schema and collides with no unique key keeps the invariant. */
  lemma InsertKeepsInvariant(users: UserStore, u: User)
    requires UsersInvariant(users) && UserSchemaValid(u)
    requires forall i :: 0 <= i < |users| ==>
               users[i].id != u.id && users[i].email != u.email && users[i].userName != u.userName
    ensures UsersInvariant(users + [u])
  {
  }
}
