/**
 * Registration, login and the profile handler. Password hashing belongs to
 * the bcrypt library and is not modelled: a `Hasher` carries an opaque `hash`
 * and the `compare` predicate `matches(plain, hashed)`.
 */
module UserControllers {
  import opened Wrappers
  import opened Text
  import opened Validators
  import opened Jwt
  import opened UserModel
  import opened Responses
  import opened AuthMiddleware

  const AllFieldsRequiredMessage := "All fields are required"
  const InvalidNameMessage := "Invalid name"
  const InvalidUserNameMessage := "Invalid username"
  const InvalidEmailMessage := "Invalid email"
  const InvalidPasswordMessage := "Invalid password"
  const PasswordMismatchMessage := "Passwords do not match"
  const InvalidAvatarMessage := "Invalid avatar URL"
  const UserExistsMessage := "User already exists"
  const InvalidCredentialsMessage := "Invalid credentials"
  const LoginErrorMessage := "Error logging in"
  const UserNotFoundMessage := "User not found"

  datatype Hasher = Hasher(hash: string -> string, matches: (string, string) -> bool)

  /** `req.body` of registration; a field the client left out is `None`. */
  datatype RegisterBody = RegisterBody(
    name: Option<string>,
    userName: Option<string>,
    email: Option<string>,
    password: Option<string>,
    password2: Option<string>,
    avatar: Option<string>)

  datatype LoginBody = LoginBody(email: Option<string>, password: Option<string>)

  /** A handler's response and the user collection after it. */
  datatype UserTransition = UserTransition(response: Response, users: UserStore)

  /** The five required fields are all truthy. */
  predicate AllPresent(b: RegisterBody) {
    Truthy(b.name) && Truthy(b.userName) && Truthy(b.email) && Truthy(b.password) && Truthy(b.password2)
  }

  /**
   * The validation cascade of `registerUser`: the message of the first check
   * that fails, in source order, or `None` when the body passes them all.
   */
  function FirstInvalid(b: RegisterBody): (r: Option<string>)
    ensures r.None? <==>
              && AllPresent(b) && ValidateName(b.name.value) && ValidateUserName(b.userName.value)
              && ValidateEmail(b.email.value) && ValidatePassword(b.password.value)
              && b.password.value == b.password2.value
              && (Truthy(b.avatar) ==> ValidateImageURL(b.avatar.value))
    ensures !AllPresent(b) ==> r == Some(AllFieldsRequiredMessage)
    ensures AllPresent(b) && !ValidateName(b.name.value) ==> r == Some(InvalidNameMessage)
    ensures AllPresent(b) && ValidateName(b.name.value) && !ValidateUserName(b.userName.value) ==>
              r == Some(InvalidUserNameMessage)
    ensures AllPresent(b) && ValidateName(b.name.value) && ValidateUserName(b.userName.value)
            && !ValidateEmail(b.email.value) ==>
              r == Some(InvalidEmailMessage)
    ensures AllPresent(b) && ValidateName(b.name.value) && ValidateUserName(b.userName.value)
            && ValidateEmail(b.email.value) && !ValidatePassword(b.password.value) ==>
              r == Some(InvalidPasswordMessage)
    ensures AllPresent(b) && ValidateName(b.name.value) && ValidateUserName(b.userName.value)
            && ValidateEmail(b.email.value) && ValidatePassword(b.password.value)
            && b.password.value != b.password2.value ==>
              r == Some(PasswordMismatchMessage)
    ensures r == Some(InvalidAvatarMessage) <==>
              && AllPresent(b) && ValidateName(b.name.value) && ValidateUserName(b.userName.value)
              && ValidateEmail(b.email.value) && ValidatePassword(b.password.value)
              && b.password.value == b.password2.value
              && Truthy(b.avatar) && !ValidateImageURL(b.avatar.value)
  {
    if !AllPresent(b) then Some(AllFieldsRequiredMessage)
    else if !ValidateName(b.name.value) then Some(InvalidNameMessage)
    else if !ValidateUserName(b.userName.value) then Some(InvalidUserNameMessage)
    else if !ValidateEmail(b.email.value) then Some(InvalidEmailMessage)
    else if !ValidatePassword(b.password.value) then Some(InvalidPasswordMessage)
    else if b.password.value != b.password2.value then Some(PasswordMismatchMessage)
    else if Truthy(b.avatar) && !ValidateImageURL(b.avatar.value) then Some(InvalidAvatarMessage)
    else None
  }

  /** Some stored user already has this email or this user name, after the schema's setters. */
  predicate Taken(users: UserStore, email: string, userName: string) {
    exists i :: 0 <= i < |users| && (users[i].email == EmailSetter(email) || users[i].userName == UserNameSetter(userName))
  }

  /** `Taken` is exactly the case in which `findOne({ $or: [{ email }, { userName }] })` finds a document. */
  lemma TakenIffFound(users: UserStore, email: string, userName: string)
    ensures Taken(users, email, userName) <==> FindByEmailOrUserName(users, email, userName).Some?
  {
  }

  /**
   * `registerUser`: the validation cascade (400), the uniqueness check (400),
   * then one insert with the password hashed and the avatar defaulted, then a
   * token for the new id. A document the schema refuses, or an id in use, is
   * a 500 with nothing inserted. A token that cannot be issued is a 500 too,
   * but the user has been inserted by then.
   */
  function RegisterUser(
    users: UserStore, jwt: JwtConfig, hasher: Hasher, b: RegisterBody, freshId: UserId, nowMs: nat): (r: UserTransition)
    ensures FirstInvalid(b).Some? ==> r == UserTransition(Fail(400, FirstInvalid(b).value), users)
    ensures FirstInvalid(b).None? && Taken(users, b.email.value, b.userName.value) ==>
              r == UserTransition(Fail(400, UserExistsMessage), users)
    ensures |r.users| <= |users| ==> r.users == users
    ensures |r.users| > |users| ==>
              && FirstInvalid(b).None? && !Taken(users, b.email.value, b.userName.value)
              && r.users == users + [r.users[|users|]]
    ensures |r.users| > |users| ==>
              var u := r.users[|users|];
              && u.id == freshId
              && u.password == hasher.hash(b.password.value)
              && u.name == Trim(b.name.value)
              && u.userName == b.userName.value
              && u.email == EmailSetter(b.email.value)
              && u.avatar == (if Truthy(b.avatar) then b.avatar.value else DefaultAvatar)
              && u.createdAt == nowMs && u.updatedAt == nowMs
    ensures r.response.status == StatusSuccess <==> |r.users| > |users| && SecretPresent(jwt.secret)
    ensures r.response.status == StatusSuccess ==>
              var u := r.users[|users|];
              r.response == Succeed(201, "User created successfully",
                                    UserPayload(ToPrincipal(u), GenerateToken(jwt, u.id, nowMs).value.text))
    ensures |r.users| > |users| && !SecretPresent(jwt.secret) ==> r.response == Fail(500, MissingSecretMessage)
    ensures FirstInvalid(b).None? && !Taken(users, b.email.value, b.userName.value)
            && (Trim(b.name.value) == "" || hasher.hash(b.password.value) == "") ==>
              r == UserTransition(Fail(500, UserValidationFailedMessage), users)
    ensures FirstInvalid(b).None? && !Taken(users, b.email.value, b.userName.value)
            && Trim(b.name.value) != "" && hasher.hash(b.password.value) != "" ==>
              && (FindById(users, freshId).Some? ==> r == UserTransition(Fail(500, DuplicateKeyMessage), users))
              && (FindById(users, freshId).None? ==> |r.users| > |users|)
  {
    match FirstInvalid(b)
    case Some(message) => UserTransition(Fail(400, message), users)
    case None =>
      UserNameFitsSchema(b.userName.value);
      NameFitsSchemaLength(b.name.value);
      EmailSurvivesTrim(b.email.value);
      CreateAccount(users, jwt, b.name.value, b.userName.value, b.email.value, hasher.hash(b.password.value),
                    if Truthy(b.avatar) then b.avatar.value else DefaultAvatar, freshId, nowMs)
  }

  /**
   * `registerUser` after the validation cascade: the uniqueness check (400),
   * then the schema (500), then the insert and the token.
   */
  function CreateAccount(
    users: UserStore, jwt: JwtConfig, name: string, userName: string, email: string, hashed: string,
    avatar: string, freshId: UserId, nowMs: nat): (r: UserTransition)
    requires Trim(userName) == userName
    ensures Taken(users, email, userName) ==> r == UserTransition(Fail(400, UserExistsMessage), users)
    ensures |r.users| <= |users| ==> r.users == users
    ensures |r.users| > |users| ==>
              && !Taken(users, email, userName)
              && r.users == users + [r.users[|users|]]
    ensures |r.users| > |users| ==>
              var u := r.users[|users|];
              && u.id == freshId && u.password == hashed
              && u.name == Trim(name) && u.userName == userName && u.email == EmailSetter(email)
              && u.avatar == avatar && u.createdAt == nowMs && u.updatedAt == nowMs
    ensures r.response.status == StatusSuccess <==> |r.users| > |users| && SecretPresent(jwt.secret)
    ensures r.response.status == StatusSuccess ==>
              var u := r.users[|users|];
              r.response == Succeed(201, "User created successfully",
                                    UserPayload(ToPrincipal(u), GenerateToken(jwt, u.id, nowMs).value.text))
    ensures |r.users| > |users| && !SecretPresent(jwt.secret) ==> r.response == Fail(500, MissingSecretMessage)
    ensures !Taken(users, email, userName)
            && (Trim(name) == "" || |Trim(name)| > 50 || userName == "" || |userName| > 20
                || Trim(email) == "" || hashed == "") ==>
              r == UserTransition(Fail(500, UserValidationFailedMessage), users)
    ensures !Taken(users, email, userName)
            && Trim(name) != "" && |Trim(name)| <= 50 && userName != "" && |userName| <= 20
            && Trim(email) != "" && hashed != "" ==>
              && (FindById(users, freshId).Some? ==> r == UserTransition(Fail(500, DuplicateKeyMessage), users))
              && (FindById(users, freshId).None? ==> |r.users| > |users|)
  {
    if FindByEmailOrUserName(users, email, userName).Some? then
      UserTransition(Fail(400, UserExistsMessage), users)
    else
      match NewUserDocument(freshId, name, userName, email, hashed, Some(avatar), nowMs)
      case Failure(message) => UserTransition(Fail(500, message), users)
      case Success(user) => InsertAndSign(users, jwt, user, nowMs)
  }

  /**
   * The write half of `registerUser`: `User.create` of a document that passed
   * the schema (a duplicate-key error when its id is taken), then a token for
   * the stored id.
   */
  function InsertAndSign(users: UserStore, jwt: JwtConfig, user: User, nowMs: nat): (r: UserTransition)
    ensures FindById(users, user.id).Some? ==> r == UserTransition(Fail(500, DuplicateKeyMessage), users)
    ensures FindById(users, user.id).None? ==> r.users == users + [user]
    ensures r.response.status == StatusSuccess <==> FindById(users, user.id).None? && SecretPresent(jwt.secret)
    ensures r.response.status == StatusSuccess ==>
              r.response == Succeed(201, "User created successfully",
                                    UserPayload(ToPrincipal(user), GenerateToken(jwt, user.id, nowMs).value.text))
    ensures FindById(users, user.id).None? && !SecretPresent(jwt.secret) ==> r.response == Fail(500, MissingSecretMessage)
  {
    if FindById(users, user.id).Some? then
      UserTransition(Fail(500, DuplicateKeyMessage), users)
    else
      var users' := users + [user];
      match GenerateToken(jwt, user.id, nowMs)
      case Failure(message) => UserTransition(Fail(500, message), users')
      case Success(issued) =>
        UserTransition(Succeed(201, "User created successfully", UserPayload(ToPrincipal(user), issued.text)), users')
  }

  /**
   * `loginUser`: a missing field, an unknown email and a wrong password are the
   * same 401. On success the user's public fields and a token for the user's id.
   * The collection is only read.
   */
  function LoginUser(users: UserStore, jwt: JwtConfig, hasher: Hasher, b: LoginBody, nowMs: nat): (r: Response)
    ensures r.code == 401 ==> r == Fail(401, InvalidCredentialsMessage)
    ensures r.code == 401 <==>
              || !Truthy(b.email) || !Truthy(b.password)
              || FindByEmail(users, b.email.value).None?
              || !hasher.matches(b.password.value, FindByEmail(users, b.email.value).value.password)
    ensures r.code != 401 ==> (r.code == 500 <==> !SecretPresent(jwt.secret))
    ensures r.code != 401 && r.code != 500 ==>
              var u := FindByEmail(users, b.email.value).value;
              r == Succeed(200, "Login successful", UserPayload(ToPrincipal(u), GenerateToken(jwt, u.id, nowMs).value.text))
    ensures r.code == 200 || r.code == 401 || r == FailWithError(500, LoginErrorMessage, MissingSecretMessage)
  {
    if !Truthy(b.email) || !Truthy(b.password) then Fail(401, InvalidCredentialsMessage)
    else
      match FindByEmail(users, b.email.value)
      case None => Fail(401, InvalidCredentialsMessage)
      case Some(user) =>
        if !hasher.matches(b.password.value, user.password) then Fail(401, InvalidCredentialsMessage)
        else
          match GenerateToken(jwt, user.id, nowMs)
          case Failure(message) => FailWithError(500, LoginErrorMessage, message)
          case Success(issued) =>
            Succeed(200, "Login successful", UserPayload(ToPrincipal(user), issued.text))
  }

  /** `getMyProfile`: the attached user's public fields with the gate's token, or 404. */
  function GetMyProfile(auth: Option<AuthContext>): (r: Response)
    ensures auth.None? ==> r == Fail(404, UserNotFoundMessage)
    ensures auth.Some? ==>
              r == Succeed(200, "User profile retrieved successfully", UserPayload(auth.value.user, auth.value.newToken))
  {
    match auth
    case None => Fail(404, UserNotFoundMessage)
    case Some(ctx) =>
      Succeed(200, "User profile retrieved successfully", UserPayload(ctx.user, ctx.newToken))
  }

  /**
   * `getMyProfile` behind `protect`: an admitted request is answered with the
   * public fields (never the password) of the stored user its token names,
   * together with the gate's outbound token.
   */
  lemma AdmittedProfile(users: UserStore, jwt: JwtConfig, header: Option<string>, nowMs: nat)
    requires Protect(users, jwt, header, nowMs).Admitted?
    ensures var ctx := Protect(users, jwt, header, nowMs).context;
            var r := GetMyProfile(Some(ctx));
            && r.code == 200 && r.status == StatusSuccess
            && r.payload == UserPayload(ctx.user, ctx.newToken)
            && ctx.user.id == jwt.verify(ExtractToken(header).value, Seconds(nowMs)).value.id
            && exists i :: 0 <= i < |users| && users[i].id == ctx.user.id && ToPrincipal(users[i]) == ctx.user
  {
  }

  // ---------------------------------------------------------------------------

  /** Registration keeps every stored user schema-valid and the unique keys unique. */
  lemma RegisterKeepsInvariant(
    users: UserStore, jwt: JwtConfig, hasher: Hasher, b: RegisterBody, freshId: UserId, nowMs: nat)
    requires UsersInvariant(users)
    ensures UsersInvariant(RegisterUser(users, jwt, hasher, b, freshId, nowMs).users)
  {
    var r := RegisterUser(users, jwt, hasher, b, freshId, nowMs);
    if |r.users| > |users| {
      var avatar := if Truthy(b.avatar) then b.avatar.value else DefaultAvatar;
      var doc := NewUserDocument(freshId, b.name.value, b.userName.value, b.email.value,
                                 hasher.hash(b.password.value), Some(avatar), nowMs);
      assert r.users == users + [doc.value];
      InsertKeepsInvariant(users, doc.value);
    }
  }

  /** A name of blanks passes `validateName`, then fails the schema: a 500 with nothing stored, not a 400. */
  lemma BlankNameIsServerError(
    users: UserStore, jwt: JwtConfig, hasher: Hasher, b: RegisterBody, freshId: UserId, nowMs: nat)
    requires b.name == Some("  ")
    requires FirstInvalid(b).None? && !Taken(users, b.email.value, b.userName.value)
    ensures RegisterUser(users, jwt, hasher, b, freshId, nowMs) == UserTransition(Fail(500, UserValidationFailedMessage), users)
  {
    BlankNameIsValid();
  }

  /** Logging in as a user appended as the only holder of the email yields that user. */
  lemma LoginFindsAppended(
    users: UserStore, u: User, jwt: JwtConfig, hasher: Hasher, email: string, password: string, nowMs: nat)
    requires forall i :: 0 <= i < |users| ==> users[i].email != EmailSetter(email)
    requires u.email == EmailSetter(email)
    requires email != "" && password != "" && hasher.matches(password, u.password) && SecretPresent(jwt.secret)
    ensures var r := LoginUser(users + [u], jwt, hasher, LoginBody(Some(email), Some(password)), nowMs);
            r.code == 200 && r.payload.user == ToPrincipal(u)
  {
    FindByEmailAppended(users, u, email);
  }

  /** A user just registered can log in with the same email and password, and gets the same public fields. */
  lemma RegisterThenLogin(
    users: UserStore, jwt: JwtConfig, hasher: Hasher, b: RegisterBody, freshId: UserId, nowMs: nat, laterMs: nat)
    requires RegisterUser(users, jwt, hasher, b, freshId, nowMs).response.status == StatusSuccess
    requires b.password.Some? && hasher.matches(b.password.value, hasher.hash(b.password.value))
    ensures var reg := RegisterUser(users, jwt, hasher, b, freshId, nowMs);
            var login := LoginUser(reg.users, jwt, hasher, LoginBody(b.email, b.password), laterMs);
            && login.code == 200
            && login.payload.user == reg.response.payload.user
  {
    var reg := RegisterUser(users, jwt, hasher, b, freshId, nowMs);
    assert |reg.users| > |users| && SecretPresent(jwt.secret);
    assert FirstInvalid(b).None? && !Taken(users, b.email.value, b.userName.value);
    var u := reg.users[|users|];
    assert reg.users == users + [u];
    assert AllPresent(b);
    LoginFindsAppended(users, u, jwt, hasher, b.email.value, b.password.value, laterMs);
  }
}
