# iNotebook backend: authentication gate, note handlers, registration and login

A Dafny model of the core of the iNotebook Express/Mongoose notes backend:

- the bearer-token gate `protect`/`verifyToken`, with its sliding renewal;
- token issuance `generateToken`;
- the five note handlers `getAllNotes`, `getNote`, `createNote`, `updateNote`, `deleteNote`;
- `registerUser`, `loginUser` and `getMyProfile`;
- the five input validators;
- the `Note` and `User` schemas.

Every handler is a pure function from the collection, the request and the
context the gate attached to a response envelope `{code, status, message, data}`
and the new collection. The proofs are about that model.

Files, one module each:

| file | module | what it holds |
|---|---|---|
| `wrappers.dfy` | `Wrappers` | `Option`, `Result`, the id types |
| `text.dfy` | `Text` | JavaScript `\s`, `trim`, ASCII `toLowerCase`, `startsWith`, `indexOf`, `split(' ')` |
| `validators.dfy` | `Validators` | each validator's regex read literally as a predicate, plus a scanning function proved equal to it |
| `jwt.dfy` | `Jwt` | `generateToken` over an abstract signer |
| `users.dfy` | `UserModel` | the `User` document, setters, schema, unique keys, `findOne`/`findById` |
| `notes.dfy` | `NoteModel` | the `Note` document, schema, and `find({user}).sort({createdAt: -1})` |
| `responses.dfy` | `Responses` | the response envelope |
| `auth.dfy` | `AuthMiddleware` | header parsing, `verifyToken`, `protect` |
| `note_controllers.dfy` | `NoteControllers` | the five note handlers |
| `user_controllers.dfy` | `UserControllers` | registration, login, profile |
| `routes.dfy` | `NoteRoutes` | the note routes: `protect` composed with each wired handler |

Modelling choices:

- **Libraries.** The JSON Web Token library (RFC 7519) and bcrypt are opaque functions inside the parameters `JwtConfig(secret, sign, verify)` and `Hasher(hash, matches)`.
- **Ids.** An `ObjectId` is a `nat`. The `toString()` comparison of owner ids becomes equality of naturals.
- **Fresh ids.** The id of a new document is a parameter. An id already in use is the driver's duplicate-key error, a 500.
- **Clock.** `Date.now()` is the parameter `nowMs: nat`. `Math.floor(Date.now() / 1000)` is `Seconds(nowMs)`, so all renewal arithmetic is in whole seconds.
- **Stores.** Users are a sequence in natural order, so `findOne` returns the first match. Notes are a map from id to note.
- **Request fields.** A missing field is `None`. JavaScript falsiness of a string is `None` or `Some("")`.
- **Schema setters.** `trim` and `lowercase` run before validation, so `required` fails on a string that trims to `""`. The setters are taken to apply to query values too: `findOne({ email })` compares against the trimmed, lower-cased email.
- **Behaviours of the code that are easy to misread:**
  - Every gate failure is one 401 with one message: no header, not `Bearer`, a bad or expired token, a deleted user (`src/middleware/authMiddleware.ts:27-34`, `:42-49`). There is no separate "expired" message and no 404 for a deleted user.
  - A missing signing secret is not a startup failure. It makes each `generateToken` call throw (`src/helpers/jwt.ts:4-7`):
    - inside `protect`, `generateToken` is never reached with a missing secret. `verifyToken` hands the same missing secret to `jwt.verify` (`src/middleware/authMiddleware.ts:20`), and the library refuses every token without a secret. So `verifyToken` returns null and `protect` answers the 401. The verifier is an opaque function here, so this is stated as a condition on the configuration (`Jwt.VerifyNeedsSecret`), under which `AuthMiddleware.MissingSecretRejects` shows the gate never crashes. `GateResult.Crashed` models the code's branch. It is reachable only with a verifier that accepts tokens without a secret;
    - inside `loginUser`, it is the 500 "Error logging in";
    - inside `registerUser`, it is a 500 sent after the user has been stored.
  - A non-owner is answered 401 "Unauthorized: Note does not belong to user", which is distinct from the 404 for a missing note.

## Model

| member | source | states |
|---|---|---|
| Text.Trim | src/models/Note.ts:18-19 | the result is the input with only whitespace removed before and after it, has no whitespace at either end, and is empty only when the input is all whitespace |
| Text.TrimIdempotent | src/models/User.ts:17-31 | trimming twice gives the same as trimming once |
| Text.IsWhitespace | src/helpers/validators.ts:2 | the characters of JavaScript's `\s`, which are also the ones `trim` strips: the ASCII blanks and line breaks, no-break space, the Unicode space separators, the line and paragraph separators and the byte-order mark |
| Text.Truthy | src/controllers/noteControllers.ts:110 | a string field is truthy exactly when it is present and not empty, as in `!title` and `authHeader &&` |
| Text.StartsWith | src/middleware/authMiddleware.ts:17 | `startsWith(p)`: the first `|p|` characters are exactly `p`, compared case-sensitively |
| Text.ToLower | src/models/User.ts:25-31 | same length, no upper-case ASCII letter left, and each character is the lower-case form of the one at the same index |
| Text.JoinSplit | src/middleware/authMiddleware.ts:18 | joining the fields of `split(' ')` with single spaces gives back the header |
| Text.SplitJoin | src/middleware/authMiddleware.ts:18 | splitting space-free fields joined by single spaces gives back exactly those fields |
| Text.SplitFieldsSpaceFree | src/middleware/authMiddleware.ts:18 | no field that `split(' ')` returns contains a space |
| Text.Split | src/middleware/authMiddleware.ts:18 | `split(' ')` always returns at least one field, so reading field 1 is defined whenever there is a space |
| Validators.UserNameFitsSchema | src/helpers/validators.ts:11-14 | an accepted user name is unchanged by `trim`, non-empty, at most 20 long and already lower-case, so it meets `required`, `maxlength: 20` and the unique index as sent |
| Validators.NameFitsSchemaLength | src/helpers/validators.ts:16-19 | an accepted name still meets `maxlength: 50` after `trim` |
| Validators.BlankNameIsValid | src/helpers/validators.ts:16-19 | the validator accepts a name of two spaces, and `trim` turns it into the empty string |
| Validators.ValidUserName | src/helpers/validators.ts:12 | `/^[a-z0-9_]{5,20}$/` read literally: the whole string is 5 to 20 characters, each a lower-case ASCII letter, a digit or `_` |
| Validators.ValidName | src/helpers/validators.ts:17 | `/^[a-zA-Z ]{2,50}$/` read literally: the whole string is 2 to 50 characters, each an ASCII letter or a space |
| Validators.PasswordRegexMatches | src/helpers/validators.ts:7 | the password regex read literally: each of the four lookaheads finds its character class after a run of non-line-terminators from position 0, and `.{8,}$` needs at least 8 characters, none a line terminator |
| Validators.ValidateUserName | src/helpers/validators.ts:11-14 | the scanning validator accepts exactly the strings the anchored regex matches: 5 to 20 characters, each a lower-case ASCII letter, a digit or `_` |
| Validators.ValidateName | src/helpers/validators.ts:16-19 | the scanning validator accepts exactly the strings the anchored regex matches: 2 to 50 characters, each an ASCII letter or a space |
| Validators.ValidatePassword | src/helpers/validators.ts:6-9 | accepts exactly when the regex matches, read as four lookaheads over `.` followed by `.{8,}$` |
| Validators.ValidateEmail | src/helpers/validators.ts:1-4 | accepts exactly when some `@` and `.` split the text into three non-empty runs free of whitespace and `@` |
| Validators.EmailShape | src/helpers/validators.ts:1-4 | an accepted address is `local + "@" + host + "." + tld` with each part a non-empty run |
| Validators.EmailHasOneAt | src/helpers/validators.ts:1-4 | an accepted address contains exactly one `@` |
| Validators.EmailRegexMatches | src/helpers/validators.ts:2 | the email regex read literally: some `@` position and some later `.` position split the string into three non-empty runs free of whitespace and `@` |
| Validators.EmailSurvivesTrim | src/helpers/validators.ts:1-4 | an accepted address is not emptied by the schema's `trim`, so it meets `required` |
| Validators.MatchFrom | src/helpers/validators.ts:21-24 | true exactly when the unanchored regex matches a substring that starts at or after the given index |
| Validators.ImageUrlMatchFrom | src/helpers/validators.ts:22 | the unanchored image-URL regex read literally: at or after the given index, a scheme `http:` or `https:`, a run of body characters, then a `.jpg`, `.gif`, `.png` or `.jpeg` extension |
| Validators.ValidateImageURL | src/helpers/validators.ts:21-24 | accepts exactly when some substring is `http:` or `https:`, then body characters, then `.jpg`, `.gif`, `.png` or `.jpeg` |
| Jwt.GenerateToken | src/helpers/jwt.ts:3-12 | fails with the missing-secret message exactly when the secret is absent or empty; otherwise the claims carry the given id, `iat` is the current second, `exp` is `iat + 1209600`, and the text is the signature of those claims |
| Jwt.Seconds | src/middleware/authMiddleware.ts:53 | `Math.floor(Date.now() / 1000)`: the whole second that contains the given millisecond |
| UserModel.EmailSetter | src/models/User.ts:25-31 | the stored email has no whitespace at either end and no upper-case ASCII letter |
| UserModel.ToPrincipal | src/middleware/authMiddleware.ts:26 | the user without the password, as `.select('-password')` loads it and the `_user` field sends it: id, name, user name, email and avatar carried over unchanged |
| UserModel.NewUserDocument | src/models/User.ts:15-38 | fails exactly when the trimmed name is empty or longer than 50, the trimmed user name is empty or longer than 20, the trimmed email is empty, or the password is empty; otherwise the document is schema-valid, holds the set values, and defaults the avatar |
| UserModel.UserSchemaValid | src/models/User.ts:15-38 | what the schema guarantees of a stored user: name, user name and email required and trimmed, name at most 50, user name at most 20, email lower-case, password required |
| UserModel.ValidUserRecreates | src/models/User.ts:15-38 | a user is schema-valid exactly when creating a document from its own fields gives it back, apart from the timestamps creation sets |
| UserModel.UniqueKeys | src/models/User.ts:18-31 | the `unique` indexes on `userName` and `email`, plus the uniqueness of `_id`: no two stored users share any of the three |
| UserModel.UsersInvariant | src/models/User.ts:15-38 | the user collection invariant: every stored user is schema-valid and the unique keys are unique |
| UserModel.FindById | src/middleware/authMiddleware.ts:26 | what is found is a stored user with that id, and nothing is found exactly when no stored user has it |
| UserModel.FindByEmailOrUserName | src/controllers/userControllers.ts:76 | what is found is a stored user holding the email or the user name after the setters, and nothing is found exactly when no stored user holds either |
| UserModel.FindByEmail | src/controllers/userControllers.ts:136 | finds nothing exactly when no stored user has the email after the setters; what it finds is a stored user with that email |
| UserModel.FindByEmailAppended | src/controllers/userControllers.ts:136 | a user appended as the only holder of an email is the one `findOne({ email })` returns |
| UserModel.FindByIdUnique | src/middleware/authMiddleware.ts:26 | in a collection that keeps the invariant (ids unique), `findById` of a stored user's id returns that user |
| UserModel.InsertKeepsInvariant | src/models/User.ts:17-33 | appending a schema-valid user whose id, email and user name are all new keeps every user schema-valid and the unique keys unique |
| NoteModel.CastNote | src/models/Note.ts:16-27 | fails exactly when the trimmed title is empty or over 100 characters, or the trimmed content is empty; otherwise the note is schema-valid, the strings are trimmed, tags default to `[]`, `isPinned` defaults to `false`, and the owner and timestamps are as given |
| NoteModel.NoteSchemaValid | src/models/Note.ts:16-27 | what the schema guarantees of a stored note: title and content required and trimmed, title at most 100 |
| NoteModel.ValidNoteRecasts | src/models/Note.ts:16-27 | a note is schema-valid exactly when casting its own fields gives it back unchanged |
| NoteModel.KeysAscending | src/controllers/noteControllers.ts:34 | lists every id of the collection exactly once, in strictly increasing order |
| NoteModel.OwnedEntriesDistinct | src/controllers/noteControllers.ts:34 | selecting the notes of one owner from strictly increasing ids gives distinct ids |
| NoteModel.InsertNewestFirst | src/controllers/noteControllers.ts:34-36 | inserting into a list ordered by non-increasing `createdAt` keeps it ordered and adds nothing but the new entry |
| NoteModel.InsertPermutes | src/controllers/noteControllers.ts:34-36 | insertion adds exactly one occurrence of the new entry and loses nothing |
| NoteModel.SortNewestFirst | src/controllers/noteControllers.ts:34-36 | the result is ordered by non-increasing `createdAt` |
| NoteModel.SortPermutes | src/controllers/noteControllers.ts:34-36 | the sorted list is a permutation of its input |
| NoteModel.SortKeepsDistinct | src/controllers/noteControllers.ts:34-36 | sorting keeps ids distinct |
| NoteModel.FindByOwner | src/controllers/noteControllers.ts:34-36 | an entry is in the result exactly when it is a stored note of the owner, each id at most once, newest first |
| AuthMiddleware.ExtractToken | src/middleware/authMiddleware.ts:17-18 | a token is read only from a present header that starts with `Bearer`, and it contains no space |
| AuthMiddleware.TokenIsSecondField | src/middleware/authMiddleware.ts:17-18 | for a `Bearer` header, there is no token exactly when the header has no space; otherwise the token starts right after the first space and runs to the next space or the end |
| AuthMiddleware.TokenAfterPrefix | src/middleware/authMiddleware.ts:17-18 | any space-free prefix that starts with `Bearer`, followed by a space and a space-free token, yields exactly that token |
| AuthMiddleware.BearerRoundTrip | src/middleware/authMiddleware.ts:17-18 | `"Bearer " + token` yields `token` back for any space-free token |
| AuthMiddleware.PrefixIsCaseSensitive | src/middleware/authMiddleware.ts:17 | `bearer abc` yields no token |
| AuthMiddleware.PrefixNeedsNoSpace | src/middleware/authMiddleware.ts:17-18 | `BearerX abc` yields `abc` |
| AuthMiddleware.VerifyToken | src/middleware/authMiddleware.ts:14-35 | null exactly when there is no token, the verifier refuses it, or no stored user has the token's id; otherwise the user fields of a stored user with that id, the incoming token and its `exp` |
| AuthMiddleware.Protect | src/middleware/authMiddleware.ts:37-69 | rejects with the single 401 exactly when verification fails; crashes exactly when a renewal is due and the secret is missing, which needs a verifier that accepted the token without a secret; when admitted, attaches the verified user and either a fresh token for that user (with two days or less left) or the incoming token unchanged |
| AuthMiddleware.FailuresCollapse | src/middleware/authMiddleware.ts:17-49 | a missing or non-`Bearer` header, a refused token and a vanished user all give the identical 401 response |
| AuthMiddleware.MissingSecretRejects | src/middleware/authMiddleware.ts:14-49 | for a verifier that refuses every token without a secret, a missing secret makes `protect` answer the 401, and `protect` never crashes |
| AuthMiddleware.ShouldRenew | src/middleware/authMiddleware.ts:54-57 | the renewal test: the token's `exp` is at most two days (172800 seconds) after the current second |
| AuthMiddleware.RenewalBoundary | src/middleware/authMiddleware.ts:54-57 | exactly 172800 seconds left renews; 172801 seconds left does not |
| AuthMiddleware.RenewedTokenIsKept | src/middleware/authMiddleware.ts:53-64 | a token issued less than twelve days (minus one second) earlier, still accepted by the verifier, is admitted unchanged for its user, without a renewal |
| NoteControllers.GetAllNotes | src/controllers/noteControllers.ts:24-55 | 401 without a user; otherwise 200 with exactly the caller's notes, each id once, newest first, and the gate's token; the "No notes found for user" message exactly when the caller owns no note, and "Notes fetched successfully" when the caller owns one |
| NoteControllers.ListOwnNotes | src/controllers/noteControllers.ts:34-49 | for an attached user: 200 with exactly that user's notes, each id once, newest first, and the gate's token; "No notes found for user" exactly when the user owns no note, otherwise "Notes fetched successfully" |
| NoteControllers.OwnedNote | src/controllers/noteControllers.ts:65-81 | succeeds exactly when a user is attached, the note exists and the user owns it; otherwise 401 without a user, else 404 for a missing note, else 401 for a non-owner, never with note data |
| NoteControllers.GetNote | src/controllers/noteControllers.ts:60-92 | succeeds exactly for the owner and then returns the stored note with the gate's token; any failure is the guard's response |
| NoteControllers.CreateNote | src/controllers/noteControllers.ts:97-136 | 401 without a user, then 400 for a falsy title or content; with both present, any other error is the 500 "Server error" carrying the caught error, the schema's for an invalid title or content and the duplicate-key error otherwise; an error changes nothing; a valid title and content with a free id always succeed; a success inserts exactly one note under the fresh id, owned by the caller, with trimmed strings, defaults and timestamps, and nothing else changes |
| NoteControllers.UpdateNote | src/controllers/noteControllers.ts:141-192 | the guards' response with nothing changed, then 400 for a falsy title or content; for the owner, a title and content that are valid after `trim` always succeed, and a schema failure is the 500 "Server error" carrying the schema's error, with nothing changed; a success rewrites only that id: trimmed new title and content, tags if supplied, `isPinned` if defined, owner and `createdAt` kept, `updatedAt` refreshed |
| NoteControllers.DeleteNote | src/controllers/noteControllers.ts:197-231 | the guards' response with nothing changed; for the owner, removes exactly that id, keeps every other note, and returns the removed note |
| NoteControllers.OwnershipBeforeValidation | src/controllers/noteControllers.ts:158-170 | a non-owner with an empty title gets the ownership 401, not the 400 |
| NoteControllers.TitleFallbackIsDead | src/controllers/noteControllers.ts:167-174 | after a successful update the title and content are always the trimmed values sent, never the old ones |
| NoteControllers.EmptyTagsClear | src/controllers/noteControllers.ts:175 | an update with an empty tag list leaves the note without tags |
| NoteControllers.CreateKeepsNotesInvariant | src/controllers/noteControllers.ts:115-125 | creating keeps every stored note schema-valid |
| NoteControllers.UpdateKeepsNotesInvariant | src/controllers/noteControllers.ts:172-180 | updating keeps every stored note schema-valid |
| NoteControllers.DeleteKeepsNotesInvariant | src/controllers/noteControllers.ts:220 | deleting keeps every stored note schema-valid |
| NoteControllers.CreateRespectsOwnership | src/controllers/noteControllers.ts:115-125 | creation changes no existing note and adds only notes of the caller |
| NoteControllers.UpdateRespectsOwnership | src/controllers/noteControllers.ts:158-180 | an update changes only notes of the caller and never an owner |
| NoteControllers.DeleteRespectsOwnership | src/controllers/noteControllers.ts:214-220 | a delete removes only notes of the caller |
| NoteControllers.NoUserNoEffect | src/controllers/noteControllers.ts:29-32 | without a user every handler answers the same 401 and leaves the collection as it was |
| UserControllers.FirstInvalid | src/controllers/userControllers.ts:40-73 | no message exactly when every check passes; otherwise the message of the first failing check, in the order required fields, name, user name, email, password, confirmation, avatar |
| UserControllers.Taken | src/controllers/userControllers.ts:75-80 | some stored user already holds the email or the user name, after the schema's setters |
| UserControllers.TakenIffFound | src/controllers/userControllers.ts:76-77 | `Taken` holds exactly when `findOne({ $or: [{ email }, { userName }] })` finds a document |
| UserControllers.RegisterUser | src/controllers/userControllers.ts:35-120 | the cascade's 400, then "User already exists" when the email or user name is taken, with nothing stored; a name that trims to empty or an empty hash is the schema's 500 with nothing stored; an id in use is the duplicate-key 500; otherwise exactly one user is appended, with the hashed password, set values and defaulted avatar; success exactly when a user was stored and a token could be issued, answering with the public fields and a token for the new id; a missing secret is a 500 after the insert |
| UserControllers.CreateAccount | src/controllers/userControllers.ts:75-101 | the uniqueness 400 with nothing stored; a document the schema refuses is a 500 with nothing stored; an untaken, schema-valid document with a free id is appended, holding the given values; success exactly when a user was stored and the secret is present |
| UserControllers.InsertAndSign | src/controllers/userControllers.ts:96-112 | a taken id is the duplicate-key 500 with nothing stored; otherwise the user is appended, and the answer is 201 with a token for the new id, or the missing-secret 500 |
| UserControllers.LoginUser | src/controllers/userControllers.ts:125-169 | one identical 401 for a missing field, an unknown email or a wrong password; otherwise 200 with the found user's public fields and a token for that user's id, or the 500 "Error logging in" carrying the missing-secret message when the secret is missing |
| UserControllers.GetMyProfile | src/controllers/userControllers.ts:174-208 | 404 without a user; otherwise 200 with the attached user's public fields and the gate's token |
| UserControllers.AdmittedProfile | src/controllers/userControllers.ts:174-190 | behind `protect`, an admitted request gets 200 with the public fields of the stored user whose id the token's claims carry, and the gate's token |
| UserControllers.RegisterKeepsInvariant | src/controllers/userControllers.ts:75-96 | registration keeps every stored user schema-valid and the email, user name and id unique |
| UserControllers.BlankNameIsServerError | src/controllers/userControllers.ts:45-96 | a name of blanks passes the cascade but then fails the schema: a 500 with nothing stored, not a 400 |
| UserControllers.LoginFindsAppended | src/controllers/userControllers.ts:136-158 | logging in as a user appended as the only holder of an email, with the right password, answers 200 with that user's public fields |
| UserControllers.RegisterThenLogin | src/controllers/userControllers.ts:86-158 | right after a successful registration, logging in with the same email and password succeeds and returns the same public fields |
| NoteRoutes.Serve | src/routes/noteRoutes.ts:15-18 | a gate rejection is the 401 with the notes unchanged; a crash is an error page with the notes unchanged; an admitted request is exactly the handler run with the gate's context |
| NoteRoutes.Dispatch | src/routes/noteRoutes.ts:15-18 | each mounted route runs its handler on an admitted request: always an envelope, never the error page; a success carries the gate's token; reads change nothing and writes change only the caller's notes, never an owner |
| NoteRoutes.NoTokenNeverReachesHandler | src/middleware/authMiddleware.ts:17-49 | without a `Bearer` header the reply is the 401 and the notes are unchanged, whatever the request |
| NoteRoutes.SuccessCarriesOutboundToken | src/controllers/noteControllers.ts:46-49 | every successful reply was admitted by the gate and carries the gate's outbound token |
| NoteRoutes.AdmittedCreateCarriesToken | src/controllers/noteControllers.ts:127-130 | an admitted note creation is answered by the handler, and a success carries the gate's outbound token |
| NoteRoutes.LoginTokenIsEchoed | src/middleware/authMiddleware.ts:53-64 | a note created less than twelve days (minus one second) after login, with the login token, is answered with that same token |
| NoteRoutes.NearExpiryRenews | src/middleware/authMiddleware.ts:57-61 | a token with a day or less left is replaced by a fresh token for the same user, expiring 1209600 seconds after the current second |
| NoteRoutes.StrangerCannotRead | src/controllers/noteControllers.ts:77-81 | reading another user's note gets the ownership 401, without the note, and the notes are unchanged |

## Left out

- Signing and verification of tokens: `sign` and `verify` are opaque functions. Signatures, encoding and the library's own expiry check are not modelled; the verifier only yields claims or fails.
- Password hashing: `hash` and `matches` are opaque. Salt generation (`genSalt(10)`) is not modelled.
- Persistence: the collections are in memory. I/O, connection failures and timeouts are left out. A database failure and the `catch` branches it would reach are not modelled, except for two kinds of error the handlers themselves can cause: a schema validation failure and a duplicate id.
- Error texts: Mongoose's validation messages are replaced by one constant per schema (`User validation failed`, `Note validation failed`); the exact texts are library output. The driver's duplicate-key message is cut to its start, `E11000 duplicate key error`, without the collection, index and key it goes on to name.
- Responses.FailWithError: the `_error` a `catch` attaches is modelled by the caught error's message only. The note handlers send the error object itself, whose JSON form (a validation error's `errors` map, the driver's `code` and `keyValue`) is not modelled. `loginUser` sends `error.message`, which is modelled exactly.
- UserModel.NewUserDocument: the unique indexes are not checked on insert, because `registerUser` has already searched for the email and user name. The duplicate-key error is modelled for the id only.
- The HTTP layer: the envelope's `code` is modelled. The HTTP status itself, always 200 (`src/helpers/response.ts:19`), is not. So are headers and JSON encoding.
- Request bodies: fields are strings (or a string list and a boolean for notes). Non-string values, `isPinned: null`, and falsy non-array `tags` are not modelled.
- Malformed ids: an id that cannot be cast to an `ObjectId` makes `findById` throw; this is not modelled, because ids are naturals.
- Text.ToLower: lower-cases ASCII letters only; the Unicode case mappings of `toLowerCase` are not modelled.
- Text.IsWhitespace: a character is a Unicode scalar value, not a UTF-16 code unit, so every length (`maxlength`, `.{8,}`, `{5,20}`) counts code points. For text with characters outside the Basic Multilingual Plane these lengths are shorter than JavaScript's `.length`, which counts each such character twice.
- Text.Split: its own contract states only that there is at least one field. The fields themselves are pinned down by `Text.JoinSplit`, `Text.SplitJoin` and `Text.SplitFieldsSpaceFree`.
- UserModel.FindByEmail: compares with the email after `trim` and lower-casing, assuming the schema's setters run on query values. Without that, `findOne` would compare with the email as sent.
- Timestamps: one clock reading per request serves `Date.now()` in the gate and `new Date()` in the handler. The two `new Date()` calls in `createNote` are read as the same instant.
- The routing, the server bootstrap, `process.env` loading and `process.exit`. `deleteNote` has no route and `getMyProfile` is mounted nowhere, so both are modelled as handlers only.
- Asynchrony: `async`/`await` and concurrent requests are not modelled. Each request is one synchronous step.
