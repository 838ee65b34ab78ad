/**
 * The JSON envelope every handler answers with: `{ status, code, message, data }`.
 * The HTTP status line is always 200; only the `code` field varies.
 */
module Responses {
  import opened Wrappers
  import opened UserModel
  import opened NoteModel

  /** The start of the driver's `E11000 duplicate key error …` text for a taken unique key. */
  const DuplicateKeyMessage := "E11000 duplicate key error"

  datatype Status = StatusSuccess | StatusError

  /**
   * The `data` member: absent, one of the shapes the handlers send with
   * `_token`, or the `_error` a `catch` attaches, identified by its message.
   */
  datatype Payload =
    | NoPayload
    | ErrorPayload(error: string)
    | NotesPayload(notes: seq<Entry>, token: string)
    | NotePayload(entry: Entry, token: string)
    | UserPayload(user: Principal, token: string)

  datatype Response = Response(code: int, status: Status, message: string, payload: Payload)

  /** The `_token` field of a payload, if it has one. */
  function TokenOf(p: Payload): (t: Option<string>)
    ensures t.None? <==> p.NoPayload? || p.ErrorPayload?
  {
    match p
    case NoPayload => None
    case ErrorPayload(_) => None
    case NotesPayload(_, token) => Some(token)
    case NotePayload(_, token) => Some(token)
    case UserPayload(_, token) => Some(token)
  }

  function Fail(code: int, message: string): Response {
    Response(code, StatusError, message, NoPayload)
  }

  /** An error response that also carries the caught error as `data: { _error }`. */
  function FailWithError(code: int, message: string, error: string): Response {
    Response(code, StatusError, message, ErrorPayload(error))
  }

  function Succeed(code: int, message: string, payload: Payload): Response {
    Response(code, StatusSuccess, message, payload)
  }
}
