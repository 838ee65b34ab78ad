/** Optional values, results of operations that can throw, and the identifier types shared by the model. */
module Wrappers {

  /** A value that may be absent: JavaScript's `undefined`/`null`. */
  datatype Option<+T> = None | Some(value: T) {
    function GetOr(default: T): T {
      match this
      case Some(v) => v
      case None => default
    }
  }

  /** A computation that either succeeds or throws an error carrying a message. */
  datatype Result<+R, +E> = Success(value: R) | Failure(error: E)

  /** MongoDB object ids, compared by value (`id.toString()` equality). */
  type UserId = nat
  type NoteId = nat
}
