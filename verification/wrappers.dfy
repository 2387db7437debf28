/** Optional values and results with an error, as the client's operations
    either produce a value or throw. */
module Wrappers {

  /** A value that may be absent (JavaScript `undefined` or `null`). */
  datatype Option<+T> = None | Some(value: T) {
    function GetOr(default: T): T {
      match this
      case Some(v) => v
      case None => default
    }
  }

  /** The outcome of an operation that may throw: its value, or the error thrown. */
  datatype Result<+T, +E> = Success(value: T) | Failure(error: E)
}
