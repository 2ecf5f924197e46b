/** Optional values and results with an error, used across the model. */
module Wrappers {

  /** A value that may be absent (JavaScript `null`/`undefined`, a missing dict key). */
  datatype Option<+T> = None | Some(value: T) {
    function GetOr(default: T): T {
      match this
      case Some(v) => v
      case None => default
    }
  }

  /** The outcome of an operation that raises or rejects. */
  datatype Result<+T, +E> = Ok(value: T) | Err(error: E)
}
