/** Optional values and error-carrying results, used throughout the model. */
module Wrappers {

  /** A value that may be absent (JavaScript `undefined`/`null`, or a missing field). */
  datatype Option<+T> = None | Some(value: T) {
    function GetOr(default: T): T {
      match this
      case Some(v) => v
      case None => default
    }
  }

  /** The outcome of an operation that can fail with an error of type E. */
  datatype Result<+T, +E> = Ok(value: T) | Err(error: E)
}
