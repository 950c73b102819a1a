/** Optional values and results with an error, as used throughout the model. */
module Wrappers {

  /** A value that may be absent: PHP's `null` where a value is optional. */
  datatype Option<+T> = None | Some(value: T) {
    function GetOr(default: T): T {
      match this
      case Some(v) => v
      case None => default
    }
  }

  /** The outcome of an operation that may throw: the value, or the exception message. */
  datatype Result<+R, +E> = Success(value: R) | Failure(error: E)
}
