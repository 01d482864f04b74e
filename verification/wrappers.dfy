/** The optional and success-or-error values shared by both cached domains. */
module Wrappers {

  /** A value that may be absent: a cache miss, a JSON field left out, no matching part. */
  datatype Option<+T> = None | Some(value: T) {

    /** The wrapped value, or `default` when absent. */
    function GetOr(default: T): T {
      match this
      case Some(v) => v
      case None => default
    }
  }

  /** Either the value an operation produced or the error it threw. */
  datatype Result<+R, +E> = Success(value: R) | Failure(error: E)
}
