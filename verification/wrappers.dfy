/** Failure-carrying results used where the scheduler either returns a value
    or raises (an assertion, a KeyError, an IndexError). */
module Wrappers {

  /** A value that may be absent: an optional JSON key, a search that may find nothing. */
  datatype Option<+T> = None | Some(value: T) {

    /** The value if present, otherwise `default` (Python's `{**defaults, **d}` merge). */
    function GetOr(default: T): T {
      match this
      case Some(v) => v
      case None => default
    }
  }

  /** The outcome of an operation that can raise: `Success` or the error raised. */
  datatype Result<+R, +E> = Success(value: R) | Failure(error: E)
}
