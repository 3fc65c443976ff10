/** Failure-compatible wrappers and the exceptions the modelled code raises. */
module Wrappers {

  /** A value that may be absent: a missing dictionary key or a `None`. */
  datatype Option<+T> = None | Some(value: T) {
    /** `value` when present, otherwise `default`. */
    function GetOr(default: T): T {
      match this
      case Some(v) => v
      case None => default
    }
  }

  /** Either a value or the exception raised instead. */
  datatype Result<+T, +E> = Success(value: T) | Failure(error: E)

  /** The Python exceptions that escape the modelled functions. */
  datatype Error =
    | ValueError(message: string)
    | TypeError(message: string)
    | IntegrityError(message: string)
}
