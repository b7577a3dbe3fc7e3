/** Optional values and success-or-error results, shared by every module. */
module Wrappers {

  /** A value that may be missing. */
  datatype Option<+T> = None | Some(value: T) {

    /** The carried value, or `default` when there is none. */
    function GetOr(default: T): T {
      match this
      case Some(v) => v
      case None => default
    }
  }

  /** The outcome of an operation that either produces a value or rejects its input. */
  datatype Result<+T, +E> = Ok(value: T) | Err(error: E)
}
