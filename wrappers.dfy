/** Optional values and results shared by the modules of this project. */
module Wrappers {

  /** A value that may be absent: JavaScript's `null`/`undefined`, or a number that is not finite. */
  datatype Option<+T> = None | Some(value: T) {
    function GetOr(default: T): T {
      match this
      case Some(v) => v
      case None => default
    }
  }

  /** The outcome of an operation that can fail with a message. */
  datatype Result<+T, +E> = Success(value: T) | Failure(error: E)
}
