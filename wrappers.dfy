/** Option and Result, the two failure-carrying shapes the model uses. */
module Wrappers {

  /** A JavaScript value that may be `undefined` / `null`. */
  datatype Option<+T> = None | Some(value: T) {
    /** `x ?? d` */
    function GetOr(default: T): T {
      match this
      case Some(v) => v
      case None => default
    }
  }

  /** The `{ ok, error }` outcome of an operation that may fail. */
  datatype Result<+R, +E> = Success(value: R) | Failure(error: E)
}
