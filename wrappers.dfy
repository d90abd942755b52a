/** Option, Result and Outcome: the service's return values and thrown exceptions as data. */
module Wrappers {

  datatype Option<+T> = None | Some(value: T) {
    /** The contained value, or `default` when there is none. */
    function GetOr(default: T): T {
      match this
      case Some(v) => v
      case None => default
    }
  }

  /** A call that either returns a value or throws an error. */
  datatype Result<+R, +E> = Success(value: R) | Failure(error: E)

  /** A call that returns nothing (`Promise<void>`) or throws an error. */
  datatype Outcome<+E> = Pass | Fail(error: E)
}
