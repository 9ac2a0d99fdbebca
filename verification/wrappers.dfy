/** Failure-carrying datatypes used across the model. */
module Wrappers {

  /** A value that may be absent; a CSV cell that pandas reads as NaN is `None`. */
  datatype Option<+T> = None | Some(value: T) {

    /** The carried value, or `default` when absent. */
    function GetOr(default: T): T {
      match this
      case Some(v) => v
      case None => default
    }
  }

  /** Either a value or the error that stopped the computation (a raised exception). */
  datatype Result<+T, +E> = Ok(value: T) | Err(error: E)
}
