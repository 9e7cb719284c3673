/** Option and Result, the failure-carrying datatypes used throughout the model. */
module Wrappers {

  datatype Option<+T> = None | Some(value: T) {
    function GetOr(default: T): T {
      match this
      case Some(v) => v
      case None => default
    }
  }

  /** A Failure stands for an exception the PHP code throws. */
  datatype Result<+R, +E> = Success(value: R) | Failure(error: E)
}
