/** Failure-carrying datatypes used throughout the model. */
module Wrappers {

  /** A value that may be absent, as returned by a defaulted lookup. */
  datatype Option<+T> = None | Some(value: T)

  /** Either a value or the error that was raised instead. */
  datatype Result<+R, +E> = Success(value: R) | Failure(error: E)
}
