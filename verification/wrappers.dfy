/** Option and Result datatypes used by the argument checks and the readers. */
module Wrappers {

  datatype Option<+T> = None | Some(value: T)

  /** The outcome of a constructor that validates its arguments:
      the constructed value, or the exception it throws. */
  datatype Result<+R, +E> = Success(value: R) | Failure(error: E)
}
