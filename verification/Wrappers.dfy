/** Option and Result, the failure-carrying values used by the rest of the model. */
module Wrappers {

  datatype Option<+T> = None | Some(value: T)

  /** The outcome of an operation that the source ends by throwing on failure. */
  datatype Result<+T, +E> = Success(value: T) | Failure(error: E)
}
