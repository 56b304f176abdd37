/** Failure-carrying values used throughout the model. */
module Wrappers {

  datatype Option<+T> = None | Some(value: T)

  /** The outcome of an operation that raises in the original program. */
  datatype Result<+T, +E> = Success(value: T) | Failure(error: E)
}
