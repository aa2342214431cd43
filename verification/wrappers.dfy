/** Failure-carrying datatypes used for the error paths of the model. */
module Wrappers {

  /** A value that may be absent: a failed file read, a missing match. */
  datatype Option<+T> = None | Some(value: T)

  /** The outcome of an operation that either yields a value or fails with an error. */
  datatype Result<+T, +E> = Success(value: T) | Failure(error: E)
}
