/** Failure-carrying results used across the model. */
module Wrappers {

  /** A value that may be absent: an object key that is not set, or a library call that threw. */
  datatype Option<+T> = None | Some(value: T)

  /** The outcome of an operation that either produces a value or fails with an error. */
  datatype Result<+T, +E> = Success(value: T) | Failure(error: E)
}
