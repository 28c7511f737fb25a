/** Small failure-carrying datatypes shared by the other modules. */
module Wrappers {

  /** A value that may be absent (PHP's nullable `?T`). */
  datatype Option<+T> = None | Some(value: T)

  /** The outcome of an operation that may throw: a value, or the error it raised. */
  datatype Result<+T, +E> = Success(value: T) | Failure(error: E)
}
