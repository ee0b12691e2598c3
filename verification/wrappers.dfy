/** Failure-carrying result types shared by the model. */
module Wrappers {

  /** A value that may be absent (JavaScript's `null`/`undefined` where the source uses it). */
  datatype Option<+T> = None | Some(value: T)

  /** The outcome of an operation that may throw: either its value or the thrown message. */
  datatype Result<+T, +E> = Success(value: T) | Failure(error: E)
}
