/** Failure-carrying result types shared by the whole model. */
module Wrappers {

  /** A value that may be absent: JavaScript's `undefined` for a missing
      environment variable or a missing array element. */
  datatype Option<+T> = None | Some(value: T)

  /** The outcome of an operation that can throw: `Failure` carries the
      thrown error. */
  datatype Result<+T, +E> = Success(value: T) | Failure(error: E)
}
