/** Failure-carrying values shared by the other modules. */
module Wrappers {

  /** A value that may be absent: JavaScript's `undefined` on the one hand, a value on the other. */
  datatype Option<+T> = None | Some(value: T)

  /** The outcome of an operation that can fail with an error of type E. */
  datatype Result<+R, +E> = Success(value: R) | Failure(error: E)
}
