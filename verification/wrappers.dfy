/** Failure-carrying result types shared by the modules of the model. */
module Wrappers {

  /** A value that may be absent; JavaScript's `undefined` is modelled as `None`. */
  datatype Option<+T> = None | Some(value: T)

  /** The outcome of an operation that either succeeds with a value or fails with a reason. */
  datatype Result<+R, +E> = Success(value: R) | Failure(error: E)
}
