/** Failure-carrying datatypes shared by the mail-client model. */
module Wrappers {

  /** A value that may be missing: stands for JavaScript's `null`. */
  datatype Option<+T> = None | Some(value: T)

  /** The outcome of an operation that can throw. */
  datatype Result<+R, +E> = Success(value: R) | Failure(error: E)
}
