/** Failure-compatible wrappers shared by the model. */
module Wrappers {

  /** An optional value: a collaborator that may produce nothing. */
  datatype Option<+T> = None | Some(value: T)

  /** The outcome of an operation that returns a value or an error. */
  datatype Result<+R, +E> = Success(value: R) | Failure(error: E)
}
