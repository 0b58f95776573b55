/** Option and Result, the two failure-carrying datatypes the model uses. */
module Wrappers {

  /** A value that may be absent: Ruby's `nil` is `None`. */
  datatype Option<+T> = None | Some(value: T)

  /** The outcome of an evaluation that may raise. */
  datatype Result<+R, +E> = Success(value: R) | Failure(error: E)
}
