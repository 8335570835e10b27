/** Failure-carrying result types used across the model. */
module Wrappers {

  datatype Option<+T> = None | Some(value: T)

  /** The value an operation returns, or the error it throws. */
  datatype Result<+T, +E> = Ok(value: T) | Err(error: E)

  /** The completion of an operation that returns nothing, or the error it throws. */
  datatype Outcome<+E> = Pass | Fail(error: E)
}
