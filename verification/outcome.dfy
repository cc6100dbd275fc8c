/** Failure-carrying wrappers shared by every module of the model. */
module Outcome {

  /** A value that may be absent: Java's `null` or a call that threw. */
  datatype Option<+T> = None | Some(value: T)

  /** The value an operation returns, or the exception it throws. */
  datatype Result<+T, +E> = Ok(value: T) | Err(error: E)
}
