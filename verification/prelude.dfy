/** Failure-carrying wrappers shared by every module of the model. */
module Prelude {

  /** A value that may be absent: JavaScript's `null`/`undefined` on one side, a value on the other. */
  datatype Option<+T> = None | Some(value: T)

  /** The outcome of an operation that can throw: a value, or the message of the error it throws. */
  datatype Result<+T, +E> = Ok(value: T) | Err(error: E)
}
