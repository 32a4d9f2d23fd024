/** Option and result datatypes used across the model. */
module Wrappers {

  /** A value that may be absent (JavaScript's `undefined` / `null`). */
  datatype Option<+T> = None | Some(value: T)

  /** The outcome of an operation that can throw: its value or the error it propagates. */
  datatype Result<+T, +E> = Ok(value: T) | Err(error: E)

  /** The outcome of an operation that returns nothing but can throw. */
  datatype Outcome<+E> = Pass | Fail(error: E)
}
