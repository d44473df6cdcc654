/** Failure-carrying datatypes used for Python's `None` returns and raised exceptions. */
module Wrappers {

  /** A value that may be absent (Python's `None`). */
  datatype Option<+T> = None | Some(value: T)

  /** A value, or the exception that was raised instead. */
  datatype Result<+T, +E> = Ok(value: T) | Err(error: E)

  /** An operation that returns nothing, or the exception that it raised. */
  datatype Outcome<+E> = Pass | Fail(error: E)
}
