/** Option and Result: Python's `None` and raised exceptions, made explicit. */
module Wrappers {

  /** A value that may be missing, as Python's `None` marks a missing value. */
  datatype Option<+T> = None | Some(value: T)

  /** The outcome of a computation that may raise: a value, or the error it raised. */
  datatype Result<+T, +E> = Ok(value: T) | Err(error: E)
}
