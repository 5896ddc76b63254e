/** Option and Result: the two failure-carrying shapes the model uses. */
module Wrappers {

  /** A value that may be absent (Python's `None`). */
  datatype Option<+T> = None | Some(value: T)

  /** A value or the error that a call raised instead. */
  datatype Result<+T, +E> = Ok(value: T) | Err(error: E)
}
