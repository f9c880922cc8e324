/** Option and Result, the shapes in which the model reports a missing value or an error. */
module Wrappers {

  datatype Option<+T> = None | Some(value: T)

  /** A value, or the error that an exception of the original program carried. */
  datatype Result<+T, +E> = Ok(value: T) | Err(error: E)
}
