/** Option and Result, the two failure-carrying datatypes the rest of the model uses. */
module Wrappers {

  /** Python's `None` or a present value. */
  datatype Option<+T> = None | Some(value: T)

  /** A value, or the exception a Python function would raise instead. */
  datatype Result<+T, +E> = Ok(value: T) | Err(error: E)
}
