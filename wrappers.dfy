/** Option and Result, the two failure-carrying shapes the model uses. */
module Wrappers {

  datatype Option<+T> = None | Some(value: T)

  /** The value of a call that returns normally, or the exception it raises. */
  datatype Result<+R, +E> = Ok(value: R) | Err(error: E)
}
