/** Option and Result values used for the partial operations of the helpers. */
module Wrappers {

  datatype Option<+T> = None | Some(value: T)

  /** Ok carries the value an operation returns; Err the exception Python would raise. */
  datatype Result<+T, +E> = Ok(value: T) | Err(error: E)
}
