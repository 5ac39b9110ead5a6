/** Option and Result values for the lookups and errors of the modelled code. */
module Wrappers {

  datatype Option<+T> = None | Some(value: T)

  /** A value, or the error the original raises or logs instead of returning one. */
  datatype Result<+T, +E> = Ok(value: T) | Err(error: E)
}
