/** Option and Result: the nullable columns and the raise-or-return shape of the data layer. */
module Wrappers {

  /** A value that may be absent (a nullable column, a missing keyword argument). */
  datatype Option<+T> = None | Some(value: T)

  /** Either a value or the error that the operation raised. */
  datatype Result<+T, +E> = Ok(value: T) | Err(error: E)
}
