/** Option and Result: the absent cell of a table and the error path of an operation. */
module Wrappers {

  /** `None` is a missing (NaN) cell; `Some(v)` a present one. */
  datatype Option<+T> = None | Some(value: T)

  /** `Err` carries the exception the program would raise. */
  datatype Result<+T, +E> = Ok(value: T) | Err(error: E)
}
