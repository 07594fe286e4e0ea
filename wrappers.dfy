/** Option and Result, used for the missing values and the failures of the scripts. */
module Wrappers {

  /** A value that may be missing (pandas NaN). */
  datatype Option<+T> = None | Some(value: T)

  /** The outcome of a step that can raise. */
  datatype Result<+T, +E> = Ok(value: T) | Err(error: E)
}
