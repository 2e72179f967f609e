/** Optional values and error results shared by the ranking modules. */
module Wrappers {

  /** A value that may be missing: Python's `None` or pandas' NaN. */
  datatype Option<+T> = None | Some(value: T)

  /** The value of a computation that may raise. */
  datatype Result<+R, +E> = Ok(value: R) | Err(error: E)
}
