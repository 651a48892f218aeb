/** Optional values and results shared by the launcher's modules. */
module Wrappers {

  /** A value that may be absent (Python's `None`). */
  datatype Option<+T> = None | Some(value: T)

  /** A computed value, or the error Python raises instead. */
  datatype Result<+T, +E> = Ok(value: T) | Err(error: E)
}
