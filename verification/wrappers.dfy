/** Optional values and results with an error branch, used across the model. */
module Wrappers {

  /** A value that may be absent (Python's `None`). */
  datatype Option<+T> = None | Some(value: T)

  /** The outcome of a step that may stop the script with an exception. */
  datatype Result<+T, +E> = Ok(value: T) | Err(error: E)
}
