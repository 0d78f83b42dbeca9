/** Failure-compatible wrappers used across the model. */
module Wrappers {
  datatype Option<+T> = None | Some(value: T)

  /** Result of a call that may raise; the error carries the text `str(e)` of the exception. */
  datatype Result<+T> = Ok(value: T) | Err(error: string)
}
