/** Success/failure wrappers shared by every module of the model. */
module Outcomes {

  /** A value that may be absent (Python's `None`). */
  datatype Option<T> = None | Some(value: T)

  /** A value or the error that a Python exception would have signalled. */
  datatype Result<T, E> = Ok(value: T) | Err(error: E)
}
