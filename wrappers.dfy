/** Absence markers and error returns shared by the registry model. */
module Wrappers {

  /** Python's `None` versus a present value. */
  datatype Option<T> = None | Some(value: T)

  /** A value, or the exception the Python code would raise instead. */
  datatype Result<T, E> = Ok(value: T) | Err(error: E)
}
