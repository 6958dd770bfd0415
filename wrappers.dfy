/** The Option and Result datatypes shared by the modules of this project. */
module Wrappers {

  /** A value that may be absent, as Python's None. */
  datatype Option<+T> = None | Some(value: T)

  /** A computed value, or the error a Python function would raise instead. */
  datatype Result<+T, +E> = Ok(value: T) | Err(error: E)
}
