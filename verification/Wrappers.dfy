/** Result types shared by the modules of this project. */
module Wrappers {

  /** A Go pointer, error or slice that may be nil. */
  datatype Option<+T> = None | Some(value: T)

  /** A Go (value, error) pair. */
  datatype Result<+T, +E> = Ok(value: T) | Err(error: E)
}
