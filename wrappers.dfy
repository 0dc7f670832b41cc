/** Small result types shared by the modules of this model. */
module Wrappers {
  datatype Option<T> = None | Some(value: T)

  /** The outcome of an operation that the C++ code ends by throwing an exception. */
  datatype Result<T, E> = Ok(value: T) | Err(error: E)
}
