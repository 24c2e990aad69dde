/** Option and Result types shared by the modules of this model. */
module Wrappers {
  datatype Option<T> = None | Some(value: T)

  /** The outcome of an operation that can raise: `Err` carries the kind of exception. */
  datatype Result<T, E> = Ok(value: T) | Err(error: E)
}
