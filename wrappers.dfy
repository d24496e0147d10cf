/** Option and error-carrying results shared by the model's modules. */
module Wrappers {

  datatype Option<T> = None | Some(value: T)

  /** The outcome of a handler that only succeeds or fails. */
  datatype Outcome<E> = Pass | Fail(error: E)

  /** The outcome of a handler that, on success, produces a value. */
  datatype Result<T, E> = Ok(value: T) | Err(error: E)
}
