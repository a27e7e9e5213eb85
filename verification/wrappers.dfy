/** Failure-carrying wrappers used throughout the model: an optional value
    (Python's `Optional[...]`, with `None` for an absent value) and the
    result of a handler that either answers or raises an HTTP error. */
module Wrappers {

  /** An optional value. */
  datatype Option<+T> = None | Some(value: T)

  /** Either a success value or an error value. */
  datatype Result<+T, +E> = Ok(value: T) | Err(error: E)
}
