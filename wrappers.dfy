/** The optional value used where the program returns None or a value, and the
    outcome of an operation that may raise instead of returning. */
module Wrappers {
  datatype Option<+T> = None | Some(value: T)

  datatype Result<+T, +E> = Ok(value: T) | Err(error: E)
}
