/** Option and Result: the shapes of the source's `Option<T>` and `Result<T, E>` returns. */
module Wrappers {

  datatype Option<+T> = None | Some(value: T)

  datatype Result<+T, +E> = Ok(value: T) | Err(error: E)

  /** The outcome of one call of code that may panic. */
  datatype Outcome<+T> = Returned(value: T) | Panicked
}
