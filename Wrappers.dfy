/** Option and Result values, used where the source returns a null pointer
    or throws an error code. */
module Wrappers {

  datatype Option<+T> = None | Some(value: T)

  datatype Result<+T, +E> = Ok(value: T) | Err(error: E)

  /** The outcome of an operation that returns nothing but may fail. */
  datatype Outcome<+E> = Pass | Fail(error: E)
}
