/** Option, Result and Outcome: the error paths of the protocol engine. */
module Wrappers {
  datatype Option<+T> = None | Some(value: T)

  datatype Result<+T, +E> = Success(value: T) | Failure(error: E)

  /** A step that either passes or fails with an error, carrying no value. */
  datatype Outcome<+E> = Pass | Fail(error: E)
}
