/** Failure-carrying result types shared by the whiteboard modules. */
module Wrappers {

  datatype Option<+T> = None | Some(value: T)

  /** A computation that either yields a value or fails with an error. */
  datatype Result<+T, +E> = Ok(value: T) | Err(error: E)

  /** The verdict of an event handler that returns nothing but may throw. */
  datatype Outcome<+E> = Pass | Fail(error: E)
}
