/** Failure-compatible wrappers: `Option` for Java's nullable boxes and
    `Optional`, `Result` and `Outcome` for operations that may throw. */
module Wrappers {

  datatype Option<+T> = None | Some(value: T)

  /** A value, or the error an operation signals instead of returning one. */
  datatype Result<+T, +E> = Ok(value: T) | Err(error: E)

  /** Success of an operation that returns nothing (Java `void`), or its error. */
  datatype Outcome<+E> = Pass | Fail(error: E)
}
