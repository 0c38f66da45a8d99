/** Option, Result and Outcome types for the source's `None` values and raised errors. */
module Wrappers {

  /** A value that may be absent (the source's `None`). */
  datatype Option<+T> = None | Some(value: T)

  /** A value, or the error the source would raise instead of returning one. */
  datatype Result<+R, +E> = Success(value: R) | Failure(error: E)

  /** Success or the error raised, for operations that return nothing. */
  datatype Outcome<+E> = Pass | Fail(error: E)
}
