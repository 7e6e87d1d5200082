/** Failure-carrying result types shared by the profile store and the unpack engine. */
module Wrappers {

  datatype Option<+T> = None | Some(value: T)

  /** The result of an operation that yields a value or stops with an error. */
  datatype Result<+R, +E> = Success(value: R) | Failure(error: E)

  /** The result of an operation that yields nothing or stops with an error. */
  datatype Outcome<+E> = Pass | Fail(error: E)
}
