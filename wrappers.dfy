/** Failure-carrying result types shared by the modules of this model. */
module Wrappers {

  /** A value that may be absent (`null`/`undefined` in the source). */
  datatype Option<+T> = None | Some(value: T)

  /** The value of an operation that either returns or throws. */
  datatype Result<+T, +E> = Success(value: T) | Failure(error: E)

  /** The value of an operation that returns nothing or throws. */
  datatype Outcome<+E> = Pass | Fail(error: E)
}
