/** Optional values and success/failure results shared by the repository and the service. */
module Wrappers {

  datatype Option<+T> = None | Some(value: T)

  /** The value of an operation that either returns `value` or throws `error`. */
  datatype Result<+R, +E> = Success(value: R) | Failure(error: E)

  /** The value of an operation that returns nothing or throws `error`. */
  datatype Outcome<+E> = Pass | Fail(error: E)
}
