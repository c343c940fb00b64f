/** Result and Outcome types standing in for Python's raised exceptions. */
module Wrappers {

  /** A computation that either produced a value or raised `error`. */
  datatype Result<T, E> = Success(value: T) | Failure(error: E)

  /** A check that either passed or raised `error`. */
  datatype Outcome<E> = Pass | Fail(error: E)
}
