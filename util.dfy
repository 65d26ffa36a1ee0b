/** Failure-carrying results: the Python source raises ValueError; the model returns these instead. */
module Util {

  datatype Option<T> = None | Some(value: T)

  /** The value of an operation that either succeeds or raises an error. */
  datatype Result<T, E> = Success(value: T) | Failure(error: E)

  /** The value of an operation that only checks (returns None in Python) or raises. */
  datatype Outcome<E> = Pass | Fail(error: E)
}
