/** Failure-carrying results: the model's stand-in for Python exceptions. */
module Wrappers {

  datatype Option<T> = None | Some(value: T)

  /** A value or the error that the Python code raises instead of returning. */
  datatype Result<T, E> = Success(value: T) | Failure(error: E)

  /** The outcome of an operation that returns nothing or raises. */
  datatype Outcome<E> = Pass | Fail(error: E)
}
