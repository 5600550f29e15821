/** Option and Result, the failure-carrying datatypes used by the select model. */
module Wrappers {

  /** A value that may be absent (a C pointer that may be NULL). */
  datatype Option<T> = None | Some(value: T)

  /** The outcome of an operation that either returns a value or throws. */
  datatype Result<T, E> = Success(value: T) | Failure(error: E)
}
