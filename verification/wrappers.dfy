/** Failure-compatible value wrappers used throughout the model. */
module Wrappers {

  /** An optional value: a missing attribute, a missing element, a missing form field. */
  datatype Option<+T> = None | Some(value: T)

  /** The outcome of a library call that either returns a value or raises. */
  datatype Result<+T, +E> = Success(value: T) | Failure(error: E)
}
