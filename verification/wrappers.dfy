/** Failure-carrying datatypes shared by the whole model. */
module Wrappers {

  /** A value that may be missing (JavaScript's `undefined` where it matters). */
  datatype Option<T> = None | Some(value: T)

  /** The outcome of a step that either yields a value or throws an error. */
  datatype Result<T, E> = Success(value: T) | Failure(error: E)
}
