/** Small optional-value and outcome datatypes used across the model. */
module Wrappers {

  /** `None` plays the part of JavaScript's `null`/`undefined` results. */
  datatype Option<T> = None | Some(value: T)

  /** The value of an operation that can fail, or the reason it failed. */
  datatype Result<T, E> = Success(value: T) | Failure(error: E)
}
