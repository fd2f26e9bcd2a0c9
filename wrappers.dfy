/** `null`-or-value and success-or-error results. */
module Wrappers {
  datatype Option<+T> = None | Some(value: T)

  datatype Result<+T, +E> = Success(value: T) | Failure(error: E)
}
