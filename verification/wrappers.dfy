/** Option and Result values used where the source returns `undefined` or throws. */
module Wrappers {

  datatype Option<+T> = None | Some(value: T)

  /** `Failure` carries the message of the `Error` the source would throw. */
  datatype Result<+T, +E> = Success(value: T) | Failure(error: E)
}
