/** Option and Result, used for the source's `undefined` values and thrown errors. */
module Wrappers {

  datatype Option<+T> = None | Some(value: T)

  /** A successful value, or the message of the `Error` the source throws. */
  datatype Result<+R, +E> = Success(value: R) | Failure(error: E)
}
