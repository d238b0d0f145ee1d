/** Result types shared by every module of the model. */
module Wrappers {

  /** A value that may be absent (PHP `null`, a missing row). */
  datatype Option<+T> = None | Some(value: T)

  /** The outcome of an operation that the source ends by throwing. */
  datatype Result<+R, +E> = Success(value: R) | Failure(error: E)
}
