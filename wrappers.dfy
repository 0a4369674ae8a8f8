/** The failure-carrying datatypes used by the generator. */
module Wrappers {

  datatype Option<+T> = None | Some(value: T)

  /** A value, or the error that Python would raise instead of returning. */
  datatype Result<+R, +E> = Success(value: R) | Failure(error: E)
}
