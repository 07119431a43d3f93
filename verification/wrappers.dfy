/** Failure-carrying datatypes shared by the rest of the model. */
module Wrappers {

  /** An optional value. */
  datatype Option<+T> = None | Some(value: T)

  /** Either a computed value or the error that prevented it. */
  datatype Result<+R, +E> = Success(value: R) | Failure(error: E)
}
