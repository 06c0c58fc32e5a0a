/** Failure-carrying datatypes shared by the whole model. */
module Wrappers {

  /** A value that may be absent: JavaScript's `undefined`/`null` in the modelled code. */
  datatype Option<+T> = None | Some(value: T)

  /** The outcome of a call that either returns a value or throws/rejects with an error. */
  datatype Result<+R, +E> = Success(value: R) | Failure(error: E)
}
