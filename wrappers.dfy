/** Failure-carrying values: JavaScript's `undefined` and thrown errors. */
module Wrappers {

  /** `None` stands for a JavaScript `undefined`. */
  datatype Option<+T> = None | Some(value: T)

  datatype Result<+R, +E> = Success(value: R) | Failure(error: E)
}
