/** Failure-carrying datatypes shared by every module of the model. */
module Wrappers {

  /** An optional value; `None` stands for JavaScript's `null`/`undefined`. */
  datatype Option<+T> = None | Some(value: T)

  /** The value of a computation that can fail with an error of type `E`. */
  datatype Result<+T, +E> = Success(value: T) | Failure(error: E)

  /** The outcome of a check that yields no value: it passes or fails with `E`. */
  datatype Outcome<+E> = Pass | Fail(error: E)
}
