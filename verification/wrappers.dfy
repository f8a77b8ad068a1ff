/** Failure-carrying result types shared by the other modules. */
module Wrappers {

  /** An optional value: `None` stands for "not found". */
  datatype Option<+T> = None | Some(value: T)

  /** The outcome of an operation that can fail with an error value. */
  datatype Result<+R, +E> = Success(value: R) | Failure(error: E)
}
