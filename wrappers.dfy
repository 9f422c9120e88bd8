/** Failure-carrying result types shared by the student-record modules. */
module Wrappers {

  datatype Option<+T> = None | Some(value: T)

  /** A computed value, or the error that stopped the computation. */
  datatype Result<+R, +E> = Success(value: R) | Failure(error: E)

  /** Success or failure of an operation that computes no value. */
  datatype Outcome<+E> = Pass | Fail(error: E)
}
