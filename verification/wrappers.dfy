/** Failure-carrying values shared by the modules of the approximate
    Boyer-Moore model. */
module Wrappers {

  /** A value that may be absent; stands for a Java reference that may be `null`. */
  datatype Option<+T> = None | Some(value: T)

  /** Either a successful value or the error that aborted the computation. */
  datatype Result<+R, +E> = Success(value: R) | Failure(error: E)
}
