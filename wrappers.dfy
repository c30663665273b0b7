/** Option and Result values used by the whole model in place of
    std::optional and thrown exceptions. */
module Wrappers {

  datatype Option<+T> = None | Some(value: T)

  /** The outcome of an operation that can fail with an error value. */
  datatype Result<+R, +E> = Success(value: R) | Failure(error: E)

  /** An operation that returns nothing but can fail. */
  datatype Outcome<+E> = Pass | Fail(error: E)
}
