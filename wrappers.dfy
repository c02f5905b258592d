/** Optional and result values used across the model: an optional value (Ruby's nil),
    a result that carries either a value or an error, and a pass/fail outcome. */
module Wrappers {

  /** An optional value; None stands for Ruby's nil. */
  datatype Option<+T> = None | Some(value: T)

  /** The value of a call that can raise; Failure carries the raised error. */
  datatype Result<+R, +E> = Success(value: R) | Failure(error: E)

  /** A call that returns nothing useful but can raise. */
  datatype Outcome<+E> = Pass | Fail(error: E)
}
