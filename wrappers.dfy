/** Failure-carrying values: the model's stand-in for a JavaScript `throw`. */
module Wrappers {

  datatype Option<+T> = None | Some(value: T)

  /** Either a value or the error the widget throws. */
  datatype Result<+R, +E> = Success(value: R) | Failure(error: E)

  /** A call that returns nothing useful, or the error it threw. */
  datatype Outcome<+E> = Pass | Fail(error: E)
}
