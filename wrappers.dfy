/** Failure-carrying result types shared by the model. */
module Wrappers {

  /** An optional value: `null`/`undefined` on the source side. */
  datatype Option<+T> = None | Some(value: T)

  /** A value or the error that the source would throw instead of returning. */
  datatype Result<+R, +E> = Ok(value: R) | Err(error: E)

  /** Success without a value (a `void` function that may throw). */
  datatype Outcome<+E> = Pass | Fail(error: E)
}
