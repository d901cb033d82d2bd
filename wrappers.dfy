/** Absent-or-present values, results of operations that may fail, and
    checks that either pass or fail with an error. */
module Wrappers {

  /** A Java reference that may be null. */
  datatype Option<+T> = None | Some(value: T)

  /** A call that returns a value or throws. */
  datatype Result<+R, +E> = Ok(value: R) | Err(error: E)

  /** A void call that returns normally or throws. */
  datatype Outcome<+E> = Pass | Fail(error: E)
}
