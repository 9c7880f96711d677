/** Failure-carrying datatypes used in place of the exceptions the
    account service raises. */
module Wrappers {

  datatype Option<+T> = None | Some(value: T)

  /** A value, or the error a call raised instead of returning. */
  datatype Result<+R, +E> = Ok(value: R) | Err(error: E)

  /** A guard that either lets the caller go on or raises. */
  datatype Outcome<+E> = Pass | Fail(error: E)
}
