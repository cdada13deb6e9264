/** Failure-compatible wrappers shared by every module of the model. */
module Wrappers {

  /** JavaScript's `undefined` versus a present value. */
  datatype Option<+T> = None | Some(value: T) {
    /** `x ?? default` */
    function GetOr(default: T): T {
      if Some? then value else default
    }
  }

  /** A check that either passes or throws the error it carries. */
  datatype Outcome<+E> = Pass | Fail(error: E)

  /** A computation that either yields a value or throws the error it carries. */
  datatype Result<+T, +E> = Success(value: T) | Failure(error: E)
}
