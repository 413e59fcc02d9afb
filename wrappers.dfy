/** Option, Result and Outcome: the values that stand for the source's null pointers
    and for the exceptions its operations throw. */
module Wrappers {

  datatype Option<+T> = None | Some(value: T)

  /** A value-carrying operation that either succeeds or throws. */
  datatype Result<+R, +E> = Success(value: R) | Failure(error: E)

  /** An operation returning `void` that either completes or throws. */
  datatype Outcome<+E> = Pass | Fail(error: E)
}
