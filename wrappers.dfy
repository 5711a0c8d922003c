/** Option, Result and Outcome values shared by the other modules. */
module Wrappers {

  /** `None` stands for a Java `null` reference wherever the source allows one. */
  datatype Option<+T> = None | Some(value: T)

  /** The value of a call that may throw: `Failure` carries the exception. */
  datatype Result<+R, +E> = Success(value: R) | Failure(error: E)

  /** The outcome of a `void` call that may throw. */
  datatype Outcome<+E> = Pass | Fail(error: E)
}
