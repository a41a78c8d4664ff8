/** The optional value and success-or-error result types shared by every module of the model. */
module Wrappers {

  /** A value that may be missing: PHP's null, an absent array key, an unset attribute. */
  datatype Option<+T> = None | Some(value: T)

  /** A computation that either produced a value or raised with a message. */
  datatype Result<+T, +E> = Success(value: T) | Failure(error: E)
}
