/** Plain wrapper datatypes used throughout the model: Ruby's `nil`-or-value
    becomes an Option, and a raised exception becomes the Failure arm of a Result.
    They are matched on explicitly; no failure-propagation operator is defined. */
module Wrappers {

  /** A value that may be absent (Ruby `nil`). */
  datatype Option<+T> = None | Some(value: T)

  /** Either a computed value or the error that would have been raised. */
  datatype Result<+R, +E> = Success(value: R) | Failure(error: E)
}
