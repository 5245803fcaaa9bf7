/** Failure-compatible result types used in place of std::optional and thrown exceptions. */
module Wrappers {

  /** std::optional: either no value or some value. */
  datatype Option<+T> = None | Some(value: T)

  /** A value, or the message an exception would have carried. */
  datatype Result<+T, +E> = Success(value: T) | Failure(error: E)
}
