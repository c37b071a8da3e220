/** Failure-compatible wrappers used for the absent values (`null`) and the
    thrown errors of the modelled script. */
module Wrappers {

  /** A value that may be absent; stands for a JavaScript `null` result. */
  datatype Option<+T> = None | Some(value: T)

  /** Either a value or the error the script would have thrown. */
  datatype Result<+R, +E> = Success(value: R) | Failure(error: E)
}
