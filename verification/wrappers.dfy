/** An optional value, and a value-or-error result. */
module Wrappers {

  /** A value that may be absent; stands for a nil pointer in the modelled code. */
  datatype Option<+T> = None | Some(value: T)

  /** Either a value or the error that prevented computing it. */
  datatype Result<+R, +E> = Success(value: R) | Failure(error: E)
}
