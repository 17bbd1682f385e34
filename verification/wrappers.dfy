/** Failure-carrying results, in the style of the standard Wrappers module. */
module Wrappers {

  /** A value that may be absent: the source's `None` return. */
  datatype Option<+T> = None | Some(value: T)

  /** Either a value or the error that the source raises instead of returning one. */
  datatype Result<+T, +E> = Ok(value: T) | Err(error: E)
}
