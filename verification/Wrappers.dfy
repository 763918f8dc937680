/** Optional values and results, standing in for Python's `None` and for an
    exception escaping a computation. */
module Wrappers {

  /** A value that may be absent (`None` in the source). */
  datatype Option<+T> = None | Some(value: T)

  /** A computation that either produced a value or raised an error. */
  datatype Result<+R, +E> = Success(value: R) | Failure(error: E)
}
