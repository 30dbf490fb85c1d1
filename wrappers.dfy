/** Optional values and results, used for Python's `None` and for the exceptions
    the helpers raise. */
module Wrappers {

  /** A Python value that may be `None`. */
  datatype Option<T> = None | Some(value: T)

  /** The value of a computation that may raise instead of returning. */
  datatype Result<T, E> = Ok(value: T) | Err(error: E)
}
