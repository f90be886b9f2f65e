/** Optional values and results with an error, used in place of null and exceptions. */
module Wrappers {

  /** A value that may be absent; `None` stands for the null of `FirstOrDefault`. */
  datatype Option<+T> = None | Some(value: T)

  /** A value or the error that aborted the computation. */
  datatype Result<+T, +E> = Ok(value: T) | Err(error: E)
}
