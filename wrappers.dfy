/** Optional values (a Go pointer that may be nil) and results (a Go value paired with an error). */
module Wrappers {

  /** A field that is either unset (nil) or holds a value. */
  datatype Option<+T> = None | Some(value: T)

  /** The outcome of a Go call returning (value, err): either the value, or the error. */
  datatype Result<+T, +E> = Ok(value: T) | Err(error: E)
}
