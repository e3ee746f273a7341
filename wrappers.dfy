/** Optional values and results with an error message. */
module Wrappers {

  /** A value that may be absent (JavaScript `null`). */
  datatype Option<+T> = None | Some(value: T)

  /** A value, or the message of an exception thrown instead of returning one. */
  datatype Result<+T> = Ok(value: T) | Err(message: string)
}
