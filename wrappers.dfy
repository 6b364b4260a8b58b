/** Optional values and results carrying an error message. */
module Wrappers {

  datatype Option<+T> = None | Some(value: T)

  /** The outcome of an operation that can fail with a message (a raised exception). */
  datatype Result<+T> = Ok(value: T) | Err(message: string)
}
