/** Optional values, for Python parameters that default to None, and results that may be an error. */
module Wrappers {

  datatype Option<+T> = None | Some(value: T)

  /** A returned value, or the message of a raised ValueError. */
  datatype Result<+T> = Success(value: T) | Failure(error: string)
}
