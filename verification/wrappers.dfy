/** Optional values and success-or-error results shared by the rest of the model. */
module Wrappers {

  /** A value that may be absent; stands for a Java reference that may be `null`. */
  datatype Option<+T> = None | Some(value: T)

  /** Either a value or the checked exception an operation threw. */
  datatype Result<+T, +E> = Ok(value: T) | Err(error: E)
}
