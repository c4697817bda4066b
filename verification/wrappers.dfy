/** Optional values and results that carry an error message instead of raising. */
module Wrappers {

  /** Python's `None`-or-value and JavaScript's `null`-or-value. */
  datatype Option<+T> = None | Some(value: T)

  /** The outcome of a step that may raise: `Err` carries the exception's message. */
  datatype Result<+T> = Ok(value: T) | Err(message: string)
}
