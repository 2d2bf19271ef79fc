/** Failure-compatible wrappers shared by every module of the model. */
module Wrappers {

  /** An optional value: a regex match that may be absent, a decode that may fail. */
  datatype Option<+T> = None | Some(value: T)

  /** A value or an error message, as Python code signals failure by raising. */
  datatype Result<+T> = Ok(value: T) | Err(message: string)
}
