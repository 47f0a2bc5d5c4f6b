/** Option and Result types for absent values and for the exceptions the program throws. */
module Wrappers {

  datatype Option<+T> = None | Some(value: T)

  /** The outcome of a step that may throw: a value, or the exception's message. */
  datatype Result<+T> = Ok(value: T) | Err(message: string)
}
