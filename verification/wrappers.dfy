/** Failure-carrying values used where the source raises an exception. */
module Wrappers {

  datatype Option<+T> = None | Some(value: T)

  /** Either a value or the message of the exception that replaced it. */
  datatype Result<+T> = Ok(value: T) | Err(error: string)
}
