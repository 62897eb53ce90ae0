/** Failure-carrying values used throughout the model. A Python exception is
    modelled by its message string, which is all that callers of the modelled
    functions ever see of it (they format it with `str(e)`). */
module Wrappers {

  datatype Option<+T> = None | Some(value: T)

  /** Either a value, or the message of the exception that was raised. */
  datatype Result<+T> = Ok(value: T) | Err(message: string)
}
