/** The option and result types shared by the model. */
module Wrappers {

  /** Python's `None` versus a value. */
  datatype Option<+T> = None | Some(value: T)

  /** A value, or the message of the exception the source raises instead. */
  datatype Result<+T> = Ok(value: T) | Err(error: string)
}
