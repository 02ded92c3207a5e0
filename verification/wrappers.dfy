/** The Option and Result types shared by the parsers of the monitor. */
module Wrappers {

  datatype Option<+T> = None | Some(value: T)

  /** Either a value or the error that the source would raise instead. */
  datatype Result<+T, +E> = Ok(value: T) | Err(error: E)
}
