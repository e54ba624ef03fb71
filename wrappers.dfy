/** Option and Result types, and the Python exceptions the modelled code can raise. */
module Wrappers {

  datatype Option<+T> = None | Some(value: T)

  /** The exceptions raised on the modelled paths. */
  datatype Error =
    | OverflowError  // date or datetime arithmetic left the range of years 1..9999
    | ValueError     // an unknown time-unit name

  datatype Result<+T> = Ok(value: T) | Err(error: Error)
}
