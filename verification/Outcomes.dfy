/** Results of operations that the modelled tools may refuse. */
module Outcomes {

  datatype Option<+T> = None | Some(value: T)

  /** A value, or the error the operation reports. */
  datatype Result<+T, +E> = Ok(value: T) | Err(error: E)
}
