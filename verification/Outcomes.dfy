/** The two result shapes shared by every component of the model. */
module Outcomes {

  /** A nullable column or an optional argument. */
  datatype Option<+T> = None | Some(value: T)

  /** The value a call returns, or the error it raises. */
  datatype Result<+T, +E> = Ok(value: T) | Err(error: E)
}
