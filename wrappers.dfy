/** Option and Result, the failure-carrying types the rest of the model returns. */
module Wrappers {

  datatype Option<+T> = None | Some(value: T)

  /** `Err` stands for a Python exception raised by the modelled function. */
  datatype Result<+T, +E> = Ok(value: T) | Err(error: E)
}
