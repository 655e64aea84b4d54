/** A value or the error that the Python code would raise instead. */
module Outcomes {

  datatype Result<+T, +E> = Ok(value: T) | Err(error: E)
}
