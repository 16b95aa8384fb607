/** The two ways an operation of the engine can end without a value: a lookup
    that finds nothing (`undefined` or `null` in the source) and an operation
    that throws. */
module Outcomes {

  datatype Option<+T> = None | Some(value: T)

  datatype Result<+T, +E> = Ok(value: T) | Err(error: E)
}
