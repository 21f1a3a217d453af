/**
 * Optional values and results. Every failure in the modelled system is a
 * human-readable string, so `Result` carries a `string` error.
 */
module Wrappers {

  datatype Option<+T> = None | Some(value: T)

  datatype Result<+T> = Ok(value: T) | Err(error: string)
}
