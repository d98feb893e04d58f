/** Failure-carrying values: a JavaScript `null` result and a thrown exception become data. */
module Wrappers {

  /** `T | null` in the source. */
  datatype Option<+T> = None | Some(value: T)

  /** A value, or the error the source would throw. */
  datatype Result<+T, +E> = Ok(value: T) | Err(error: E)
}
