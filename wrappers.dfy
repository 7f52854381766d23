/** Option and Result, the two failure-carrying types the model needs. */
module Wrappers {

  /** An optional value, as returned by a search that may find nothing. */
  datatype Option<+T> = None | Some(value: T)

  /** A value or an error message, as `Result<T, &'static str>` is used by the source. */
  datatype Result<+T> = Ok(value: T) | Err(error: string)
}
