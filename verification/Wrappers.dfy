/** Outcomes: an optional value, and a value or an error (the source has one error kind here). */
module Wrappers {
  datatype Option<T> = None | Some(value: T)

  datatype Result<T> = Ok(value: T) | Err
}
