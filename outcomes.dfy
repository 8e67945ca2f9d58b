/** The optional values and the success-or-error results used across the locator model. */
module Outcomes {

  /** A value that may be absent (`None` in the source). */
  datatype Option<T> = None | Some(value: T)

  /** A computation that either yields a value or stops with an error. */
  datatype Result<T, E> = Ok(value: T) | Err(error: E)
}
