/** Option and Result values used for the source's missing keys and exceptions. */
module Wrappers {

  datatype Option<+T> = None | Some(value: T)

  /** Ok carries a computed value; Err carries the text an exception would carry. */
  datatype Result<+T> = Ok(value: T) | Err(error: string)
}
