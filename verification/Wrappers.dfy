/** Results that may be absent or an error, for the source's exceptions. */
module Wrappers {
  datatype Option<+T> = None | Some(value: T)

  datatype Result<+T> = Ok(value: T) | Error
}
