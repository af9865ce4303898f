/** Results of operations that the program ends with an exception or an error response. */
module Wrappers {
  datatype Option<+T> = None | Some(value: T)
  datatype Result<+T> = Ok(value: T) | Err(reason: string)
}
