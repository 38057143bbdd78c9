/** Option and Result: the model's stand-ins for `undefined` returns and thrown errors. */
module Wrappers {

  /** `None` plays the part of JavaScript's `undefined`. */
  datatype Option<+T> = None | Some(value: T)

  /** `Err` carries the message of an `Error` the source would throw. */
  datatype Result<+T> = Ok(value: T) | Err(error: string)
}
