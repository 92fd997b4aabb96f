/** Option and Result: the model's counterparts of Go's nil pointers and `(T, error)` pairs. */
module Wrappers {

  datatype Option<+T> = None | Some(value: T)

  /** The error side carries the text of the Go error (`err.Error()`). */
  datatype Result<+T> = Ok(value: T) | Err(msg: string)
}
