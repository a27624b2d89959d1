/** Values that may be missing, and results that may be errors. */
module Wrappers {

  datatype Option<T> = None | Some(value: T)

  /** What a Lua call returns: its value, or an error raised with a message. */
  datatype Result<T> = Ok(value: T) | Error(msg: string)
}
