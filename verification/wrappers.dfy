/** The optional value and the success-or-error result the models return
    where the codec returns a flag or raises an error. */
module Wrappers {
  datatype Option<T> = None | Some(value: T)

  datatype Result<T> = Ok(value: T) | Error(msg: string)
}
