/** A value that may be missing, and a value or the reason why there is none. */
module Options {

  datatype Option<T> = None | Some(value: T)

  datatype Result<T> = Ok(value: T) | Error(message: string)
}
