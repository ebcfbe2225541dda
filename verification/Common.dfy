/** Values that may be missing, and operations that may fail. */
module Common {
  datatype Option<+T> = None | Some(value: T)
  datatype Result<+T, +E> = Ok(value: T) | Err(error: E)
}
