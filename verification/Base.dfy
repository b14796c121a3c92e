/** Shared wrappers: the source's `Option` and `Result`. */
module Base {
  datatype Option<+T> = None | Some(value: T)

  datatype Result<+T, +E> = Ok(value: T) | Err(error: E)

  newtype Byte = x: int | 0 <= x < 256
}
