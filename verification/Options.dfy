/** Optional values (a null pointer, or the value pointed to), and results (a value, or an error). */
module Options {
  datatype Option<+T> = None | Some(value: T)

  datatype Result<+T, +E> = Ok(value: T) | Err(error: E)
}
