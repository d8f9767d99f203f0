/** Small sum types shared by every module of the model. */
module Common {

  /** A value that may be absent: JavaScript's `null` / `undefined`. */
  datatype Option<+T> = None | Some(value: T)

  /** The outcome of a partial operation such as `JSON.parse`. */
  datatype Result<+T, +E> = Ok(value: T) | Err(error: E)
}
