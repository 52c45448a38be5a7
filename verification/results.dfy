/** Optional values and success-or-error results used across the model. */
module Results {

  /** A value that may be absent: `null` or `undefined` in script.js. */
  datatype Option<+T> = None | Some(value: T)

  /** The outcome of an operation that either produces a value or refuses with an error. */
  datatype Result<+T, +E> = Ok(value: T) | Err(error: E)
}
