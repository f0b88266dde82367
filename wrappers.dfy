/** Optional values and results, shared by every module of the model. */
module Optional {

  /** An optional value: `None` stands for PHP's NULL return or JavaScript's `null`/`undefined`. */
  datatype Option<+T> = None | Some(value: T)

  /** A computation that either succeeds with a value or fails with an error. */
  datatype Result<+T, +E> = Ok(value: T) | Err(error: E)
}
