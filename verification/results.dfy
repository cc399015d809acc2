/** Optional values and value-or-error results, the shapes Python's `None`
    and raised exceptions take in this model. */
module Results {

  datatype Option<+T> = None | Some(value: T)

  /** Either a value or the error an operation raised. */
  datatype Result<+T, +E> = Ok(value: T) | Err(error: E)
}
