/** Optional values and the success-or-error outcome used by the upload pipeline. */
module Results {

  datatype Option<+T> = None | Some(value: T)

  /** An operation either yields a value or fails with a human-readable message. */
  datatype Result<+T> = Ok(value: T) | Err(message: string)
}
