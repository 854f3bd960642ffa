/** Shared vocabulary: the source's nullable pointers and error returns. */
module Common {

  /** A nullable reference: `None` plays the part of NULL. */
  datatype Option<T> = None | Some(value: T)

  /** An operation that either yields a value or reports an error. */
  datatype Result<T, E> = Ok(value: T) | Err(error: E)
}
