/** Failure-carrying datatypes shared by the other modules. */
module Results {

  /** An optional value: an index that may not exist, say. */
  datatype Option<+T> = None | Some(value: T)

  /** A computation that either produces a value or raises an error. */
  datatype Result<+T, +E> = Ok(value: T) | Err(error: E)
}
