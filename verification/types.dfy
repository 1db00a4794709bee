/** Small failure-carrying datatypes shared by the other modules. */
module Types {

  /** A value that may be absent: Python's `None` versus an object. */
  datatype Option<+T> = None | Some(value: T)

  /** The outcome of an operation that raises an exception on bad input. */
  datatype Result<+T, +E> = Ok(value: T) | Err(error: E)
}
