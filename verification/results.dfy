/** Small failure-carrying datatypes shared by the maze modules. */
module Results {

  /** A value that may be absent; `None` plays the role of Python's `None`. */
  datatype Option<+T> = None | Some(value: T)

  /** Either a value or an error. */
  datatype Result<+T, +E> = Success(value: T) | Failure(error: E)
}
