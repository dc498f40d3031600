/** Failure-compatible wrappers used across the model. */
module Optional {

  /** A value that may be absent: a null `shared_ptr` in the source. */
  datatype Option<+T> = None | Some(value: T)

  /** The outcome of an operation that may raise an exception in the source. */
  datatype Result<+R, +E> = Success(value: R) | Failure(error: E)
}
