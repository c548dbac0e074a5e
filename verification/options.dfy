/** Failure-compatible wrappers shared by the whole model. */
module Options {

  /** A value that may be absent: a regex that did not match, a file that
      could not be located. */
  datatype Option<+T> = None | Some(value: T)

  /** The outcome of an operation that can fail with an error of type `E`. */
  datatype Result<+T, +E> = Success(value: T) | Failure(error: E)
}
