/** Failure-carrying values shared by every module of the model: the Ruby
    code signals absence with `nil` and failure with exceptions; here both
    are explicit values. */
module Results {

  /** A value that may be absent (Ruby's `nil`). */
  datatype Option<+T> = None | Some(value: T)

  /** The outcome of an operation that either yields a value or raises. */
  datatype Result<+T, +E> = Success(value: T) | Failure(error: E)
}
