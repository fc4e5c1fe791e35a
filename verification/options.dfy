/** Small failure-carrying datatypes shared by the other modules. */
module Options {

  /** A value that may be absent: the model of a null reference or of a
      search that found nothing. */
  datatype Option<+T> = None | Some(value: T)

  /** The outcome of an operation that either yields a value or reports
      an error in place of throwing an exception. */
  datatype Result<+R, +E> = Success(value: R) | Failure(error: E)
}
