/** Option and Result values shared by the analyzer's modules. */
module Results {

  /** A value that may be absent; `None` stands for Python's `None`. */
  datatype Option<+T> = None | Some(value: T)

  /** The outcome of an operation that the analyzer may abort with an exception. */
  datatype Result<+R, +E> = Success(value: R) | Failure(error: E)
}
