/** Option and Result, the two wrappers the rest of the model uses. */
module Wrappers {

  /** A value that may be absent; `None` stands for the C `NULL` bone pointer. */
  datatype Option<+T> = None | Some(value: T)

  /** The outcome of an operation that can fail fatally. */
  datatype Result<+R, +E> = Success(value: R) | Failure(error: E)
}
