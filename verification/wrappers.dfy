/** Failure-carrying result types shared by the storage, ingestion and server models. */
module Wrappers {

  /** A value that may be absent: a decoder or parser that failed yields None. */
  datatype Option<+T> = None | Some(value: T)

  /** Either a value or the error a Go function would return beside it. */
  datatype Result<+T, +E> = Success(value: T) | Failure(error: E)
}
