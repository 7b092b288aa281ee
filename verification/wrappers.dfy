/** Failure-carrying return types shared by the registry modules. */
module Wrappers {

  /** A value that may be absent, as a SQL scalar query that finds no row. */
  datatype Option<+T> = None | Some(value: T)

  /** Either a value or the error the caller is told about. */
  datatype Result<+T, +E> = Success(value: T) | Failure(error: E)
}
