/** Optional values and results with an error message, shared by the other modules. */
module Wrappers {

  /** A value that may be absent (Python's `None`, a query that matched no row). */
  datatype Option<+T> = None | Some(value: T)

  /** The outcome of an operation that may raise instead of returning a value. */
  datatype Result<+T> = Success(value: T) | Failure(error: string)
}
