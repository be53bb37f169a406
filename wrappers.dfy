/** Optional values and results with an error, the shapes the services return. */
module Wrappers {

  /** A value that may be absent: a nullable reference such as `int?` or `CategoryDto?`. */
  datatype Option<T> = None | Some(value: T)

  /** Either a value or the error the operation raised instead of returning. */
  datatype Result<T, E> = Success(value: T) | Failure(error: E)
}
