/** Optional values and results with an error, as used by the import
    pipeline and the roster. */
module Wrappers {

  datatype Option<+T> = None | Some(value: T)

  datatype Result<+T, +E> = Success(value: T) | Failure(error: E)
}
