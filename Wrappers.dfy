/** Optional values and results with an error, used for Python's `None`,
    for a missing dictionary key and for an exception a function lets escape. */
module Wrappers {

  datatype Option<+T> = None | Some(value: T)

  datatype Result<+T, +E> = Success(value: T) | Failure(error: E)
}
