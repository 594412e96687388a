/** Optional values (C#'s nullable types) and success-or-error outcomes (C#'s exceptions). */
module Wrappers {

  datatype Option<+T> = None | Some(value: T)

  datatype Result<+T, +E> = Success(value: T) | Failure(error: E)
}
