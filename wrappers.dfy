/** Optional values and success-or-error results, for nullable inputs and thrown exceptions. */
module Wrappers {

  datatype Option<T> = None | Some(value: T)

  datatype Result<T, E> = Success(value: T) | Failure(error: E)
  {
    predicate IsSuccess() { Success? }
  }
}
