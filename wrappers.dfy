/** Optional values and error-carrying results, used for the backend's
    missing entries and for the HTTP errors its handlers raise. */
module Wrappers {

  datatype Option<+T> = None | Some(value: T)

  datatype Result<+R, +E> = Success(value: R) | Failure(error: E)
}
