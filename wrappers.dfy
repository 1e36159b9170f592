/** Optional values and results with an error, used for lookups that may miss
    and for operations of the service that throw. */
module Wrappers {

  datatype Option<+T> = None | Some(value: T)

  datatype Result<+R, +E> = Success(value: R) | Failure(error: E)
}
