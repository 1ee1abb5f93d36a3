/** Optional values and error-or-value results, standing in for Go's nil
    pointers and its `(value, error)` return pairs. */
module Outcomes {

  datatype Option<+T> = None | Some(value: T)

  datatype Result<+R, +E> = Success(value: R) | Failure(error: E)
}
