/** Optional values and success-or-error results, used for the absent query
    parameters, the parser's rejections and the views' error responses. */
module Wrappers {

  datatype Option<+T> = None | Some(value: T)

  datatype Result<+R, +E> = Success(value: R) | Failure(error: E)
}
