/** Optional values and fallible results, used for JavaScript's `undefined`
    and for the form's validation outcome. */
module Wrappers {

  datatype Option<+T> = None | Some(value: T)

  datatype Result<+R, +E> = Success(value: R) | Failure(error: E)
}
