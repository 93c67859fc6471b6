/** Optional values and results with an error, used where the source returns
    `undefined`, `NaN` or an `{ error: ... }` object instead of a value. */
module Wrappers {

  datatype Option<+T> = None | Some(value: T)

  datatype Result<+R, +E> = Success(value: R) | Failure(error: E)
}
