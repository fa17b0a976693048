/** Optional values and success-or-error results, used wherever the source
    returns nothing, raises, or returns a value. */
module Wrappers {

  datatype Option<+T> = None | Some(value: T)

  datatype Result<+T, +E> = Ok(value: T) | Err(error: E)
}
