/** Optional values and results with an error case, used wherever the
    serving code returns an error message or raises instead of a value. */
module Wrappers {

  datatype Option<+T> = None | Some(value: T)

  datatype Result<+T, +E> = Ok(value: T) | Err(error: E)
}
