/** Optional values and results with an error, used wherever the Java code
    returns `null`/`Optional.empty()` or throws. */
module Wrappers {

  datatype Option<+T> = None | Some(value: T)

  datatype Result<+T, +E> = Ok(value: T) | Err(error: E)
}
