/** Optional values and results with an error, used wherever the Python code
    returns None, a sentinel string, or raises. */
module Wrappers {

  datatype Option<+T> = None | Some(value: T)

  datatype Result<+T, +E> = Ok(value: T) | Err(error: E)
}
