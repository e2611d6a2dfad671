/** Optional values and error-carrying results, used wherever the Python code
    returns nothing or raises an exception. */
module Wrappers {
  datatype Option<+T> = None | Some(value: T)

  datatype Result<+T, +E> = Ok(value: T) | Err(error: E)
}
