/** Optional values and results with an error, for the places where the
    grouping script reads a missing cell or raises an exception. */
module Wrappers {

  datatype Option<+T> = None | Some(value: T)

  datatype Result<+T, +E> = Ok(value: T) | Err(error: E)
}
