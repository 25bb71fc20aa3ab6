/** Optional values and error-or-value results, for the places where the
    program answers `None` or raises. */
module Outcomes {

  datatype Option<T> = None | Some(value: T)

  datatype Result<T, E> = Ok(value: T) | Err(error: E)
}
