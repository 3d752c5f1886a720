/** Optional values and results with an error, used wherever the source
    returns `undefined`/`null` or reports a validation failure. */
module Wrappers {

  datatype Option<+T> = None | Some(value: T)

  datatype Result<+T, +E> = Ok(value: T) | Err(error: E)
}
