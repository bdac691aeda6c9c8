/** Optional values and results with an error, used wherever the scripts
    either produce a value or fail (a regex that does not match, an
    exception that ends a run). */
module Wrappers {

  datatype Option<+T> = None | Some(value: T)

  datatype Result<+T, +E> = Ok(value: T) | Err(error: E)
}
