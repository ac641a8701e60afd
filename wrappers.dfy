/** Optional values and results, used for absent request fields, a null
    `lastClicked`, and the outcome of saving a record. */
module Wrappers {

  datatype Option<+T> = None | Some(value: T)

  datatype Result<+R, +E> = Ok(value: R) | Err(error: E)
}
