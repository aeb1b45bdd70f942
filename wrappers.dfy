/** Optional values and call outcomes shared by the store, the sync engine and the server. */
module Wrappers {

  datatype Option<+T> = None | Some(value: T)

  /** The outcome of a call that either completes or throws. */
  datatype Result<+T, +E> = Ok(value: T) | Err(error: E)

  /** The outcome of a call that returns nothing of interest. */
  datatype Outcome<+E> = Pass | Fail(error: E)
}
