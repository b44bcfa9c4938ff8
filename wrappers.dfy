/** Option and Result, the two failure shapes the updater uses. */
module Wrappers {

  datatype Option<+T> = None | Some(value: T)

  /** A fallible outcome whose error is the descriptive text surfaced to the caller. */
  datatype Result<+T> = Ok(value: T) | Err(error: string)
}
