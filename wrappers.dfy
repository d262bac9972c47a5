/** Option and Result, the two failure-carrying shapes the Rust code returns. */
module Wrappers {

  /** `core::option::Option`: an iterator step either yields an item or reports exhaustion. */
  datatype Option<+T> = None | Some(value: T)

  /** `core::result::Result`: a recoverable failure hands a value back to the caller. */
  datatype Result<+R, +E> = Ok(value: R) | Err(error: E)
}
