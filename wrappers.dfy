/** Failure-carrying results, standing in for Rust's `anyhow::Result` and Python exceptions. */
module Wrappers {

  datatype Option<+T> = None | Some(value: T)

  /** `Err` carries the message an `anyhow!` error (or a raised exception) would display. */
  datatype Result<+T> = Ok(value: T) | Err(msg: string)

  /** Outcome of a store operation that returns `Result<()>`. */
  datatype Outcome = Pass | Fail(msg: string)
}
