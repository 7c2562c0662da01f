/** Option and Result, the failure-carrying datatypes the other modules use, and Outcome for panics. */
module Wrappers {

  datatype Option<+T> = None | Some(value: T)

  datatype Result<+T, +E> = Ok(value: T) | Err(error: E)

  /** How a call ends when the code may panic (an out-of-bounds index, an overflow check). */
  datatype Outcome<+T> = Returned(value: T) | Panicked
}
