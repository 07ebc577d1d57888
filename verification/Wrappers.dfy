/** Types shared by the other modules. */
module Wrappers {
  datatype Option<+T> = None | Some(value: T)

  datatype Result<+T, +E> = Ok(value: T) | Err(error: E)

  /** Why a stream or a queue was finished: normally, by cancellation, or with an exception. */
  datatype Reason = Exhausted | Cancelled | Raised(error: int)
}
