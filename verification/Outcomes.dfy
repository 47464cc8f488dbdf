/** Results of operations that can fail. */
module Outcomes {
  /** None stands for a Python None, or for an exception the caller does not tell apart. */
  datatype Option<+T> = None | Some(value: T)

  /** Err carries which exception the source raises. */
  datatype Result<+T, +E> = Ok(value: T) | Err(error: E)
}
