/** Stock result types, and the width of Go's int64, shared by the other modules. */
module Wrappers {

  datatype Option<+T> = None | Some(value: T)

  /** A Go `(value, error)` pair: exactly one side is meaningful. */
  datatype Result<+T, +E> = Ok(value: T) | Err(error: E)

  /** Go's int64, which clocks and durations are kept in, ends below this. */
  const INT64_LIMIT: int := 0x8000_0000_0000_0000
}
