// Failure-carrying results shared by the record and routing modules, and the
// byte type of the line protocol.

module Wrappers {

  datatype Option<+T> = None | Some(value: T)

  /** Go's `(value, error)` pair: exactly one of the two is meaningful. */
  datatype Result<+T, +E> = Ok(value: T) | Err(error: E)
}

module Bytes {

  /** A Go `byte`. */
  newtype byte = b: int | 0 <= b < 256

  const SP: byte := 32          // ' '
  const TAB: byte := 9          // '\t'
  const LF: byte := 10          // '\n'
  const DOT: byte := 46         // '.'
  const UNDERSCORE: byte := 95  // '_'
}
