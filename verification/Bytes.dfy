// Bytes and the control characters the kernel and its user programs give a meaning to.
module Bytes {
  type byte = b: int | 0 <= b < 256

  const NUL: byte := 0
  const BACKSPACE: byte := 8
  const NEWLINE: byte := 10
  const RETURN: byte := 13
  const SPACE: byte := 32

  datatype Option<+T> = None | Some(value: T)
}
