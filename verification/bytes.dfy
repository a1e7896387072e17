/** Octets, as Python's `bytes` hold them. */
module Bytes {
  type byte = b: int | 0 <= b < 0x100
}
