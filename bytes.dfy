/** Octets, as `atob` returns them (one character per byte) and UTF-8 uses them. */
module Bytes {
  type Byte = b: int | 0 <= b < 0x100
}
