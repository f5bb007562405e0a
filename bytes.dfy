/** Octets, as the files and the base 64 decoder hand them over. */
module Bytes {
  type Byte = x: int | 0 <= x < 256
}
