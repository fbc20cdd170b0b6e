/** Octets, the unit of every buffer, file and socket modelled in this project. */
module Bytes {
  type Byte = x: int | 0 <= x < 256
}
