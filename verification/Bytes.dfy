/** Bytes, as the serial link and the output encoder see them. */
module Bytes {
  newtype byte = x: int | 0 <= x < 256
}
