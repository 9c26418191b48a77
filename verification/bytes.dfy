/** Bytes, as held by `Uint8Array` and Node's `Buffer`. */
module Bytes {
  newtype uint8 = x: int | 0 <= x < 256
}
