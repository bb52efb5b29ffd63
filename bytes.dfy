/** Go's `byte`: an 8-bit unsigned value. */
module Bytes {

  type byte = b: int | 0 <= b < 256
}
