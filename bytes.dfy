/** Python `bytes` elements. */
module Bytes {
  /** An element of a `bytes` object. */
  newtype byte = x: int | 0 <= x < 256
}
