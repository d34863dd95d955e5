/** The frame element type: the hex parser only ever yields values 0..255. */
module Bytes {

  type byte = x: int | 0 <= x < 256
}
