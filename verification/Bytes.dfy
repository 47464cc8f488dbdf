/** Bytes as the Python and C++ sources use them: sequences of values in [0, 256). */
module Bytes {
  newtype byte = x: int | 0 <= x < 256

  type Bytes = seq<byte>
}
