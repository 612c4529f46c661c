/** The C type unsigned char. */
module Bytes {
  type Byte = x: int | 0 <= x < 256
}
