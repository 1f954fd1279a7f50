/** Octets, as handled by the Base64 and UTF-8 codecs of the Basic scheme. */
module Bytes {

  /** One octet, 0 to 255. */
  type byte = x: int | 0 <= x < 256
}
