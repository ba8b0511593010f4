/** Bytes and C strings. A C string is a sequence of non-zero bytes; its terminator is implicit. */
module Bytes {
  type byte = x: int | 0 <= x < 256

  type cbyte = x: int | 0 < x < 256 witness 1

  /** A C string read through a pointer: the terminating NUL follows the last byte. */
  function At(s: seq<byte>, i: nat): byte {
    if i < |s| then s[i] else 0
  }
}
