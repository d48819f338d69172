/**
 * CRC-32 as RFC 2083 section 3.4 defines it for PNG chunks (the ISO 3309
 * polynomial, bit-reflected, register preset to all ones and complemented at
 * the end). The analyser obtains it from zlib.crc32; the model never relies on
 * its particular values, only on it being a fixed function of the bytes.
 */
module Crc {
  import opened Bytes

  const POLY: bv32 := 0xEDB8_8320

  /** Eight shift-and-divide steps of the register over one byte already folded in. */
  function Shift(c: bv32, k: nat): bv32
    decreases k
  {
    if k == 0 then c
    else Shift(if c & 1 == 1 then POLY ^ (c >> 1) else c >> 1, k - 1)
  }

  /** The register after absorbing every byte of s, starting from c. */
  function Update(c: bv32, s: seq<Byte>): bv32
    decreases |s|
  {
    if s == [] then c else Update(Shift(c ^ (s[0] as bv32), 8), s[1..])
  }

  /** CRC-32 of a byte string, as an unsigned 32-bit value. */
  function Crc32(s: seq<Byte>): (n: nat)
    ensures n < TWO_32
  {
    (Update(0xFFFF_FFFF, s) ^ 0xFFFF_FFFF) as nat
  }
}
