/** Bytes, big-endian 32-bit fields and the cursor read of a byte stream. */
module Bytes {
  /** One octet of the input file. */
  type Byte = b: int | 0 <= b < 256

  const TWO_32: int := 0x1_0000_0000

  /** The unsigned value of four bytes read most significant first (struct format '>I'). */
  function BE32(s: seq<Byte>): (n: nat)
    requires |s| == 4
    ensures n < TWO_32
  {
    ((s[0] as int * 256 + s[1]) * 256 + s[2]) * 256 + s[3]
  }

  /** The four bytes, most significant first, that encode n. */
  function ToBE32(n: nat): (s: seq<Byte>)
    requires n < TWO_32
    ensures |s| == 4
  {
    [n / 0x100_0000, (n / 0x1_0000) % 256, (n / 256) % 256, n % 256]
  }

  /** Decoding the encoding of a 32-bit value gives the value back. */
  lemma BE32OfToBE32(n: nat)
    requires n < TWO_32
    ensures BE32(ToBE32(n)) == n
  {
    var s := ToBE32(n);
    assert s[0] as int * 256 + s[1] == n / 0x1_0000;
    assert (s[0] as int * 256 + s[1]) * 256 + s[2] == n / 256;
  }

  /** Encoding the decoding of four bytes gives the bytes back. */
  lemma ToBE32OfBE32(s: seq<Byte>)
    requires |s| == 4
    ensures ToBE32(BE32(s)) == s
  {
    var n := BE32(s);
    assert n / 256 == (s[0] as int * 256 + s[1]) * 256 + s[2];
    assert n / 0x1_0000 == s[0] as int * 256 + s[1];
    assert n / 0x100_0000 == s[0];
  }

  /**
   * What a file read of n bytes at cursor pos yields: n bytes, or fewer when
   * the stream ends first.
   */
  function Take(file: seq<Byte>, pos: nat, n: nat): (r: seq<Byte>)
    requires pos <= |file|
    ensures |r| <= n
    ensures |r| == n <==> pos + n <= |file|
    ensures pos + n <= |file| ==> r == file[pos..pos + n]
    ensures pos + n > |file| ==> r == file[pos..]
  {
    if pos + n <= |file| then file[pos..pos + n] else file[pos..]
  }
}
