/**
 * The chunk reader: checks the PNG signature, then splits the rest of the
 * file into length / type / data / CRC records (RFC 2083 sections 3.1 and
 * 3.2), marking each record's CRC as valid or not instead of failing.
 */
module Chunks {
  import opened Bytes
  import opened Wrappers
  import Crc

  /**
   * The CRC-32 routine the reader calls (zlib.crc32 in the analyser). It is a
   * parameter, so every fact below holds whatever that routine computes;
   * Crc.Crc32 is the standard CRC-32 that zlib.crc32 computes; nothing here
   * proves the two equal.
   */
  type Checksum = seq<Byte> -> nat

  /** The eight bytes every PNG file starts with (RFC 2083 section 3.1). */
  const Signature: seq<Byte> := [0x89, 0x50, 0x4E, 0x47, 0x0D, 0x0A, 0x1A, 0x0A]

  const IHDR: seq<Byte> := [0x49, 0x48, 0x44, 0x52]
  const IDAT: seq<Byte> := [0x49, 0x44, 0x41, 0x54]
  const IEND: seq<Byte> := [0x49, 0x45, 0x4E, 0x44]

  /** One record as the reader reports it; crcValid is computed, not stored. */
  datatype Chunk = Chunk(kind: seq<Byte>, length: nat, data: seq<Byte>, crc: nat, crcValid: bool)

  /** The record the reader builds from the fields it has read. */
  function MakeChunk(crc32: Checksum, kind: seq<Byte>, length: nat, data: seq<Byte>, crc: nat): Chunk
  {
    Chunk(kind, length, data, crc, crc == crc32(kind + data) % TWO_32)
  }

  /**
   * A record built from the fields read: crcValid holds only for a stored CRC
   * below 2^32 (the masked checksum never exceeds it), and fields of the right
   * sizes give a well-formed record.
   */
  lemma MakeChunkWellFormed(crc32: Checksum, kind: seq<Byte>, length: nat, data: seq<Byte>, crc: nat)
    ensures var c := MakeChunk(crc32, kind, length, data, crc);
      c.kind == kind && c.length == length && c.data == data && c.crc == crc &&
      (c.crcValid ==> c.crc < TWO_32) &&
      (|kind| == 4 && length == |data| && length < TWO_32 && crc < TWO_32 ==> WellFormed(crc32, c))
  {
  }

  /** Prefixes the chunks already gathered to the outcome of reading the rest. */
  function Prepend(gathered: seq<Chunk>, rest: Option<seq<Chunk>>): Option<seq<Chunk>>
  {
    match rest
    case None => None
    case Some(cs) => Some(gathered + cs)
  }

  lemma PrependStep(gathered: seq<Chunk>, c: Chunk, rest: Option<seq<Chunk>>)
    ensures Prepend(gathered, Prepend([c], rest)) == Prepend(gathered + [c], rest)
  {
    if rest.Some? {
      assert gathered + ([c] + rest.value) == (gathered + [c]) + rest.value;
    }
  }

  /**
   * Reading chunks from the bytes left after the cursor: Some(chunks) when
   * the reader stops at IEND or at a short length or type field, None when a
   * payload or CRC is cut short (unpacking the CRC raises, and the handler
   * turns the whole read into None).
   */
  function ChunksOf(crc32: Checksum, rest: seq<Byte>): Option<seq<Chunk>>
    decreases |rest|
  {
    if |rest| < 8 then Some([])
    else
      var length := BE32(rest[..4]);
      if |rest| < 12 + length then None
      else
        var c := MakeChunk(crc32, rest[4..8], length, rest[8..8 + length], BE32(rest[8 + length..12 + length]));
        if c.kind == IEND then Some([c]) else Prepend([c], ChunksOf(crc32, rest[12 + length..]))
  }

  /**
   * The reader returns no records exactly when fewer than 8 bytes remain, and
   * every record it returns takes at least its 12 bytes of length, type and CRC.
   */
  lemma {:induction false} ChunksOfCount(crc32: Checksum, rest: seq<Byte>)
    ensures var r := ChunksOf(crc32, rest);
      ((r.Some? && r.value == []) <==> |rest| < 8) &&
      (r.Some? ==> 12 * |r.value| <= |rest|)
    decreases |rest|
  {
    if |rest| >= 8 {
      var length := BE32(rest[..4]);
      if |rest| >= 12 + length {
        ChunksOfCount(crc32, rest[12 + length..]);
      }
    }
  }

  /** The whole reader: None for a bad signature, otherwise the records after it. */
  function ParseChunks(crc32: Checksum, file: seq<Byte>): (r: Option<seq<Chunk>>)
    ensures r.Some? ==> |file| >= 8 && file[..8] == Signature
  {
    if |file| < 8 || file[..8] != Signature then None else ChunksOf(crc32, file[8..])
  }

  /**
   * The reader loop: a cursor over the file, a list of chunks that grows by
   * one per record, and the three ways out of the loop.
   */
  method ReadChunks(crc32: Checksum, file: seq<Byte>) returns (r: Option<seq<Chunk>>)
    ensures r == ParseChunks(crc32, file)
  {
    var signature := Take(file, 0, 8);
    if signature != Signature {
      return None;
    }
    var chunks: seq<Chunk> := [];
    var pos := 8;
    assert Prepend(chunks, ChunksOf(crc32, file[pos..])) == ChunksOf(crc32, file[pos..]) by {
      if ChunksOf(crc32, file[pos..]).Some? { assert [] + ChunksOf(crc32, file[pos..]).value == ChunksOf(crc32, file[pos..]).value; }
    }
    while true
      invariant 8 <= pos <= |file|
      invariant ParseChunks(crc32, file) == Prepend(chunks, ChunksOf(crc32, file[pos..]))
      decreases |file| - pos
    {
      ghost var rest := file[pos..];
      var lengthData := Take(file, pos, 4);
      if |lengthData| < 4 {
        assert ChunksOf(crc32, rest) == Some([]);
        assert chunks + [] == chunks;
        break;
      }
      assert lengthData == rest[..4];
      pos := pos + 4;
      var length := BE32(lengthData);
      var chunkType := Take(file, pos, 4);
      if |chunkType| < 4 {
        assert ChunksOf(crc32, rest) == Some([]);
        assert chunks + [] == chunks;
        break;
      }
      assert chunkType == rest[4..8];
      pos := pos + 4;
      var chunkData := Take(file, pos, length);
      pos := pos + |chunkData|;
      var crc := Take(file, pos, 4);
      if |crc| < 4 {
        // struct.unpack raises on a short CRC; the handler returns None
        assert |rest| < 12 + length;
        assert ChunksOf(crc32, rest) == None;
        return None;
      }
      assert chunkData == rest[8..8 + length];
      assert crc == rest[8 + length..12 + length];
      pos := pos + 4;
      var crcValue := BE32(crc);
      var expectedCrc := crc32(chunkType + chunkData) % TWO_32;
      var c := Chunk(chunkType, length, chunkData, crcValue, crcValue == expectedCrc);
      assert file[pos..] == rest[12 + length..];
      assert ChunksOf(crc32, rest) == if chunkType == IEND then Some([c]) else Prepend([c], ChunksOf(crc32, file[pos..]));
      PrependStep(chunks, c, ChunksOf(crc32, file[pos..]));
      chunks := chunks + [c];
      if chunkType == IEND {
        break;
      }
    }
    return Some(chunks);
  }

  /** The reader as the analyser runs it, with the CRC-32 of RFC 2083 section 3.4. */
  method ReadPngChunks(file: seq<Byte>) returns (r: Option<seq<Chunk>>)
    ensures r == ParseChunks(Crc.Crc32, file)
  {
    r := ReadChunks(Crc.Crc32, file);
  }

  /**
   * What a record looks like once the reader has produced it: a four-byte
   * type, a length that is the size of its data and fits 32 bits, a 32-bit
   * CRC, and crcValid telling whether that CRC is the CRC-32 of type and data.
   */
  predicate WellFormed(crc32: Checksum, c: Chunk)
  {
    Encodable(c) && c.crcValid == (c.crc == crc32(c.kind + c.data) % TWO_32)
  }

  /** A four-byte type, data of the stated length, and 32-bit length and CRC fields. */
  predicate Encodable(c: Chunk)
  {
    |c.kind| == 4 && c.length == |c.data| && c.length < TWO_32 && c.crc < TWO_32
  }

  predicate AllWellFormed(crc32: Checksum, cs: seq<Chunk>)
  {
    forall i :: 0 <= i < |cs| ==> WellFormed(crc32, cs[i])
  }

  /** No record before the last one is an IEND. */
  predicate IendOnlyLast(cs: seq<Chunk>)
  {
    forall i :: 0 <= i < |cs| - 1 ==> cs[i].kind != IEND
  }

  predicate EndsWithIend(cs: seq<Chunk>)
  {
    |cs| > 0 && cs[|cs| - 1].kind == IEND
  }

  /** The bytes of one record in the file: length, type, data, CRC. */
  function EncodeChunk(c: Chunk): (s: seq<Byte>)
    requires Encodable(c)
    ensures |s| == 12 + c.length
  {
    ToBE32(c.length) + c.kind + c.data + ToBE32(c.crc)
  }

  /** The bytes of consecutive records, in order. */
  function EncodeChunks(cs: seq<Chunk>): seq<Byte>
    requires forall i :: 0 <= i < |cs| ==> Encodable(cs[i])
  {
    if cs == [] then [] else EncodeChunk(cs[0]) + EncodeChunks(cs[1..])
  }

  /** Where the fields of an encoded record sit in the bytes it starts. */
  lemma RecordFields(crc32: Checksum, c: Chunk, more: seq<Byte>, rest: seq<Byte>)
    requires WellFormed(crc32, c) && rest == EncodeChunk(c) + more
    ensures |rest| >= 12 + c.length
    ensures BE32(rest[..4]) == c.length
    ensures rest[4..8] == c.kind
    ensures rest[8..8 + c.length] == c.data
    ensures BE32(rest[8 + c.length..12 + c.length]) == c.crc
    ensures rest[12 + c.length..] == more
  {
    assert rest[..4] == ToBE32(c.length);
    BE32OfToBE32(c.length);
    assert rest[8 + c.length..12 + c.length] == ToBE32(c.crc);
    BE32OfToBE32(c.crc);
  }

  /** One reader step over a record whose fields are known. */
  lemma RecordStep(crc32: Checksum, rest: seq<Byte>, c: Chunk)
    requires WellFormed(crc32, c) && |rest| >= 12 + c.length
    requires BE32(rest[..4]) == c.length
    requires rest[4..8] == c.kind
    requires rest[8..8 + c.length] == c.data
    requires BE32(rest[8 + c.length..12 + c.length]) == c.crc
    ensures ChunksOf(crc32, rest) ==
            if c.kind == IEND then Some([c]) else Prepend([c], ChunksOf(crc32, rest[12 + c.length..]))
  {
  }

  /** One reader step over the first record of an encoded run. */
  lemma EncodedStep(crc32: Checksum, cs: seq<Chunk>, tail: seq<Byte>)
    requires AllWellFormed(crc32, cs) && |cs| > 0
    ensures ChunksOf(crc32, EncodeChunks(cs) + tail) ==
            if cs[0].kind == IEND then Some([cs[0]])
            else Prepend([cs[0]], ChunksOf(crc32, EncodeChunks(cs[1..]) + tail))
  {
    var c := cs[0];
    var more := EncodeChunks(cs[1..]) + tail;
    var rest := EncodeChunks(cs) + tail;
    assert rest == EncodeChunk(c) + more;
    RecordFields(crc32, c, more, rest);
    RecordStep(crc32, rest, c);
  }

  /**
   * Reading back an encoded run of records: every record comes back in file
   * order with its CRC marked, whatever the CRCs are, and the reader stops at
   * IEND (ignoring what follows) or at a tail too short for a length and a type.
   */
  lemma {:induction false} ChunksOfEncoded(crc32: Checksum, cs: seq<Chunk>, tail: seq<Byte>)
    requires AllWellFormed(crc32, cs) && IendOnlyLast(cs)
    requires !EndsWithIend(cs) ==> |tail| < 8
    ensures ChunksOf(crc32, EncodeChunks(cs) + tail) == Some(cs)
    decreases cs
  {
    if cs == [] {
      assert EncodeChunks(cs) + tail == tail;
    } else if cs[0].kind != IEND {
      assert AllWellFormed(crc32, cs[1..]) && IendOnlyLast(cs[1..]);
      assert EndsWithIend(cs[1..]) == EndsWithIend(cs);
      ChunksOfEncoded(crc32, cs[1..], tail);
      EncodedCons(crc32, cs, tail);
    } else {
      EncodedStep(crc32, cs, tail);
      assert |cs| == 1;
      assert cs == [cs[0]];
    }
  }

  /** A record that is not IEND, followed by records that read back, reads back. */
  lemma EncodedCons(crc32: Checksum, cs: seq<Chunk>, tail: seq<Byte>)
    requires AllWellFormed(crc32, cs) && |cs| > 0 && cs[0].kind != IEND
    requires ChunksOf(crc32, EncodeChunks(cs[1..]) + tail) == Some(cs[1..])
    ensures ChunksOf(crc32, EncodeChunks(cs) + tail) == Some(cs)
  {
    EncodedStep(crc32, cs, tail);
    assert [cs[0]] + cs[1..] == cs;
  }

  /** A well-formed file round-trips through the reader. */
  lemma ParseEncoded(crc32: Checksum, cs: seq<Chunk>, tail: seq<Byte>)
    requires AllWellFormed(crc32, cs) && IendOnlyLast(cs)
    requires !EndsWithIend(cs) ==> |tail| < 8
    ensures ParseChunks(crc32, Signature + EncodeChunks(cs) + tail) == Some(cs)
  {
    var rest := EncodeChunks(cs) + tail;
    ChunksOfEncoded(crc32, cs, tail);
    var file := Signature + rest;
    assert Signature + EncodeChunks(cs) + tail == file;
    assert file[..8] == Signature && file[8..] == rest;
  }

  /**
   * When no IEND has been met and the next record's payload or CRC runs past
   * the end of the file, the whole read fails, discarding earlier records.
   */
  lemma {:induction false} ChunksOfTruncated(crc32: Checksum, cs: seq<Chunk>, tail: seq<Byte>)
    requires AllWellFormed(crc32, cs)
    requires forall i :: 0 <= i < |cs| ==> cs[i].kind != IEND
    requires 8 <= |tail| < 12 + BE32(tail[..4])
    ensures ChunksOf(crc32, EncodeChunks(cs) + tail) == None
    decreases cs
  {
    if cs == [] {
      assert EncodeChunks(cs) + tail == tail;
    } else {
      EncodedStep(crc32, cs, tail);
      assert AllWellFormed(crc32, cs[1..]);
      ChunksOfTruncated(crc32, cs[1..], tail);
    }
  }

  /**
   * Everything the reader returns is the input laid out record by record:
   * each record is well formed (length = big-endian u32 of its field, data of
   * that length, crcValid exactly when the CRC matches), they follow one
   * another in file order, only the last may be IEND, and a run that does not
   * end at IEND stopped because fewer than eight bytes were left.
   */
  lemma {:induction false} ChunksOfLayout(crc32: Checksum, rest: seq<Byte>)
    requires ChunksOf(crc32, rest).Some?
    ensures var cs := ChunksOf(crc32, rest).value;
      AllWellFormed(crc32, cs) && IendOnlyLast(cs) &&
      |EncodeChunks(cs)| <= |rest| && rest[..|EncodeChunks(cs)|] == EncodeChunks(cs) &&
      (!EndsWithIend(cs) ==> |rest| - |EncodeChunks(cs)| < 8)
    decreases |rest|
  {
    var cs := ChunksOf(crc32, rest).value;
    if |rest| >= 8 {
      var c := FirstRecord(crc32, rest);
      var n := 12 + c.length;
      if c.kind == IEND {
        assert cs == [c];
        assert EncodeChunks(cs) == EncodeChunk(c);
      } else {
        var next := rest[n..];
        ChunksOfLayout(crc32, next);
        var tailChunks := ChunksOf(crc32, next).value;
        assert cs == [c] + tailChunks;
        assert cs[1..] == tailChunks;
        var e := EncodeChunks(tailChunks);
        assert EncodeChunks(cs) == EncodeChunk(c) + e;
        assert rest[..n + |e|] == rest[..n] + next[..|e|];
      }
    }
  }

  /** The record at the head of input the reader accepts, and its bytes. */
  lemma FirstRecord(crc32: Checksum, rest: seq<Byte>) returns (c: Chunk)
    requires |rest| >= 8 && ChunksOf(crc32, rest).Some?
    ensures WellFormed(crc32, c) && 12 + c.length <= |rest|
    ensures EncodeChunk(c) == rest[..12 + c.length]
    ensures ChunksOf(crc32, rest) ==
            if c.kind == IEND then Some([c]) else Prepend([c], ChunksOf(crc32, rest[12 + c.length..]))
  {
    var length := BE32(rest[..4]);
    c := MakeChunk(crc32, rest[4..8], length, rest[8..8 + length], BE32(rest[8 + length..12 + length]));
    ToBE32OfBE32(rest[..4]);
    ToBE32OfBE32(rest[8 + length..12 + length]);
    assert ToBE32(c.length) == rest[..4];
    assert ToBE32(c.crc) == rest[8 + length..12 + length];
    assert EncodeChunk(c) == rest[..4] + rest[4..8] + rest[8..8 + length] + rest[8 + length..12 + length];
    assert rest[..4] + rest[4..8] == rest[..8];
    assert rest[..8] + rest[8..8 + length] == rest[..8 + length];
    assert rest[..8 + length] + rest[8 + length..12 + length] == rest[..12 + length];
  }

  /** The layout facts for a whole file: the signature, then the records. */
  lemma ParseLayout(crc32: Checksum, file: seq<Byte>)
    requires ParseChunks(crc32, file).Some?
    ensures var cs := ParseChunks(crc32, file).value;
      AllWellFormed(crc32, cs) && IendOnlyLast(cs) &&
      file[..8] == Signature &&
      8 + |EncodeChunks(cs)| <= |file| &&
      file[8..8 + |EncodeChunks(cs)|] == EncodeChunks(cs) &&
      (!EndsWithIend(cs) ==> |file| - 8 - |EncodeChunks(cs)| < 8)
  {
    ChunksOfLayout(crc32, file[8..]);
  }

  /**
   * The first chunk of the given type, as the driver picks the header chunk;
   * later chunks of that type are ignored.
   */
  function FirstOfKind(chunks: seq<Chunk>, kind: seq<Byte>): (r: Option<Chunk>)
    ensures r.None? <==> forall i :: 0 <= i < |chunks| ==> chunks[i].kind != kind
    ensures r.Some? ==> exists i :: 0 <= i < |chunks| && chunks[i] == r.value && r.value.kind == kind &&
                                    forall j :: 0 <= j < i ==> chunks[j].kind != kind
  {
    if chunks == [] then None
    else if chunks[0].kind == kind then Some(chunks[0])
    else
      var r := FirstOfKind(chunks[1..], kind);
      assert forall i :: 1 <= i < |chunks| ==> chunks[i] == chunks[1..][i - 1];
      r
  }
}
