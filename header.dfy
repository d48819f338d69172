/**
 * The header interpreter: decodes the 13 fixed bytes of an IHDR payload
 * (RFC 2083 section 4.1.1) and derives the channel count and the number of
 * bytes per pixel that the filters work with.
 */
module Header {
  import opened Bytes
  import opened Wrappers

  /** Everything the analyser reports about the declared image. */
  datatype HeaderInfo = HeaderInfo(
    width: nat,
    height: nat,
    bitDepth: Byte,
    colorType: Byte,
    colorTypeName: string,
    compression: Byte,
    filterMethod: Byte,
    interlace: Byte,
    channels: nat,
    bytesPerPixel: nat)

  /** The display names of the colour types the analyser knows. */
  const ColorTypeNames: map<Byte, string> :=
    map[0 := "Grayscale", 2 := "RGB", 3 := "Indexed", 4 := "Grayscale + Alpha", 6 := "RGBA"]

  /** A colour type's name, "Unknown" for any code the table lacks. */
  function ColorTypeName(colorType: Byte): (name: string)
    ensures name == "Unknown" <==> colorType !in ColorTypeNames
    ensures colorType in ColorTypeNames ==> name == ColorTypeNames[colorType]
  {
    if colorType in ColorTypeNames then ColorTypeNames[colorType] else "Unknown"
  }

  /**
   * Samples per pixel read off the colour type's bits as RFC 2083 section
   * 4.1.1 describes them: bit 1 a palette index, bit 2 colour, bit 4 alpha.
   */
  function SamplesPerPixel(colorType: Byte): nat
  {
    if colorType % 2 == 1 then 1
    else (if (colorType / 2) % 2 == 1 then 3 else 1) + (if (colorType / 4) % 2 == 1 then 1 else 0)
  }

  /**
   * The channel count the analyser assigns to a colour type: the samples per
   * pixel for each of the five known codes, 0 for every other code.
   */
  function Channels(colorType: Byte): (n: nat)
    ensures n <= 4
    ensures n == 0 <==> colorType !in ColorTypeNames
    ensures colorType in ColorTypeNames ==> n == SamplesPerPixel(colorType)
  {
    if colorType == 0 then 1
    else if colorType == 2 then 3
    else if colorType == 3 then 1
    else if colorType == 4 then 2
    else if colorType == 6 then 4
    else 0
  }

  /** Whole bytes needed for one pixel: the bits per pixel divided by 8, rounded up. */
  function BytesPerPixel(bitDepth: Byte, channels: nat): (bpp: nat)
    ensures 8 * bpp - 8 < bitDepth * channels <= 8 * bpp
  {
    var bits := bitDepth * channels;
    if bits % 8 != 0 then bits / 8 + 1 else bits / 8
  }

  /**
   * Decodes an IHDR payload: None when it is shorter than 13 bytes; otherwise
   * the fields at their fixed offsets (bytes past the 13th are ignored).
   */
  function AnalyzeIhdr(data: seq<Byte>): (r: Option<HeaderInfo>)
    ensures r.None? <==> |data| < 13
    ensures r.Some? ==>
      var h := r.value;
      h.width == BE32(data[0..4]) && h.height == BE32(data[4..8]) &&
      h.bitDepth == data[8] && h.colorType == data[9] && h.compression == data[10] &&
      h.filterMethod == data[11] && h.interlace == data[12] &&
      h.width < TWO_32 && h.height < TWO_32 &&
      h.channels == Channels(h.colorType) && h.colorTypeName == ColorTypeName(h.colorType) &&
      (h.channels == 0 <==> h.colorTypeName == "Unknown") &&
      8 * h.bytesPerPixel - 8 < h.bitDepth * h.channels <= 8 * h.bytesPerPixel
  {
    if |data| < 13 then None
    else
      var colorType := data[9];
      var channels := Channels(colorType);
      Some(HeaderInfo(
        BE32(data[0..4]), BE32(data[4..8]), data[8], colorType, ColorTypeName(colorType),
        data[10], data[11], data[12], channels, BytesPerPixel(data[8], channels)))
  }

  /** The 13 payload bytes that describe a header. */
  function EncodeIhdr(width: nat, height: nat, bitDepth: Byte, colorType: Byte,
                      compression: Byte, filterMethod: Byte, interlace: Byte): (s: seq<Byte>)
    requires width < TWO_32 && height < TWO_32
    ensures |s| == 13
  {
    ToBE32(width) + ToBE32(height) + [bitDepth, colorType, compression, filterMethod, interlace]
  }

  /** Decoding an encoded header gives back its fields, whatever follows them. */
  lemma AnalyzeEncodedIhdr(width: nat, height: nat, bitDepth: Byte, colorType: Byte,
                           compression: Byte, filterMethod: Byte, interlace: Byte, extra: seq<Byte>)
    requires width < TWO_32 && height < TWO_32
    ensures var r := AnalyzeIhdr(EncodeIhdr(width, height, bitDepth, colorType,
                                            compression, filterMethod, interlace) + extra);
      r.Some? && r.value.width == width && r.value.height == height &&
      r.value.bitDepth == bitDepth && r.value.colorType == colorType &&
      r.value.compression == compression && r.value.filterMethod == filterMethod &&
      r.value.interlace == interlace && r.value.channels == Channels(colorType)
  {
    var s := EncodeIhdr(width, height, bitDepth, colorType, compression, filterMethod, interlace) + extra;
    assert s[0..4] == ToBE32(width);
    assert s[4..8] == ToBE32(height);
    BE32OfToBE32(width);
    BE32OfToBE32(height);
  }
}
