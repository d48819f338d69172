/**
 * Image reconstruction: unfilters the recovered stream row by row, each row
 * against the one rebuilt before it (a zero row before the first), and picks
 * the colour mode under which the rebuilt bytes are handed to the image library.
 */
module Reconstruct {
  import opened Bytes
  import opened Wrappers
  import opened Header
  import opened Recovery
  import opened Filters

  /** The virtual row above the first one: n zero bytes. */
  function ZeroRow(n: nat): (z: seq<Byte>)
    ensures |z| == n
  {
    seq(n, _ => 0)
  }

  /** The bytes taken by `rows` rows of `width` bytes each, counted row by row. */
  function Span(rows: nat, width: nat): nat
  {
    if rows == 0 then 0 else Span(rows - 1, width) + width
  }

  lemma {:induction false} SpanIsProduct(rows: nat, width: nat)
    ensures Span(rows, width) == rows * width
  {
    if rows > 0 {
      SpanIsProduct(rows - 1, width);
    }
  }

  lemma {:induction false} SpanMonotone(k: nat, n: nat, width: nat)
    requires k <= n
    ensures Span(k, width) <= Span(n, width)
    decreases n
  {
    if k < n {
      SpanMonotone(k, n - 1, width);
    }
  }

  /** Where the row loop stands: the bytes rebuilt so far and the last row rebuilt. */
  datatype Progress = Progress(raw: seq<Byte>, prev: seq<Byte>)

  /**
   * The state after the first y rows of stream d (each a filter tag followed
   * by stride - 1 filtered bytes): row y - 1 is unfiltered with the tag at
   * Span(y - 1, stride) against the row rebuilt before it (`first` above the
   * first row) and appended to the output.
   */
  function Rebuild(d: seq<Byte>, stride: nat, bpp: nat, first: seq<Byte>, y: nat): (p: Progress)
    requires stride >= 1 && |first| == stride - 1 && Span(y, stride) <= |d|
    ensures |p.prev| == stride - 1 && |p.raw| == Span(y, stride - 1)
  {
    if y == 0 then Progress([], first)
    else
      var before := Rebuild(d, stride, bpp, first, y - 1);
      var offset := Span(y - 1, stride);
      var row := Unfilter(d[offset + 1..offset + stride], before.prev, d[offset], bpp);
      Progress(before.raw + row, row)
  }

  /** The shape the recovered geometry guarantees: one filter byte and width * bpp bytes per row, rows filling the stream. */
  predicate Reconstructible(g: Geometry)
  {
    g.scanlineSize == 1 + g.actualWidth * g.bytesPerPixel &&
    g.scanlineSize * g.actualHeight == |g.data|
  }

  /** The whole rebuilt image of a recovered geometry, rows concatenated top to bottom. */
  function UnfilterImage(g: Geometry): (raw: seq<Byte>)
    requires Reconstructible(g)
    ensures |raw| == g.actualHeight * (g.actualWidth * g.bytesPerPixel)
  {
    SpanIsProduct(g.actualHeight, g.scanlineSize);
    SpanIsProduct(g.actualHeight, g.scanlineSize - 1);
    Rebuild(g.data, g.scanlineSize, g.bytesPerPixel, ZeroRow(g.scanlineSize - 1), g.actualHeight).raw
  }

  /**
   * Rebuilding one more row: after y rows at progress p, the tag at offset
   * Span(y, stride) and the filtered bytes after it yield `row`, which is
   * appended and becomes the row above the next.
   */
  lemma RebuildAppend(d: seq<Byte>, stride: nat, bpp: nat, first: seq<Byte>, y: nat, p: Progress, row: seq<Byte>)
    requires stride >= 1 && |first| == stride - 1 && Span(y, stride) + stride <= |d|
    requires Rebuild(d, stride, bpp, first, y) == p
    requires Unfilter(d[Span(y, stride) + 1..Span(y, stride) + stride], p.prev, d[Span(y, stride)], bpp) == row
    ensures Span(y + 1, stride) <= |d|
    ensures Rebuild(d, stride, bpp, first, y + 1) == Progress(p.raw + row, row)
  {
  }

  /**
   * The body of the row loop for row y: the filter tag at offset
   * y * scanlineSize, the scanlineSize - 1 filtered bytes after it, unfiltered
   * against the previous reconstructed row.
   */
  method UnfilterRowAt(decompressed: seq<Byte>, y: nat, scanlineSize: nat, bpp: nat, prevScanline: seq<Byte>)
    returns (unfiltered: seq<Byte>)
    requires scanlineSize >= 1 && |prevScanline| == scanlineSize - 1 && Span(y, scanlineSize) + scanlineSize <= |decompressed|
    ensures var offset := Span(y, scanlineSize);
            unfiltered == Unfilter(decompressed[offset + 1..offset + scanlineSize], prevScanline, decompressed[offset], bpp)
  {
    var offset := y * scanlineSize;
    SpanIsProduct(y, scanlineSize);
    var filterType := decompressed[offset];
    var scanline := decompressed[offset + 1..offset + scanlineSize];
    unfiltered := UnfilterScanline(scanline, prevScanline, filterType, bpp);
  }

  /**
   * The analyser's row loop: every row is unfiltered against the row rebuilt
   * before it, starting from a zero row, and appended to the output in order.
   */
  method ReconstructRows(g: Geometry) returns (raw: seq<Byte>)
    requires Reconstructible(g)
    ensures raw == UnfilterImage(g)
  {
    var width := g.actualWidth;
    var height := g.actualHeight;
    var scanlineSize := g.scanlineSize;
    var bpp := g.bytesPerPixel;
    var decompressed := g.data;
    raw := [];
    var prevScanline := ZeroRow(width * bpp);
    ghost var zero := ZeroRow(scanlineSize - 1);
    assert prevScanline == zero;
    assert Span(height, scanlineSize) == |decompressed| by {
      SpanIsProduct(height, scanlineSize);
    }
    for y := 0 to height
      invariant Span(y, scanlineSize) <= |decompressed|
      invariant Progress(raw, prevScanline) == Rebuild(decompressed, scanlineSize, bpp, zero, y)
    {
      SpanMonotone(y + 1, height, scanlineSize);
      var unfiltered := UnfilterRowAt(decompressed, y, scanlineSize, bpp, prevScanline);
      RebuildAppend(decompressed, scanlineSize, bpp, zero, y, Progress(raw, prevScanline), unfiltered);
      raw := raw + unfiltered;
      prevScanline := unfiltered;
    }
  }

  /** The row above row k of an image whose first row has `first` above it. */
  function RowAbove(rows: seq<seq<Byte>>, first: seq<Byte>, k: nat): seq<Byte>
    requires k <= |rows|
  {
    if k == 0 then first else rows[k - 1]
  }

  /** The first k rows of an image laid end to end. */
  function Concat(rows: seq<seq<Byte>>, k: nat): seq<Byte>
    requires k <= |rows|
  {
    if k == 0 then [] else Concat(rows, k - 1) + rows[k - 1]
  }

  /** All rows are `width` bytes long. */
  predicate RowsOfWidth(rows: seq<seq<Byte>>, width: nat)
  {
    forall i :: 0 <= i < |rows| ==> |rows[i]| == width
  }

  /** The first k of `parts` lie end to end at the start of `d`, part j at offset Span(j, width). */
  predicate AtStrides(d: seq<Byte>, parts: seq<seq<Byte>>, width: nat, k: nat)
    requires k <= |parts|
  {
    forall j :: 0 <= j < k ==>
      Span(j, width) + width <= |d| && d[Span(j, width)..Span(j, width) + width] == parts[j]
  }

  /** A slice that is a tag followed by a row: its first byte is the tag and the rest is the row. */
  lemma SliceHeadTail(d: seq<Byte>, lo: nat, hi: nat, tag: Byte, rest: seq<Byte>)
    requires lo < hi <= |d| && d[lo..hi] == [tag] + rest
    ensures d[lo] == tag && d[lo + 1..hi] == rest
  {
    assert d[lo + 1..hi] == d[lo..hi][1..];
  }

  /** A slice of a + b that lies within a, or that is exactly b. */
  lemma SliceOfAppend(a: seq<Byte>, b: seq<Byte>, lo: nat, hi: nat)
    requires lo <= hi <= |a| + |b|
    ensures hi <= |a| ==> (a + b)[lo..hi] == a[lo..hi]
    ensures lo == |a| && hi == |a| + |b| ==> (a + b)[lo..hi] == b
  {
  }

  /** Rows of one width laid end to end: Span(n, width) bytes, with row j at offset Span(j, width). */
  lemma {:induction false} ConcatAtStrides(parts: seq<seq<Byte>>, width: nat, n: nat)
    requires RowsOfWidth(parts, width) && n <= |parts|
    ensures |Concat(parts, n)| == Span(n, width)
    ensures AtStrides(Concat(parts, n), parts, width, n)
  {
    if n > 0 {
      var before := Concat(parts, n - 1);
      var d := Concat(parts, n);
      ConcatAtStrides(parts, width, n - 1);
      forall j | 0 <= j < n
        ensures Span(j, width) + width <= |d| && d[Span(j, width)..Span(j, width) + width] == parts[j]
      {
        var offset := Span(j, width);
        if j < n - 1 {
          SpanMonotone(j + 1, n - 1, width);
        }
        SliceOfAppend(before, parts[n - 1], offset, offset + width);
      }
    }
  }

  /** Row k as the encoder writes it: its tag, then the row filtered with that tag against the row above. */
  function EncodeRow(rows: seq<seq<Byte>>, tags: seq<Byte>, first: seq<Byte>, bpp: nat, k: nat): (e: seq<Byte>)
    requires k < |rows| == |tags| && RowsOfWidth(rows, |first|)
    ensures |e| == |first| + 1
  {
    [tags[k]] + Filter(rows[k], RowAbove(rows, first, k), tags[k], bpp)
  }

  /** Every row as the encoder writes it. */
  function EncodedRows(rows: seq<seq<Byte>>, tags: seq<Byte>, first: seq<Byte>, bpp: nat): (parts: seq<seq<Byte>>)
    requires |rows| == |tags| && RowsOfWidth(rows, |first|)
    ensures |parts| == |rows| && RowsOfWidth(parts, |first| + 1)
  {
    seq(|rows|, k requires 0 <= k < |rows| => EncodeRow(rows, tags, first, bpp, k))
  }

  /** The stream an encoder produces: the encoded rows end to end. */
  function FilterRows(rows: seq<seq<Byte>>, tags: seq<Byte>, first: seq<Byte>, bpp: nat): (d: seq<Byte>)
    requires |rows| == |tags| && RowsOfWidth(rows, |first|)
  {
    Concat(EncodedRows(rows, tags, first, bpp), |rows|)
  }

  /**
   * Rebuilding a row the encoder wrote: when the tag and the row filtered
   * against the last rebuilt row follow, the row itself is appended.
   */
  lemma RebuildEncodedRow(d: seq<Byte>, stride: nat, bpp: nat, first: seq<Byte>, y: nat,
                          raw: seq<Byte>, prev: seq<Byte>, tag: Byte, row: seq<Byte>)
    requires bpp >= 1 && stride >= 1 && |first| == stride - 1 && |row| == stride - 1 == |prev| && y >= 1
    requires Span(y - 1, stride) + stride <= |d|
    requires Rebuild(d, stride, bpp, first, y - 1).raw == raw && Rebuild(d, stride, bpp, first, y - 1).prev == prev
    requires d[Span(y - 1, stride)..Span(y - 1, stride) + stride] == [tag] + Filter(row, prev, tag, bpp)
    ensures Span(y, stride) <= |d|
    ensures Rebuild(d, stride, bpp, first, y).raw == raw + row
    ensures Rebuild(d, stride, bpp, first, y).prev == row
  {
    var offset := Span(y - 1, stride);
    SliceHeadTail(d, offset, offset + stride, tag, Filter(row, prev, tag, bpp));
    UnfilterFilter(row, prev, tag, bpp);
  }

  /** The state after k rows of an encoded stream, as the induction below carries it. */
  predicate RebuiltRows(d: seq<Byte>, rows: seq<seq<Byte>>, first: seq<Byte>, bpp: nat, k: nat)
    requires k <= |rows|
  {
    Span(k, |first| + 1) <= |d| &&
    Rebuild(d, |first| + 1, bpp, first, k).raw == Concat(rows, k) &&
    Rebuild(d, |first| + 1, bpp, first, k).prev == RowAbove(rows, first, k)
  }

  /** One step of the induction: rebuilding row k - 1 of an encoded stream appends that row. */
  lemma RebuildEncodedRowsStep(d: seq<Byte>, rows: seq<seq<Byte>>, tags: seq<Byte>,
                               first: seq<Byte>, bpp: nat, k: nat)
    requires bpp >= 1 && 1 <= k <= |rows| == |tags| && RowsOfWidth(rows, |first|)
    requires AtStrides(d, EncodedRows(rows, tags, first, bpp), |first| + 1, k)
    requires RebuiltRows(d, rows, first, bpp, k - 1)
    ensures RebuiltRows(d, rows, first, bpp, k)
  {
    var stride := |first| + 1;
    var offset := Span(k - 1, stride);
    var parts := EncodedRows(rows, tags, first, bpp);
    assert offset + stride <= |d| && d[offset..offset + stride] == parts[k - 1];
    assert parts[k - 1] == EncodeRow(rows, tags, first, bpp, k - 1);
    RebuildEncodedRow(d, stride, bpp, first, k, Concat(rows, k - 1), RowAbove(rows, first, k - 1), tags[k - 1], rows[k - 1]);
  }

  /**
   * Unfiltering a stream of encoded rows gives back the rows: after k rows
   * the output is the first k rows end to end, and the last row is row k - 1.
   */
  lemma {:induction false} RebuildEncodedRows(d: seq<Byte>, rows: seq<seq<Byte>>, tags: seq<Byte>,
                                              first: seq<Byte>, bpp: nat, k: nat)
    requires bpp >= 1 && k <= |rows| == |tags| && RowsOfWidth(rows, |first|)
    requires AtStrides(d, EncodedRows(rows, tags, first, bpp), |first| + 1, k)
    ensures RebuiltRows(d, rows, first, bpp, k)
  {
    if k > 0 {
      assert AtStrides(d, EncodedRows(rows, tags, first, bpp), |first| + 1, k - 1);
      RebuildEncodedRows(d, rows, tags, first, bpp, k - 1);
      RebuildEncodedRowsStep(d, rows, tags, first, bpp, k);
    }
  }

  /**
   * The whole-image round trip: the geometry of an encoded image of these
   * rows is one the loop accepts, and unfiltering it yields the rows.
   */
  lemma UnfilterImageOfFilterRows(rows: seq<seq<Byte>>, tags: seq<Byte>, width: nat, bpp: nat)
    requires bpp >= 1 && |rows| == |tags| && RowsOfWidth(rows, width * bpp)
    ensures var g := Geometry(width, |rows|, FilterRows(rows, tags, ZeroRow(width * bpp), bpp), 1 + width * bpp, bpp);
            Reconstructible(g) && UnfilterImage(g) == Concat(rows, |rows|)
  {
    var zero := ZeroRow(width * bpp);
    var n := |rows|;
    var stride := 1 + width * bpp;
    var d := FilterRows(rows, tags, zero, bpp);
    ConcatAtStrides(EncodedRows(rows, tags, zero, bpp), stride, n);
    assert Rebuild(d, stride, bpp, zero, n).raw == Concat(rows, n) by {
      RebuildEncodedRows(d, rows, tags, zero, bpp, n);
    }
    assert |d| == stride * n by {
      SpanIsProduct(n, stride);
      assert n * stride == stride * n;
    }
  }

  /** The image modes the analyser can hand over: RGBA, RGB and 8-bit grey ("L"). */
  datatype Mode = RGBA | RGB | L

  function ModeChannels(m: Mode): nat
  {
    match m
    case RGBA => 4
    case RGB => 3
    case L => 1
  }

  /**
   * The mode chosen for a colour type: only types 6, 2 and 0 have one, and its
   * channel count is the one the header interpreter derived for that type.
   */
  function ModeOf(colorType: Byte): (m: Option<Mode>)
    ensures m.Some? <==> colorType == 6 || colorType == 2 || colorType == 0
    ensures m.Some? ==> ModeChannels(m.value) == Channels(colorType)
  {
    if colorType == 6 then Some(RGBA)
    else if colorType == 2 then Some(RGB)
    else if colorType == 0 then Some(L)
    else None
  }

  /** What is handed to the image library: size, mode and the rebuilt bytes. */
  datatype Image = Image(width: nat, height: nat, mode: Mode, pixels: seq<Byte>)

  /**
   * Rebuilds the full image: unfilters every row, then fails (None) when the
   * declared colour type has no mode, otherwise yields the image to be saved.
   */
  method ReconstructFullImage(g: Geometry, h: HeaderInfo) returns (r: Option<Image>)
    requires Reconstructible(g)
    ensures r.None? <==> !(h.colorType == 6 || h.colorType == 2 || h.colorType == 0)
    ensures r.Some? ==> r.value.width == g.actualWidth && r.value.height == g.actualHeight
    ensures r.Some? ==> r.value.pixels == UnfilterImage(g) && Some(r.value.mode) == ModeOf(h.colorType)
    ensures r.Some? && h.channels == Channels(h.colorType) ==> ModeChannels(r.value.mode) == h.channels
  {
    var raw := ReconstructRows(g);
    var mode := ModeOf(h.colorType);
    if mode.None? {
      return None;
    }
    return Some(Image(g.actualWidth, g.actualHeight, mode.value, raw));
  }

  /**
   * For 8-bit samples the rebuilt bytes are exactly height x width x channels,
   * the shape the pixel array is reshaped to.
   */
  lemma PixelsFillImage(g: Geometry, h: HeaderInfo)
    requires Reconstructible(g) && ModeOf(h.colorType).Some?
    requires h.bitDepth == 8 && h.channels == Channels(h.colorType)
    requires g.bytesPerPixel == BytesPerPixel(h.bitDepth, h.channels)
    ensures |UnfilterImage(g)| == g.actualHeight * g.actualWidth * ModeChannels(ModeOf(h.colorType).value)
  {
    assert g.bytesPerPixel == h.channels;
    assert g.actualHeight * (g.actualWidth * g.bytesPerPixel) == g.actualHeight * g.actualWidth * g.bytesPerPixel;
  }
}
