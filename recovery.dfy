/**
 * Dimension recovery: compares the size of the decompressed pixel stream with
 * what the declared width and height predict and, when the stream is longer,
 * guesses the real geometry (same width and more rows, or else the first
 * width in a window around the declared one that divides the stream evenly
 * into more rows than declared).
 */
module Recovery {
  import opened Bytes
  import opened Wrappers
  import opened Chunks

  /** A guessed image geometry together with the stream it explains. */
  datatype Geometry = Geometry(
    actualWidth: nat,
    actualHeight: nat,
    data: seq<Byte>,
    scanlineSize: nat,
    bytesPerPixel: nat)

  /**
   * The acceptance predicate for a guess: the scanline size it implies
   * (one filter byte and the row's pixel bytes) is what the stream is made
   * of, and the rows outnumber the declared height.
   */
  predicate Explains(g: Geometry, declaredHeight: nat)
  {
    g.scanlineSize == 1 + g.actualWidth * g.bytesPerPixel &&
    g.scanlineSize * g.actualHeight == |g.data| &&
    g.actualHeight > declaredHeight
  }

  /** Width w fits a stream of n bytes with more than declaredHeight rows. */
  predicate WidthFits(n: nat, declaredHeight: nat, bpp: nat, w: int)
  {
    w > 0 && n % (1 + w * bpp) == 0 && n / (1 + w * bpp) > declaredHeight
  }

  /** The payloads of the IDAT chunks, concatenated in file order. */
  function CombinedIdat(chunks: seq<Chunk>): (d: seq<Byte>)
    ensures d == [] <==> forall i :: 0 <= i < |chunks| && chunks[i].kind == IDAT ==> chunks[i].data == []
    ensures forall i :: 0 <= i < |chunks| && chunks[i].kind == IDAT ==> |chunks[i].data| <= |d|
  {
    if chunks == [] then []
    else (if chunks[0].kind == IDAT then chunks[0].data else []) + CombinedIdat(chunks[1..])
  }

  /** Concatenating chunk lists concatenates their pixel data. */
  lemma {:induction false} CombinedIdatAppend(a: seq<Chunk>, b: seq<Chunk>)
    ensures CombinedIdat(a + b) == CombinedIdat(a) + CombinedIdat(b)
  {
    if a == [] {
      assert a + b == b;
    } else {
      var head := if a[0].kind == IDAT then a[0].data else [];
      assert (a + b)[0] == a[0];
      assert (a + b)[1..] == a[1..] + b;
      assert CombinedIdat(a + b) == head + CombinedIdat(a[1..] + b);
      CombinedIdatAppend(a[1..], b);
      assert head + (CombinedIdat(a[1..]) + CombinedIdat(b)) == (head + CombinedIdat(a[1..])) + CombinedIdat(b);
    }
  }

  /** Chunks of other types contribute nothing to the pixel data. */
  lemma {:induction false} CombinedIdatIgnoresOthers(chunks: seq<Chunk>)
    requires forall i :: 0 <= i < |chunks| ==> chunks[i].kind != IDAT
    ensures CombinedIdat(chunks) == []
  {
    if chunks != [] {
      CombinedIdatIgnoresOthers(chunks[1..]);
    }
  }

  /** q * s == n with n > h * s and s > 0 forces q > h. */
  lemma MoreRows(n: nat, s: nat, q: nat, h: nat)
    requires s > 0 && q * s == n && n > h * s
    ensures q > h
  {
  }

  /** An even division gives back the dividend. */
  lemma DivExact(n: nat, s: nat)
    requires s > 0 && n % s == 0
    ensures (n / s) * s == n && s * (n / s) == n
  {
  }

  /**
   * The width search: scans widths upward from 100 below the declared width
   * to 500 above it and returns the first that divides the stream into more
   * rows than declared, or None when no width in the window does.
   */
  method SearchWidth(decompressed: seq<Byte>, declaredWidth: nat, declaredHeight: nat, bpp: nat)
    returns (r: Option<Geometry>)
    ensures r.None? <==> forall w :: declaredWidth - 100 <= w < declaredWidth + 500 ==>
                                     !WidthFits(|decompressed|, declaredHeight, bpp, w)
    ensures r.Some? ==>
      var g := r.value;
      declaredWidth - 100 <= g.actualWidth < declaredWidth + 500 &&
      WidthFits(|decompressed|, declaredHeight, bpp, g.actualWidth) &&
      (forall w :: declaredWidth - 100 <= w < g.actualWidth ==>
                   !WidthFits(|decompressed|, declaredHeight, bpp, w)) &&
      Explains(g, declaredHeight) && g.data == decompressed && g.bytesPerPixel == bpp
  {
    var n := |decompressed|;
    for widthGuess := declaredWidth - 100 to declaredWidth + 500
      invariant forall w :: declaredWidth - 100 <= w < widthGuess ==> !WidthFits(n, declaredHeight, bpp, w)
    {
      if widthGuess <= 0 {
        continue;
      }
      var scanlineGuess := 1 + widthGuess * bpp;
      if n % scanlineGuess == 0 {
        var heightGuess := n / scanlineGuess;
        if heightGuess > declaredHeight {
          DivExact(n, scanlineGuess);
          assert WidthFits(n, declaredHeight, bpp, widthGuess);
          return Some(Geometry(widthGuess, heightGuess, decompressed, scanlineGuess, bpp));
        }
      }
    }
    return None;
  }

  /**
   * Recovers the real geometry of the decompressed stream, or None when the
   * stream is no longer than declared or no guess explains it.
   */
  method AnalyzeImageData(decompressed: seq<Byte>, declaredWidth: nat, declaredHeight: nat, bpp: nat)
    returns (r: Option<Geometry>)
    ensures var stride := 1 + declaredWidth * bpp;
      |decompressed| <= declaredHeight * stride ==> r.None?
    ensures var stride := 1 + declaredWidth * bpp;
      |decompressed| > declaredHeight * stride && |decompressed| % stride == 0 ==>
        r == Some(Geometry(declaredWidth, |decompressed| / stride, decompressed, stride, bpp))
    ensures var stride := 1 + declaredWidth * bpp;
      |decompressed| > declaredHeight * stride && |decompressed| % stride != 0 ==>
        (r.None? <==> forall w :: declaredWidth - 100 <= w < declaredWidth + 500 ==>
                                  !WidthFits(|decompressed|, declaredHeight, bpp, w)) &&
        (r.Some? ==>
          declaredWidth - 100 <= r.value.actualWidth < declaredWidth + 500 &&
          WidthFits(|decompressed|, declaredHeight, bpp, r.value.actualWidth) &&
          forall w :: declaredWidth - 100 <= w < r.value.actualWidth ==>
                      !WidthFits(|decompressed|, declaredHeight, bpp, w))
    ensures r.Some? ==> Explains(r.value, declaredHeight) && r.value.data == decompressed &&
                        r.value.bytesPerPixel == bpp
  {
    var n := |decompressed|;
    var expectedScanlineSize := 1 + declaredWidth * bpp;
    var expectedTotalSize := declaredHeight * expectedScanlineSize;
    if n > expectedTotalSize {
      var actualScanlines := n / expectedScanlineSize;
      var remaining := n % expectedScanlineSize;
      if remaining == 0 {
        DivExact(n, expectedScanlineSize);
        MoreRows(n, expectedScanlineSize, actualScanlines, declaredHeight);
        return Some(Geometry(declaredWidth, actualScanlines, decompressed, expectedScanlineSize, bpp));
      } else {
        r := SearchWidth(decompressed, declaredWidth, declaredHeight, bpp);
        return r;
      }
    }
    return None;
  }
}
