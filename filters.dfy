/**
 * Scanline unfiltering: undoes the PNG filters None, Sub, Up, Average and
 * Paeth (RFC 2083 sections 6.2 to 6.6) on one row, in place, with byte
 * arithmetic modulo 256, given the previous reconstructed row.
 */
module Filters {
  import opened Bytes

  function Abs(x: int): nat
  {
    if x < 0 then -x else x
  }

  /**
   * The Paeth predictor: whichever of left, up and upper-left is closest to
   * left + up - upLeft, ties going to left, then to up.
   */
  function Paeth(left: Byte, up: Byte, upLeft: Byte): (pr: Byte)
    ensures pr == left || pr == up || pr == upLeft
    ensures var p := left + up - upLeft;
      Abs(p - pr) <= Abs(p - left) && Abs(p - pr) <= Abs(p - up) && Abs(p - pr) <= Abs(p - upLeft)
    ensures var p := left + up - upLeft;
      Abs(p - left) == Abs(p - pr) ==> pr == left
    ensures var p := left + up - upLeft;
      Abs(p - up) == Abs(p - pr) ==> pr == left || pr == up
  {
    var p := left as int + up - upLeft;
    var pa := Abs(p - left);
    var pb := Abs(p - up);
    var pc := Abs(p - upLeft);
    if pa <= pb && pa <= pc then left
    else if pb <= pc then up
    else upLeft
  }

  /** The byte one pixel (bpp bytes) before position i, 0 when i is in the first pixel. */
  function Before(s: seq<Byte>, i: nat, bpp: nat): Byte
    requires i < |s|
  {
    if i >= bpp then s[i - bpp] else 0
  }

  /** Filter types 2 to 4 read the previous row at every position of this one. */
  predicate PriorCovers(ft: Byte, s: seq<Byte>, prev: seq<Byte>)
  {
    2 <= ft <= 4 ==> |s| <= |prev|
  }

  /**
   * The value the unfilter loop of type ft adds at position i, reading the row
   * cur as it stands (positions below i already rewritten) and the previous row.
   */
  function Predictor(ft: Byte, cur: seq<Byte>, prev: seq<Byte>, i: nat, bpp: nat): Byte
    requires i < |cur| && (2 <= ft <= 4 ==> i < |prev|)
  {
    if ft == 1 then Before(cur, i, bpp)
    else if ft == 2 then prev[i]
    else if ft == 3 then (Before(cur, i, bpp) + prev[i]) / 2
    else if ft == 4 then Paeth(Before(cur, i, bpp), prev[i], Before(prev, i, bpp))
    else 0
  }

  /**
   * What each filter predicts: nothing for an unknown tag; for Sub the byte one
   * pixel to the left (0 in the first pixel); for Up the byte above; for
   * Average half the sum of left and up, rounded down; for Paeth one of left,
   * up and upper-left.
   */
  lemma PredictorCases(ft: Byte, cur: seq<Byte>, prev: seq<Byte>, i: nat, bpp: nat)
    requires i < |cur| && (2 <= ft <= 4 ==> i < |prev|)
    ensures var p := Predictor(ft, cur, prev, i, bpp);
      (!(1 <= ft <= 4) ==> p == 0) &&
      (ft == 1 ==> p == (if i < bpp then 0 else cur[i - bpp])) &&
      (ft == 2 ==> p == prev[i]) &&
      (ft == 3 ==> 2 * p <= Before(cur, i, bpp) + prev[i] < 2 * p + 2) &&
      (ft == 4 ==> p == Before(cur, i, bpp) || p == prev[i] || p == Before(prev, i, bpp))
  {
  }

  /** The row once the loop of filter ft has rewritten, in order, every position below k. */
  function UnfilterUpTo(s: seq<Byte>, prev: seq<Byte>, ft: Byte, bpp: nat, k: nat): (r: seq<Byte>)
    requires k <= |s| && PriorCovers(ft, s, prev)
    ensures |r| == |s|
    decreases k
  {
    if k == 0 then s
    else
      var c := UnfilterUpTo(s, prev, ft, bpp, k - 1);
      c[k - 1 := (c[k - 1] + Predictor(ft, c, prev, k - 1, bpp)) % 256]
  }

  /**
   * A reconstructed row: the same length as the filtered one, and unchanged
   * for filter 0 and for any tag outside 0 to 4.
   */
  function Unfilter(s: seq<Byte>, prev: seq<Byte>, ft: Byte, bpp: nat): (r: seq<Byte>)
    requires PriorCovers(ft, s, prev)
    ensures |r| == |s|
    ensures !(1 <= ft <= 4) ==> r == s
  {
    if 1 <= ft <= 4 then UnfilterUpTo(s, prev, ft, bpp, |s|) else s
  }

  /** The Sub loop starts at bpp; the positions of the first pixel keep their bytes. */
  lemma {:induction false} SubFirstPixel(s: seq<Byte>, prev: seq<Byte>, bpp: nat, k: nat)
    requires k <= |s| && k <= bpp
    ensures UnfilterUpTo(s, prev, 1, bpp, k) == s
  {
    if k > 0 {
      SubFirstPixel(s, prev, bpp, k - 1);
    }
  }

  /** The Sub loop: adds to each byte from bpp on the rewritten byte bpp to its left. */
  method SubInPlace(result: array<Byte>, bpp: nat)
    modifies result
    ensures result[..] == Unfilter(old(result[..]), [], 1, bpp)
  {
    ghost var s := result[..];
    SubFirstPixel(s, [], bpp, if bpp <= result.Length then bpp else result.Length);
    var i := bpp;
    while i < result.Length
      invariant bpp <= i && (i <= result.Length || i == bpp)
      invariant result[..] == UnfilterUpTo(s, [], 1, bpp, if i <= result.Length then i else result.Length)
    {
      result[i] := (result[i] + result[i - bpp] as int) % 256;
      i := i + 1;
    }
  }

  /** The Up loop: adds to each byte the byte above it. */
  method UpInPlace(result: array<Byte>, prevScanline: seq<Byte>, bpp: nat)
    requires result.Length <= |prevScanline|
    modifies result
    ensures result[..] == Unfilter(old(result[..]), prevScanline, 2, bpp)
  {
    ghost var s := result[..];
    for i := 0 to result.Length
      invariant result[..] == UnfilterUpTo(s, prevScanline, 2, bpp, i)
    {
      result[i] := (result[i] + prevScanline[i] as int) % 256;
    }
  }

  /** The Average loop: adds the floor of the mean of the rewritten left byte and the byte above. */
  method AverageInPlace(result: array<Byte>, prevScanline: seq<Byte>, bpp: nat)
    requires result.Length <= |prevScanline|
    modifies result
    ensures result[..] == Unfilter(old(result[..]), prevScanline, 3, bpp)
  {
    ghost var s := result[..];
    for i := 0 to result.Length
      invariant result[..] == UnfilterUpTo(s, prevScanline, 3, bpp, i)
    {
      var left := if i >= bpp then result[i - bpp] else 0;
      var up := prevScanline[i];
      result[i] := (result[i] + (left + up as int) / 2) % 256;
    }
  }

  /** The Paeth loop: adds the Paeth predictor of the rewritten left byte, the byte above and the one above-left. */
  method PaethInPlace(result: array<Byte>, prevScanline: seq<Byte>, bpp: nat)
    requires result.Length <= |prevScanline|
    modifies result
    ensures result[..] == Unfilter(old(result[..]), prevScanline, 4, bpp)
  {
    ghost var s := result[..];
    for i := 0 to result.Length
      invariant result[..] == UnfilterUpTo(s, prevScanline, 4, bpp, i)
    {
      var left := if i >= bpp then result[i - bpp] else 0;
      var up := prevScanline[i];
      var upLeft := if i >= bpp then prevScanline[i - bpp] else 0;
      result[i] := (result[i] + Paeth(left, up, upLeft) as int) % 256;
    }
  }

  /** Sub never reads the previous row. */
  lemma {:induction false} SubIgnoresPrior(s: seq<Byte>, prev: seq<Byte>, bpp: nat, k: nat)
    requires k <= |s|
    ensures UnfilterUpTo(s, prev, 1, bpp, k) == UnfilterUpTo(s, [], 1, bpp, k)
  {
    if k > 0 {
      SubIgnoresPrior(s, prev, bpp, k - 1);
    }
  }

  /**
   * Reconstructs one scanline as the analyser does: a mutable copy of the
   * filtered bytes, rewritten in place by the loop of its filter type, so
   * that Sub, Average and Paeth read bytes already reconstructed on their left.
   */
  method UnfilterScanline(scanline: seq<Byte>, prevScanline: seq<Byte>, filterType: Byte, bpp: nat)
    returns (row: seq<Byte>)
    requires PriorCovers(filterType, scanline, prevScanline)
    ensures row == Unfilter(scanline, prevScanline, filterType, bpp)
  {
    var result := new Byte[|scanline|](i requires 0 <= i < |scanline| => scanline[i]);
    assert result[..] == scanline;
    if filterType == 0 {
      return result[..];
    } else if filterType == 1 {
      SubInPlace(result, bpp);
      SubIgnoresPrior(scanline, prevScanline, bpp, |scanline|);
    } else if filterType == 2 {
      UpInPlace(result, prevScanline, bpp);
    } else if filterType == 3 {
      AverageInPlace(result, prevScanline, bpp);
    } else if filterType == 4 {
      PaethInPlace(result, prevScanline, bpp);
    }
    return result[..];
  }

  /** The predictor at i depends on the row being rebuilt only through the byte bpp to the left. */
  lemma PredictorLocal(ft: Byte, a: seq<Byte>, b: seq<Byte>, prev: seq<Byte>, i: nat, bpp: nat)
    requires i < |a| && i < |b| && (2 <= ft <= 4 ==> i < |prev|)
    requires i >= bpp ==> a[i - bpp] == b[i - bpp]
    ensures Predictor(ft, a, prev, i, bpp) == Predictor(ft, b, prev, i, bpp)
  {
  }

  /**
   * After the loop has passed position k, the positions it has not reached
   * still hold the filtered bytes, and each position it has passed holds its
   * filtered byte plus the predictor taken over the row as it now stands.
   */
  lemma {:induction false} UnfilterUpToShape(s: seq<Byte>, prev: seq<Byte>, ft: Byte, bpp: nat, k: nat)
    requires bpp >= 1 && k <= |s| && PriorCovers(ft, s, prev)
    ensures var c := UnfilterUpTo(s, prev, ft, bpp, k);
      (forall j :: k <= j < |s| ==> c[j] == s[j]) &&
      (forall j :: 0 <= j < k ==> c[j] == (s[j] + Predictor(ft, c, prev, j, bpp)) % 256)
  {
    if k > 0 {
      UnfilterUpToShape(s, prev, ft, bpp, k - 1);
      var c := UnfilterUpTo(s, prev, ft, bpp, k - 1);
      var c' := UnfilterUpTo(s, prev, ft, bpp, k);
      assert c' == c[k - 1 := (c[k - 1] + Predictor(ft, c, prev, k - 1, bpp)) % 256];
      forall j | 0 <= j < k
        ensures c'[j] == (s[j] + Predictor(ft, c', prev, j, bpp)) % 256
      {
        PredictorLocal(ft, c, c', prev, j, bpp);
      }
    }
  }

  /**
   * The reconstruction rule of RFC 2083 section 6: for bpp >= 1, every byte
   * of the unfiltered row is its filtered byte plus the filter's predictor
   * over the reconstructed row (left neighbours) and the previous row, mod 256.
   */
  lemma UnfilterRecurrence(s: seq<Byte>, prev: seq<Byte>, ft: Byte, bpp: nat)
    requires bpp >= 1 && 1 <= ft <= 4 && PriorCovers(ft, s, prev)
    ensures var r := Unfilter(s, prev, ft, bpp);
      forall j :: 0 <= j < |s| ==> r[j] == (s[j] + Predictor(ft, r, prev, j, bpp)) % 256
  {
    UnfilterUpToShape(s, prev, ft, bpp, |s|);
  }

  /**
   * The forward filter of type ft applied at position i of a raw row, as
   * RFC 2083 sections 6.2 to 6.6 define it: the raw byte minus the prediction
   * from its raw left neighbour and the prior row, mod 256.
   */
  function FilterByte(ft: Byte, raw: seq<Byte>, prior: seq<Byte>, i: nat, bpp: nat): Byte
    requires i < |raw| && (2 <= ft <= 4 ==> i < |prior|)
  {
    if ft == 1 then (raw[i] - Before(raw, i, bpp)) % 256
    else if ft == 2 then (raw[i] - prior[i]) % 256
    else if ft == 3 then (raw[i] - (Before(raw, i, bpp) + prior[i]) / 2) % 256
    else if ft == 4 then (raw[i] - Paeth(Before(raw, i, bpp), prior[i], Before(prior, i, bpp))) % 256
    else raw[i]
  }

  /** A whole row filtered with type ft (tags outside 1 to 4 leave it as it is). */
  function Filter(raw: seq<Byte>, prior: seq<Byte>, ft: Byte, bpp: nat): (f: seq<Byte>)
    requires PriorCovers(ft, raw, prior)
    ensures |f| == |raw|
  {
    seq(|raw|, i requires 0 <= i < |raw| => FilterByte(ft, raw, prior, i, bpp))
  }

  lemma AddBack(x: Byte, p: int)
    ensures ((x - p) % 256 + p) % 256 == x
  {
  }

  lemma TakeBack(x: Byte, p: int)
    ensures ((x + p) % 256 - p) % 256 == x
  {
  }

  /** Reconstruction undoes the forward filter, for every filter type and any previous row. */
  lemma UnfilterFilter(raw: seq<Byte>, prior: seq<Byte>, ft: Byte, bpp: nat)
    requires bpp >= 1 && PriorCovers(ft, raw, prior)
    ensures Unfilter(Filter(raw, prior, ft, bpp), prior, ft, bpp) == raw
  {
    if 1 <= ft <= 4 {
      var f := Filter(raw, prior, ft, bpp);
      forall k | 0 <= k <= |raw|
        ensures UnfilterUpTo(f, prior, ft, bpp, k) == raw[..k] + f[k..]
      {
        UnfilterFilterUpTo(raw, prior, ft, bpp, k);
      }
      assert raw[..|raw|] + f[|raw|..] == raw;
    }
  }

  /** Moving the split point of raw[..i] + f[i..] one place right rewrites position i to raw[i]. */
  lemma SplitAdvance(raw: seq<Byte>, f: seq<Byte>, i: nat)
    requires i < |raw| == |f|
    ensures (raw[..i] + f[i..])[i := raw[i]] == raw[..i + 1] + f[i + 1..]
  {
  }

  /**
   * After the loop has passed position k of a filtered row, the positions it
   * has passed hold the raw bytes again and the rest are still filtered.
   */
  lemma {:induction false} UnfilterFilterUpTo(raw: seq<Byte>, prior: seq<Byte>, ft: Byte, bpp: nat, k: nat)
    requires bpp >= 1 && 1 <= ft <= 4 && PriorCovers(ft, raw, prior) && k <= |raw|
    ensures UnfilterUpTo(Filter(raw, prior, ft, bpp), prior, ft, bpp, k) == raw[..k] + Filter(raw, prior, ft, bpp)[k..]
  {
    var f := Filter(raw, prior, ft, bpp);
    if k == 0 {
      assert raw[..0] + f[0..] == f;
    } else {
      var i := k - 1;
      var c := raw[..i] + f[i..];
      UnfilterFilterUpTo(raw, prior, ft, bpp, i);
      assert (c[i] + Predictor(ft, c, prior, i, bpp)) % 256 == raw[i] by {
        PredictorLocal(ft, c, raw, prior, i, bpp);
        var p := Predictor(ft, raw, prior, i, bpp);
        assert c[i] == f[i] == (raw[i] as int - p) % 256;
        AddBack(raw[i], p);
      }
      SplitAdvance(raw, f, i);
    }
  }

  /** The forward filter undoes reconstruction: for bpp >= 1 the two are inverse bijections on rows. */
  lemma FilterUnfilter(s: seq<Byte>, prior: seq<Byte>, ft: Byte, bpp: nat)
    requires bpp >= 1 && PriorCovers(ft, s, prior)
    ensures Filter(Unfilter(s, prior, ft, bpp), prior, ft, bpp) == s
  {
    if 1 <= ft <= 4 {
      var r := Unfilter(s, prior, ft, bpp);
      UnfilterRecurrence(s, prior, ft, bpp);
      forall j | 0 <= j < |s|
        ensures Filter(r, prior, ft, bpp)[j] == s[j]
      {
        TakeBack(s[j], Predictor(ft, r, prior, j, bpp));
      }
    }
  }
}
