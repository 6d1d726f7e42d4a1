/**
 What scaling a bitmap means: every channel of a new pixel is a sum over all old pixels of row
 weight times column weight times value, in fixed point with 24 fraction bits.
 */
module BitmapFilter {
  import opened Bits
  import opened ScaleWeights

  const SCALE := 0x100_0000
  const U32 := 0x1_0000_0000

  /** Bytes in a line of w pixels, rounded up to whole words. */
  function LineBytes(w: nat): (r: nat)
    ensures 3 * w <= r < 3 * w + 4 && r % 4 == 0
  {
    (3 * w + 3) / 4 * 4
  }

  /** h lines of w pixels, three channels each. */
  predicate IsBitmap(src: seq<seq<Byte>>, w: nat, h: nat)
  {
    |src| == h && forall r :: 0 <= r < h ==> |src[r]| == LineBytes(w)
  }

  /** wy(y, r) is the weight of old row r in new row y; wx(x, c) that of old column c in new column x. */
  datatype Filter = Filter(src: seq<seq<Byte>>, w: nat, h: nat, wy: (nat, nat) -> nat, wx: (nat, nat) -> nat)
  {
    predicate Valid() { IsBitmap(src, w, h) }

    /** The part of the first c pixels of old row r in channel k of a new line; k / 3 is its column. */
    function RowSum(r: nat, k: nat, c: nat): nat
      requires Valid() && r < h && c <= w
      decreases c
    {
      if c == 0 then 0 else RowSum(r, k, c - 1) + wx(k / 3, c - 1) * src[r][3 * (c - 1) + k % 3]
    }

    /** The part of the first r old rows in channel k of new line y. */
    function RowsSum(y: nat, k: nat, r: nat): nat
      requires Valid() && r <= h
      decreases r
    {
      if r == 0 then 0 else RowsSum(y, k, r - 1) + wy(y, r - 1) * RowSum(r - 1, k, w)
    }

    /** A channel of the new bitmap. */
    function Channel(y: nat, k: nat): nat
      requires Valid()
    {
      RowsSum(y, k, h) / SCALE
    }

    function XWeights(x: nat, c: nat): nat
    {
      if c == 0 then 0 else XWeights(x, c - 1) + wx(x, c - 1)
    }

    function YWeights(y: nat, r: nat): nat
    {
      if r == 0 then 0 else YWeights(y, r - 1) + wy(y, r - 1)
    }

    /** No new row or column has more than its full weight, at any point. */
    ghost predicate Normal()
    {
      (forall x: nat, c: nat :: XWeights(x, c) <= ONE) && (forall y: nat, r: nat :: YWeights(y, r) <= ONE)
    }
  }

  /** A bitmap in which only channel q of the pixel in row r0 and column c0 is not zero. */
  predicate OnePixel(f: Filter, r0: nat, c0: nat, q: nat)
    requires f.Valid()
  {
    r0 < f.h && c0 < f.w && q < 3 &&
    forall r: nat, j: nat :: r < f.h && j < 3 * f.w && (r != r0 || j != 3 * c0 + q) ==> f.src[r][j] == 0
  }

  lemma {:induction false} RowOfOnePixel(f: Filter, r0: nat, c0: nat, q: nat, r: nat, k: nat, c: nat)
    requires f.Valid() && OnePixel(f, r0, c0, q) && r < f.h && c <= f.w
    ensures f.RowSum(r, k, c) == if r == r0 && c > c0 && k % 3 == q then f.wx(k / 3, c0) * f.src[r0][3 * c0 + q] else 0
  {
    if c > 0 { RowOfOnePixel(f, r0, c0, q, r, k, c - 1); }
  }

  lemma {:induction false} RowsOfOnePixel(f: Filter, r0: nat, c0: nat, q: nat, y: nat, k: nat, r: nat)
    requires f.Valid() && OnePixel(f, r0, c0, q) && r <= f.h
    ensures f.RowsSum(y, k, r) == if r > r0 && k % 3 == q then f.wy(y, r0) * (f.wx(k / 3, c0) * f.src[r0][3 * c0 + q]) else 0
  {
    if r > 0 {
      RowsOfOnePixel(f, r0, c0, q, y, k, r - 1);
      RowOfOnePixel(f, r0, c0, q, r - 1, k, f.w);
    }
  }

  /** A pixel reaches only its own channel of each new pixel, with the weights of its row and its column there. */
  lemma OnePixelSpread(f: Filter, r0: nat, c0: nat, q: nat, y: nat, x: nat, p: nat)
    requires f.Valid() && OnePixel(f, r0, c0, q) && p < 3
    ensures f.Channel(y, 3 * x + p) == if p == q then f.wy(y, r0) * (f.wx(x, c0) * f.src[r0][3 * c0 + q]) / 0x100_0000 else 0
  {
    DivModUnique(3 * x + p, 3, x, p);
    RowsOfOnePixel(f, r0, c0, q, y, 3 * x + p, f.h);
  }

  /** All pixels of the new bitmap are the filter's. */
  ghost predicate Scaled(out: array2<Byte>, newW: nat, newH: nat, f: Filter)
    requires f.Valid()
    reads out
  {
    out.Length0 == newH && out.Length1 == LineBytes(newW) &&
    forall y: nat, k: nat :: y < newH && k < 3 * newW ==> out[y, k] as int == f.Channel(y, k)
  }

  /** Everything but the pixels of the first y lines is as it was. */
  twostate predicate RestUnchanged(out: array2<Byte>, newW: nat, y: nat)
    reads out
  {
    forall i: nat, k: nat :: i < out.Length0 && k < out.Length1 && (i >= y || k >= 3 * newW) ==> out[i, k] == old(out[i, k])
  }

  /** The channels that count in channel k of new line y lie between lo and hi. */
  ghost predicate Between(f: Filter, y: nat, k: nat, lo: nat, hi: nat)
    requires f.Valid()
  {
    forall r: nat, c: nat :: r < f.h && c < f.w && f.wy(y, r) > 0 && f.wx(k / 3, c) > 0 ==> lo <= f.src[r][3 * c + k % 3] <= hi
  }

  lemma {:induction false} RowBounds(f: Filter, y: nat, r: nat, k: nat, c: nat, lo: nat, hi: nat)
    requires f.Valid() && r < f.h && c <= f.w && Between(f, y, k, lo, hi) && f.wy(y, r) > 0
    ensures lo * f.XWeights(k / 3, c) <= f.RowSum(r, k, c) <= hi * f.XWeights(k / 3, c)
  {
    if c > 0 {
      RowBounds(f, y, r, k, c - 1, lo, hi);
      var wt, v := f.wx(k / 3, c - 1), f.src[r][3 * (c - 1) + k % 3];
      WeightedBounds(wt, v, lo, hi);
      MulAdd(lo, f.XWeights(k / 3, c - 1), wt);
      MulAdd(hi, f.XWeights(k / 3, c - 1), wt);
    } else {
      assert lo * 0 == 0 && hi * 0 == 0;
    }
  }

  lemma WeightedBounds(wt: nat, v: nat, lo: nat, hi: nat)
    requires wt > 0 ==> lo <= v <= hi
    ensures lo * wt <= wt * v <= hi * wt
  {
    if wt == 0 {
      assert lo * wt == 0 && wt * v == 0 && hi * wt == 0;
    } else {
      MulMono(wt, lo, v);
      MulMono(wt, v, hi);
    }
  }

  lemma {:induction false} RowsBoundsFrom(f: Filter, y: nat, k: nat, r: nat, a: nat, b: nat)
    requires f.Valid() && r <= f.h && forall i: nat :: i < f.h && f.wy(y, i) > 0 ==> a <= f.RowSum(i, k, f.w) <= b
    ensures a * f.YWeights(y, r) <= f.RowsSum(y, k, r) <= b * f.YWeights(y, r)
  {
    if r > 0 {
      RowsBoundsFrom(f, y, k, r - 1, a, b);
      BoundsExtend(a, b, f.YWeights(y, r - 1), f.RowsSum(y, k, r - 1), f.wy(y, r - 1), f.RowSum(r - 1, k, f.w));
    } else {
      assert a * 0 == 0 && b * 0 == 0;
    }
  }

  lemma RowsBounds(f: Filter, y: nat, k: nat, r: nat, lo: nat, hi: nat)
    requires f.Valid() && r <= f.h && Between(f, y, k, lo, hi)
    ensures lo * f.XWeights(k / 3, f.w) * f.YWeights(y, r) <= f.RowsSum(y, k, r) <= hi * f.XWeights(k / 3, f.w) * f.YWeights(y, r)
  {
    forall i: nat | i < f.h && f.wy(y, i) > 0
      ensures lo * f.XWeights(k / 3, f.w) <= f.RowSum(i, k, f.w) <= hi * f.XWeights(k / 3, f.w)
    {
      RowBounds(f, y, i, k, f.w, lo, hi);
    }
    RowsBoundsFrom(f, y, k, r, lo * f.XWeights(k / 3, f.w), hi * f.XWeights(k / 3, f.w));
  }

  lemma BoundsExtend(a: nat, b: nat, t: nat, sum: nat, wt: nat, v: nat)
    requires a * t <= sum <= b * t && (wt > 0 ==> a <= v <= b)
    ensures a * (t + wt) <= sum + wt * v <= b * (t + wt)
  {
    WeightedBounds(wt, v, a, b);
    MulAdd(a, t, wt);
    MulAdd(b, t, wt);
  }

  lemma ProductBound(hi: nat, s: nat, t: nat)
    requires s <= ONE && t <= ONE
    ensures hi * s * t <= hi * SCALE
  {
    MulMono(hi * s, t, ONE);
    MulMono(hi, s, ONE);
  }

  /**
   A new channel lies between what the weights leave of the smallest of the channels that count
   and the largest of them, whatever the weights.
   */
  lemma ChannelBounds(f: Filter, y: nat, k: nat, lo: nat, hi: nat)
    requires f.Valid() && f.Normal() && Between(f, y, k, lo, hi)
    ensures lo * f.XWeights(k / 3, f.w) * f.YWeights(y, f.h) / SCALE <= f.Channel(y, k) <= hi
  {
    RowsBounds(f, y, k, f.h, lo, hi);
    ProductBound(hi, f.XWeights(k / 3, f.w), f.YWeights(y, f.h));
  }

  /** No partial sum overflows 32 bits. */
  lemma PartialBounds(f: Filter, y: nat, k: nat, r: nat, c: nat)
    requires f.Valid() && f.Normal() && r < f.h && c <= f.w
    ensures f.RowsSum(y, k, r) + f.wy(y, r) * f.RowSum(r, k, c) <= 255 * SCALE
  {
    assert Between(f, y, k, 0, 255);
    RowsBounds(f, y, k, r, 0, 255);
    var s := f.XWeights(k / 3, f.w);
    XWeightsMono(f, k / 3, c, f.w);
    MulMono(255, f.XWeights(k / 3, c), s);
    if f.wy(y, r) > 0 {
      RowBounds(f, y, r, k, c, 0, 255);
    }
    BoundsExtend(0, 255 * s, f.YWeights(y, r), f.RowsSum(y, k, r), f.wy(y, r), f.RowSum(r, k, c));
    assert f.YWeights(y, r + 1) == f.YWeights(y, r) + f.wy(y, r);
    ProductBound(255, s, f.YWeights(y, r + 1));
  }

  lemma {:induction false} XWeightsMono(f: Filter, x: nat, c: nat, d: nat)
    requires c <= d
    ensures f.XWeights(x, c) <= f.XWeights(x, d)
  {
    if c < d {
      XWeightsMono(f, x, c, d - 1);
    }
  }
}
