/** ScaleBitmap: shrink or enlarge, with one meaning for both. */
module BitmapScaler {
  import opened Bits
  import opened ScaleWeights
  import opened BitmapFilter
  import opened BitmapShrink
  import opened BitmapEnlarge

  /** Neither side is enlarged, or neither is shrunk. */
  predicate SameDirection(w: nat, h: nat, newW: nat, newH: nat)
  {
    !(w > newW && h < newH) && !(h > newH && w < newW)
  }

  /** Old and new length of a side suit the 12-bit coefficients. */
  predicate ExactSide(size: nat, newSize: nat)
    requires size >= 1 && newSize >= 1
  {
    if newSize <= size then Exact(size, newSize, size) else Exact(newSize, size, size)
  }

  function ScaleFilter(src: seq<seq<Byte>>, w: nat, h: nat, newW: nat, newH: nat): Filter
    requires 1 <= w && 1 <= h && SameDirection(w, h, newW, newH)
  {
    if newW <= w && newH <= h then ShrinkFilter(src, w, h, newW, newH) else EnlargeFilter(src, w, h, newW, newH)
  }

  /** 0, and no bitmap, exactly for a mixed request; otherwise the filtered bitmap. */
  method ScaleBitmap(src: seq<seq<Byte>>, w: nat, h: nat, newW: nat, newH: nat) returns (ret: int, out: array2?<Byte>)
    requires w >= 1 && h >= 1 && newW >= 1 && newH >= 1 && IsBitmap(src, w, h) && ExactSide(w, newW) && ExactSide(h, newH)
    ensures ret == if SameDirection(w, h, newW, newH) then 1 else 0
    ensures ret == 0 ==> out == null
    ensures ret == 1 ==> out != null && fresh(out) && Scaled(out, newW, newH, ScaleFilter(src, w, h, newW, newH))
  {
    if w > newW && h < newH {
      return 0, null;
    }
    if h > newH && w < newW {
      return 0, null;
    }
    var image := new Byte[newH, LineBytes(newW)]((_, _) => 0);
    if w >= newW && h >= newH {
      var used := ShrinkData(src, w, h, image, newW, newH);
    } else {
      var rows := EnlargeData(src, w, h, image, newW, newH);
    }
    ret, out := 1, image;
  }

  // ---------------------------------------------------------------- what the weights are, in both directions

  /**
   Lay the w old and the newW new columns over the same length of w * newW units: the weight of old column c
   in new column x is the 4096-fold of what they share, from lo to hi, over the w units of a new column.
   */
  lemma ColumnWeights(src: seq<seq<Byte>>, w: nat, h: nat, newW: nat, newH: nat, c: nat, x: nat, lo: nat, hi: nat)
    requires w >= 1 && h >= 1 && newW >= 1 && newH >= 1 && SameDirection(w, h, newW, newH)
    requires c * newW <= lo && x * w <= lo && (lo == c * newW || lo == x * w)
    requires hi <= c * newW + newW && hi <= x * w + w && (hi == c * newW + newW || hi == x * w + w)
    ensures ScaleFilter(src, w, h, newW, newH).wx(x, c) == if lo < hi then (hi - lo) * 4096 / w else 0
  {
    if newW <= w && newH <= h {
      WeightIsOverlap(w, newW, w, c, x, lo, hi);
    } else {
      WeightIsOverlap(newW, w, w, x, c, lo, hi);
    }
  }

  /** The rows likewise. */
  lemma RowWeights(src: seq<seq<Byte>>, w: nat, h: nat, newW: nat, newH: nat, r: nat, y: nat, lo: nat, hi: nat)
    requires w >= 1 && h >= 1 && newW >= 1 && newH >= 1 && SameDirection(w, h, newW, newH)
    requires r * newH <= lo && y * h <= lo && (lo == r * newH || lo == y * h)
    requires hi <= r * newH + newH && hi <= y * h + h && (hi == r * newH + newH || hi == y * h + h)
    ensures ScaleFilter(src, w, h, newW, newH).wy(y, r) == if lo < hi then (hi - lo) * 4096 / h else 0
  {
    if newW <= w && newH <= h {
      WeightIsOverlap(h, newH, h, r, y, lo, hi);
    } else {
      WeightIsOverlap(newH, h, h, y, r, lo, hi);
    }
  }

  // ---------------------------------------------------------------- scaling to the same size

  lemma UnitWeight(n: nat, i: nat, x: nat)
    requires n >= 1
    ensures Weight(n, n, n, i, x) == if x == i then ONE else 0
  {
    DivModUnique(i * n, n, i, 0);
    Overlaps(n, n, i, x);
    DivModUnique(n * ONE, n, ONE, 0);
    ZeroDiv(n);
  }

  /** Each new row or column is the old one. */
  ghost predicate Unit(wt: (nat, nat) -> nat)
  {
    forall x: nat, c: nat :: wt(x, c) == if x == c then ONE else 0
  }

  lemma {:induction false} UnitRow(f: Filter, r: nat, k: nat, c: nat)
    requires f.Valid() && Unit(f.wx) && r < f.h && c <= f.w && k < 3 * f.w
    ensures f.RowSum(r, k, c) == if k / 3 < c then ONE * f.src[r][k] else 0
  {
    if c > 0 { UnitRow(f, r, k, c - 1); }
  }

  lemma {:induction false} UnitRows(f: Filter, y: nat, k: nat, r: nat)
    requires f.Valid() && Unit(f.wx) && Unit(f.wy) && r <= f.h && y < f.h && k < 3 * f.w
    ensures f.RowsSum(y, k, r) == if y < r then SCALE * f.src[y][k] else 0
  {
    if r > 0 {
      UnitRows(f, y, k, r - 1);
      UnitRow(f, r - 1, k, f.w);
    }
  }

  lemma ShrinkIsUnit(src: seq<seq<Byte>>, w: nat, h: nat)
    requires w >= 1 && h >= 1
    ensures Unit(ShrinkFilter(src, w, h, w, h).wx) && Unit(ShrinkFilter(src, w, h, w, h).wy)
  {
    var f := ShrinkFilter(src, w, h, w, h);
    forall x: nat, c: nat ensures f.wx(x, c) == (if x == c then ONE else 0) && f.wy(x, c) == if x == c then ONE else 0 {
      UnitWeight(w, c, x);
      UnitWeight(h, c, x);
    }
  }

  /** Scaling to the same size changes nothing, for every size. */
  lemma SameSize(src: seq<seq<Byte>>, w: nat, h: nat, y: nat, k: nat)
    requires w >= 1 && h >= 1 && IsBitmap(src, w, h) && y < h && k < 3 * w
    ensures ExactSide(w, w) && ExactSide(h, h)
    ensures ScaleFilter(src, w, h, w, h).Channel(y, k) == src[y][k]
  {
    ShrinkIsUnit(src, w, h);
    UnitRows(ShrinkFilter(src, w, h, w, h), y, k, h);
  }
}
