/**
 EnlargeData: each new pixel blends at most two old columns and two old rows, found by walking
 two pointers along an old line and the line below it.
 */
module BitmapEnlarge {
  import opened Bits
  import opened ScaleWeights
  import opened ScaleAxis
  import opened BitmapFilter

  /** The same weights as for shrinking, with old and new exchanged. */
  function EnlargeFilter(src: seq<seq<Byte>>, w: nat, h: nat, newW: nat, newH: nat): Filter
    requires 1 <= w <= newW && 1 <= h <= newH
  {
    var ax, ay := AxisOf(newW, w, w), AxisOf(newH, h, h);
    Filter(src, w, h, (r: nat, y: nat) => ay.wt(y, r), (c: nat, x: nat) => ax.wt(x, c))
  }

  /** The first x cells get of sample i: its first coefficient, and its second if that is positive. */
  function Given(a: Axis, i: nat, x: nat): nat
  {
    (if a.cell(i) < x then a.first(i) else 0) + (if a.cell(i) + 1 < x && a.second(i) > 0 then a.second(i) else 0)
  }

  lemma {:induction false} FilterXWeights(src: seq<seq<Byte>>, w: nat, h: nat, newW: nat, newH: nat, i: nat, x: nat)
    requires 1 <= w <= newW && 1 <= h <= newH
    ensures EnlargeFilter(src, w, h, newW, newH).XWeights(i, x) == Given(AxisOf(newW, w, w), i, x)
  {
    if x > 0 {
      FilterXWeights(src, w, h, newW, newH, i, x - 1);
      WeightPlaces(newW, w, w, i, x - 1);
    }
  }

  lemma {:induction false} FilterYWeights(src: seq<seq<Byte>>, w: nat, h: nat, newW: nat, newH: nat, i: nat, y: nat)
    requires 1 <= w <= newW && 1 <= h <= newH
    ensures EnlargeFilter(src, w, h, newW, newH).YWeights(i, y) == Given(AxisOf(newH, h, h), i, y)
  {
    if y > 0 {
      FilterYWeights(src, w, h, newW, newH, i, y - 1);
      WeightPlaces(newH, h, h, i, y - 1);
    }
  }

  lemma EnlargeNormal(src: seq<seq<Byte>>, w: nat, h: nat, newW: nat, newH: nat)
    requires 1 <= w <= newW && 1 <= h <= newH
    ensures EnlargeFilter(src, w, h, newW, newH).Normal()
  {
    var f := EnlargeFilter(src, w, h, newW, newH);
    forall i: nat, x: nat ensures f.XWeights(i, x) <= ONE {
      FilterXWeights(src, w, h, newW, newH, i, x);
      EnlargeWeights(newW, w, i);
    }
    forall i: nat, y: nat ensures f.YWeights(i, y) <= ONE {
      FilterYWeights(src, w, h, newW, newH, i, y);
      EnlargeWeights(newH, h, i);
    }
  }

  /** Every enlarged channel lies between the smallest of its contributing channels, less one, and the largest. */
  lemma EnlargedBounds(src: seq<seq<Byte>>, w: nat, h: nat, newW: nat, newH: nat, r: nat, k: nat, lo: nat, hi: nat)
    requires 1 <= w <= newW && 1 <= h <= newH && IsBitmap(src, w, h) && r < newH && k < 3 * newW && lo <= 255
    requires Between(EnlargeFilter(src, w, h, newW, newH), r, k, lo, hi)
    ensures lo - 1 <= EnlargeFilter(src, w, h, newW, newH).Channel(r, k) <= hi
  {
    var f := EnlargeFilter(src, w, h, newW, newH);
    EnlargeNormal(src, w, h, newW, newH);
    ChannelBounds(f, r, k, lo, hi);
    FilterXWeights(src, w, h, newW, newH, k / 3, w);
    FilterYWeights(src, w, h, newW, newH, r, h);
    EnlargeWeights(newW, w, k / 3);
    EnlargeWeights(newH, h, r);
    CrossesInside(newW, w, w, k / 3);
    CrossesInside(newH, h, h, r);
    NearlyWhole(lo, f.XWeights(k / 3, w), f.YWeights(r, h));
  }

  lemma NearlyWhole(lo: nat, s: nat, t: nat)
    requires lo <= 255 && s >= ONE - 1 && t >= ONE - 1
    ensures lo * s * t / SCALE >= lo - 1
  {
    MulMono(lo, ONE - 1, s);
    MulMono(lo * s, ONE - 1, t);
    assert lo * s * t >= lo * 4095 * 4095;
    if lo > 0 {
      assert lo * s * t >= (lo - 1) * SCALE;
    }
  }

  // ---------------------------------------------------------------- four terms

  ghost predicate Across(f: Filter, ax: Axis, ay: Axis)
  {
    f.Valid() && f.Normal() && ax.Valid() && ay.Valid() && f.w == ax.m && f.h == ay.m &&
    (forall c: nat, x: nat :: f.wx(c, x) == ax.wt(x, c)) && (forall r: nat, y: nat :: f.wy(r, y) == ay.wt(y, r))
  }

  /** What an old line gives channel k: from two columns. */
  function Mixed(f: Filter, ax: Axis, r: nat, k: nat, c: nat): nat
    requires f.Valid() && r < f.h && c <= f.w
  {
    var x := ax.cell(k / 3);
    (if x < c then ax.first(k / 3) * f.src[r][3 * x + k % 3] else 0)
    + (if x + 1 < c && ax.second(k / 3) > 0 then ax.second(k / 3) * f.src[r][3 * (x + 1) + k % 3] else 0)
  }

  lemma {:induction false} RowMixed(f: Filter, ax: Axis, ay: Axis, r: nat, k: nat, c: nat)
    requires Across(f, ax, ay) && r < f.h && c <= f.w && k < 3 * ax.n
    ensures f.RowSum(r, k, c) == Mixed(f, ax, r, k, c)
  {
    if c > 0 {
      RowMixed(f, ax, ay, r, k, c - 1);
      assert ax.StepAt(k / 3);
      assert f.wx(k / 3, c - 1) == ax.WeightIn(k / 3, c - 1);
      assert 0 * f.src[r][3 * (c - 1) + k % 3] == 0;
    }
  }

  /** The first y old lines give channel k of new line r what at most two of them do. */
  lemma {:induction false} RowsMixed(f: Filter, ax: Axis, ay: Axis, r: nat, k: nat, y: nat)
    requires Across(f, ax, ay) && r < ay.n && y <= f.h && ay.cell(r) < f.h
    ensures f.RowsSum(r, k, y) ==
            (if ay.cell(r) < y then ay.first(r) * f.RowSum(ay.cell(r), k, f.w) else 0)
            + (if ay.cell(r) + 1 < y && ay.second(r) > 0 then ay.second(r) * f.RowSum(ay.cell(r) + 1, k, f.w) else 0)
  {
    if y > 0 {
      RowsMixed(f, ax, ay, r, k, y - 1);
      assert ay.StepAt(r);
      assert f.wy(r, y - 1) == ay.WeightIn(r, y - 1);
      assert 0 * f.RowSum(y - 1, k, f.w) == 0;
    }
  }

  /** Two values blended with two coefficients, the second only if positive. */
  function Blend(c0: nat, c1: int, a: nat, b: nat): nat
  {
    c0 * a + if c1 > 0 then c1 * b else 0
  }

  /** An old channel, or nothing where the pointer is not read. */
  function At(f: Filter, y: nat, x: nat, i: nat): nat
    requires f.Valid() && i < 3
  {
    if y < f.h && x < f.w then f.src[y][3 * x + i] else 0
  }

  /** The filter, as the code computes it. */
  lemma FourTerms(f: Filter, ax: Axis, ay: Axis, r: nat, k: nat)
    requires Across(f, ax, ay) && r < ay.n && k < 3 * ax.n
    ensures var x, y, x0, x1, i := ax.cell(k / 3), ay.cell(r), ax.first(k / 3), ax.second(k / 3), k % 3;
            f.RowsSum(r, k, f.h) == Blend(ay.first(r), ay.second(r), Blend(x0, x1, At(f, y, x, i), At(f, y, x + 1, i)),
                                          Blend(x0, x1, At(f, y + 1, x, i), At(f, y + 1, x + 1, i)))
    ensures f.RowsSum(r, k, f.h) <= 255 * SCALE
  {
    assert ay.StepAt(r);
    assert ax.StepAt(k / 3);
    RowsMixed(f, ax, ay, r, k, f.h);
    RowMixed(f, ax, ay, ay.cell(r), k, f.w);
    if ay.second(r) > 0 {
      RowMixed(f, ax, ay, ay.cell(r) + 1, k, f.w);
    }
    SumInRange(f, ax, ay, r, k);
  }

  lemma SumInRange(f: Filter, ax: Axis, ay: Axis, r: nat, k: nat)
    requires Across(f, ax, ay) && r < ay.n && k < 3 * ax.n
    ensures f.RowsSum(r, k, f.h) <= 255 * SCALE
  {
    assert Between(f, r, k, 0, 255);
    RowsBounds(f, r, k, f.h, 0, 255);
    ProductBound(255, f.XWeights(k / 3, f.w), f.YWeights(r, f.h));
  }

  // ---------------------------------------------------------------- the code

  /** A weighted value, if both coefficients are positive. */
  function Term(a: int, b: int, v: nat): (t: nat)
    ensures a >= 0 && b >= 0 ==> t == a * b * v
  {
    if a > 0 && b > 0 then MulPositive(a, b, v); a * b * v else
    assert a == 0 ==> a * b * v == 0;
    assert b == 0 ==> a * b * v == 0;
    0
  }

  lemma MulPositive(a: nat, b: nat, v: nat)
    ensures a * b * v >= 0
  {
  }

  /** Add a weighted value in 32-bit arithmetic. */
  method AddTerm(tmp: nat, a: int, b: int, v: nat) returns (sum: nat)
    requires a >= 0 && b >= 0 && tmp + Term(a, b, v) < U32
    ensures sum == tmp + Term(a, b, v)
  {
    sum := (tmp + a * b * v) % U32;
  }

  /** One channel; values that do not count are not read. */
  method BlendChannel(x0: nat, x1: int, y0: nat, y1: int, up: Byte, upNext: Byte, down: Byte, downNext: Byte) returns (v: Byte)
    requires Blend(y0, y1, Blend(x0, x1, up, upNext), Blend(x0, x1, down, downNext)) <= 255 * SCALE
    ensures v as int == Blend(y0, y1, Blend(x0, x1, up, upNext), Blend(x0, x1, down, downNext)) / SCALE
  {
    BlendTerms(x0, x1, y0, y1, up, upNext, down, downNext);
    var tmp := AddTerm(0, x0, y0, up);
    if x1 > 0 {
      tmp := AddTerm(tmp, x1, y0, upNext);
    }
    if y1 > 0 {
      tmp := AddTerm(tmp, x0, y1, down);
      if x1 > 0 {
        tmp := AddTerm(tmp, x1, y1, downNext);
      }
    }
    v := tmp / SCALE;
  }

  lemma BlendTerms(x0: nat, x1: int, y0: nat, y1: int, up: nat, upNext: nat, down: nat, downNext: nat)
    ensures Blend(y0, y1, Blend(x0, x1, up, upNext), Blend(x0, x1, down, downNext)) ==
            Term(x0, y0, up) + Term(x1, y0, upNext) + Term(x0, y1, down) + Term(x1, y1, downNext)
  {
    BlendRow(x0, x1, y0, up, upNext);
    BlendRow(x0, x1, y1, down, downNext);
  }

  lemma BlendRow(x0: nat, x1: int, y: int, a: nat, b: nat)
    ensures (if y > 0 then y * Blend(x0, x1, a, b) else 0) == Term(x0, y, a) + Term(x1, y, b)
    ensures y == 0 ==> y * Blend(x0, x1, a, b) == 0
  {
    MulAdd(y, x0 * a, if x1 > 0 then x1 * b else 0);
    MulSwap(y, x0, a);
    MulAssoc(x0, y, a);
    MulSwap(y, x1, b);
    MulAssoc(x1, y, b);
    assert y * 0 == 0 && 0 * y * a == 0;
  }

  /** Three channels of a new pixel, from the pixels at the old and new positions of the upper and lower pointers. */
  method EnlargePixel(src: seq<seq<Byte>>, upRow: nat, upOld: nat, up: nat, downRow: int, downOld: int, down: int,
                      x0: nat, x1: int, y0: nat, y1: int, out: array2<Byte>, r: nat, c: nat, ghost f: Filter, ghost ax: Axis, ghost ay: Axis)
    requires Across(f, ax, ay) && src == f.src && r < ay.n && c < ax.n && r < out.Length0 && 3 * ax.n <= out.Length1
    requires x0 == ax.first(c) && x1 == ax.second(c) && y0 == ay.first(r) && y1 == ay.second(r)
    requires upRow == ay.cell(r) && upOld == ax.cell(c) && up == ax.cell(c + 1)
    requires y1 > 0 ==> downRow == upRow + 1 && downOld == upOld && down == up
    modifies out
    ensures forall k: nat :: 3 * c <= k < 3 * c + 3 ==> out[r, k] as int == f.Channel(r, k)
    ensures forall j: nat, k: nat :: j < out.Length0 && k < out.Length1 && (j != r || !(3 * c <= k < 3 * c + 3)) ==> out[j, k] == old(out[j, k])
  {
    assert ax.StepAt(c) && ay.StepAt(r);
    for i := 0 to 3
      invariant forall k: nat :: 3 * c <= k < 3 * c + i ==> out[r, k] as int == f.Channel(r, k)
      invariant forall j: nat, k: nat :: j < out.Length0 && k < out.Length1 && (j != r || !(3 * c <= k < 3 * c + i)) ==> out[j, k] == old(out[j, k])
    {
      ghost var k: nat := 3 * c + i;
      assert k / 3 == c && k % 3 == i;
      FourTerms(f, ax, ay, r, k);
      var b: Byte := if x1 > 0 then src[upRow][3 * up + i] else 0;
      var d: Byte := if y1 > 0 then src[downRow][3 * downOld + i] else 0;
      var e: Byte := if y1 > 0 && x1 > 0 then src[downRow][3 * down + i] else 0;
      var v := BlendChannel(x0, x1, y0, y1, src[upRow][3 * upOld + i], b, d, e);
      out[r, 3 * c + i] := v;
    }
  }

  /** One new row: exactly newW pixels.  The lower pointer runs along; it is read only if the row crosses over. */
  method EnlargeRow(src: seq<seq<Byte>>, rowCoeff: array2<int>, upRow: nat, downRow: int, down0: int, y0: nat, y1: int, w: nat,
                    out: array2<Byte>, r: nat, ghost f: Filter, ghost ax: Axis, ghost ay: Axis)
    returns (cols: nat, down: int)
    requires Across(f, ax, ay) && src == f.src && w == f.w && r < ay.n && r < out.Length0 && 3 * ax.n <= out.Length1 && ax.IsTable(rowCoeff)
    requires y0 == ay.first(r) && y1 == ay.second(r) && upRow == ay.cell(r) && (y1 > 0 ==> downRow == upRow + 1 && down0 == 0)
    modifies out
    ensures cols == ax.n
    ensures forall k: nat :: k < 3 * ax.n ==> out[r, k] as int == f.Channel(r, k)
    ensures forall j: nat, k: nat :: j < out.Length0 && k < out.Length1 && (j != r || k >= 3 * ax.n) ==> out[j, k] == old(out[j, k])
  {
    var x: nat, up: nat := 0, 0;
    cols, down := 0, down0;
    while x < w
      invariant cols <= ax.n && x == up == ax.cell(cols) && x <= w && (y1 > 0 ==> down == up)
      invariant forall k: nat :: k < 3 * cols ==> out[r, k] as int == f.Channel(r, k)
      invariant forall j: nat, k: nat :: j < out.Length0 && k < out.Length1 && (j != r || k >= 3 * cols) ==> out[j, k] == old(out[j, k])
      decreases ax.n - cols
    {
      assert ax.StepAt(cols);
      var upOld, downOld := up, down;
      if rowCoeff[cols, 1] != 0 {
        x := x + 1;
        up := up + 1;
        down := down + 1;
      }
      EnlargePixel(src, upRow, upOld, up, downRow, downOld, down, rowCoeff[cols, 0], rowCoeff[cols, 1], y0, y1, out, r, cols, f, ax, ay);
      cols := cols + 1;
    }
    ax.Complete(cols);
  }

  /** The first r new rows hold the filter's channels, and nothing else has changed. */
  twostate predicate RowsWritten(out: array2<Byte>, newW: nat, f: Filter, r: nat)
    requires f.Valid()
    reads out
  {
    forall i: nat, k: nat :: i < out.Length0 && k < out.Length1 ==>
      if i < r && k < 3 * newW then out[i, k] as int == f.Channel(i, k) else out[i, k] == old(out[i, k])
  }

  /** The new rows in turn. */
  method EnlargeRows(src: seq<seq<Byte>>, rowCoeff: array2<int>, colCoeff: array2<int>, w: nat, h: nat, out: array2<Byte>,
                     ghost f: Filter, ghost ax: Axis, ghost ay: Axis)
    returns (rows: nat)
    requires Across(f, ax, ay) && src == f.src && w == f.w && h == f.h && ax.IsTable(rowCoeff) && ay.IsTable(colCoeff)
    requires out.Length0 == ay.n && 3 * ax.n <= out.Length1
    modifies out
    ensures rows == ay.n && RowsWritten(out, ax.n, f, rows)
  {
    var y: nat := 0;
    var downRow: int, down: int := 0, 0;
    rows := 0;
    while y < h
      invariant rows <= ay.n && y == ay.cell(rows) && y <= h && RowsWritten(out, ax.n, f, rows)
      decreases ay.n - rows
    {
      assert ay.StepAt(rows);
      var upRow := y;
      if colCoeff[rows, 1] != 0 {
        y := y + 1;
        downRow, down := y, 0;
      }
      var n;
      n, down := EnlargeRow(src, rowCoeff, upRow, downRow, down, colCoeff[rows, 0], colCoeff[rows, 1], w, out, rows, f, ax, ay);
      rows := rows + 1;
    }
    ay.Complete(rows);
  }

  lemma EnlargeAcross(src: seq<seq<Byte>>, w: nat, h: nat, newW: nat, newH: nat)
    requires 1 <= w <= newW && 1 <= h <= newH && Exact(newW, w, w) && Exact(newH, h, h) && IsBitmap(src, w, h)
    ensures Across(EnlargeFilter(src, w, h, newW, newH), AxisOf(newW, w, w), AxisOf(newH, h, h))
  {
    AxisValid(newW, w, w);
    AxisValid(newH, h, h);
    EnlargeNormal(src, w, h, newW, newH);
  }

  /** EnlargeData: every new row has exactly newW pixels, all of them the filter's; the padding is untouched. */
  method EnlargeData(src: seq<seq<Byte>>, w: nat, h: nat, out: array2<Byte>, newW: nat, newH: nat) returns (rows: nat)
    requires 1 <= w <= newW && 1 <= h <= newH && Exact(newW, w, w) && Exact(newH, h, h)
    requires IsBitmap(src, w, h) && out.Length0 == newH && out.Length1 == LineBytes(newW)
    modifies out
    ensures rows == newH
    ensures Scaled(out, newW, newH, EnlargeFilter(src, w, h, newW, newH)) && RestUnchanged(out, newW, newH)
  {
    EnlargeAcross(src, w, h, newW, newH);
    ghost var f, ax, ay := EnlargeFilter(src, w, h, newW, newH), AxisOf(newW, w, w), AxisOf(newH, h, h);
    var rowCoeff := CreateCoeffInt(newW, w, false);
    var colCoeff := CreateCoeffInt(newH, h, false);
    rows := EnlargeRows(src, rowCoeff, colCoeff, w, h, out, f, ax, ay);
  }
}
