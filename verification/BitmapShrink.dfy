/**
 ShrinkData: one pass over the old pixels.  Two line buffers collect the sums of the current new
 line and of the next; each old pixel counts in at most two new columns and two new rows.
 */
module BitmapShrink {
  import opened Bits
  import opened ScaleWeights
  import opened ScaleAxis
  import opened BitmapFilter

  /** The box filter that shrinking computes. */
  function ShrinkFilter(src: seq<seq<Byte>>, w: nat, h: nat, newW: nat, newH: nat): Filter
    requires w >= 1 && h >= 1
  {
    Filter(src, w, h, AxisOf(h, newH, h).wt, AxisOf(w, newW, w).wt)
  }

  lemma {:induction false} FilterXWeights(src: seq<seq<Byte>>, w: nat, h: nat, newW: nat, newH: nat, x: nat, c: nat)
    requires w >= 1 && h >= 1
    ensures ShrinkFilter(src, w, h, newW, newH).XWeights(x, c) == WeightSum(w, newW, w, x, c)
  {
    if c > 0 { FilterXWeights(src, w, h, newW, newH, x, c - 1); }
  }

  lemma {:induction false} FilterYWeights(src: seq<seq<Byte>>, w: nat, h: nat, newW: nat, newH: nat, y: nat, r: nat)
    requires w >= 1 && h >= 1
    ensures ShrinkFilter(src, w, h, newW, newH).YWeights(y, r) == WeightSum(h, newH, h, y, r)
  {
    if r > 0 { FilterYWeights(src, w, h, newW, newH, y, r - 1); }
  }

  lemma ShrinkNormal(src: seq<seq<Byte>>, w: nat, h: nat, newW: nat, newH: nat)
    requires 1 <= newW <= w && 1 <= newH <= h
    ensures ShrinkFilter(src, w, h, newW, newH).Normal()
  {
    var f := ShrinkFilter(src, w, h, newW, newH);
    forall x: nat, c: nat ensures f.XWeights(x, c) <= ONE {
      FilterXWeights(src, w, h, newW, newH, x, c);
      PartialWeights(w, newW, x, c);
    }
    forall y: nat, r: nat ensures f.YWeights(y, r) <= ONE {
      FilterYWeights(src, w, h, newW, newH, y, r);
      PartialWeights(h, newH, y, r);
    }
  }

  // ---------------------------------------------------------------- the sums

  /** A filter whose old columns and rows are the samples of two axes. */
  ghost predicate Along(f: Filter, ax: Axis, ay: Axis)
  {
    f.Valid() && f.Normal() && ax.Valid() && ay.Valid() && f.wx == ax.wt && f.wy == ay.wt && f.w == ax.n && f.h == ay.n
  }

  /** Channel k of new line y after r whole old rows and c pixels of the next. */
  function Acc(f: Filter, y: nat, r: nat, c: nat, k: nat): nat
    requires f.Valid() && r <= f.h && c <= f.w && (c > 0 ==> r < f.h)
  {
    f.RowsSum(y, k, r) + if c > 0 then f.wy(y, r) * f.RowSum(r, k, c) else 0
  }

  lemma AccNext(f: Filter, y: nat, r: nat, c: nat, k: nat)
    requires f.Valid() && f.Normal() && r < f.h && c < f.w
    ensures Acc(f, y, r, c + 1, k) == Acc(f, y, r, c, k) + f.wx(k / 3, c) * f.wy(y, r) * f.src[r][3 * c + k % 3]
    ensures Acc(f, y, r, c + 1, k) <= 255 * SCALE
  {
    PartialBounds(f, y, k, r, c + 1);
    var wy, wx, v, s := f.wy(y, r), f.wx(k / 3, c), f.src[r][3 * c + k % 3], f.RowSum(r, k, c);
    MulAdd(wy, s, wx * v);
    MulSwap(wy, wx, v);
    MulAssoc(wx, wy, v);
    if c == 0 { assert wy * 0 == 0; }
  }

  lemma AccRow(f: Filter, y: nat, r: nat, k: nat)
    requires f.Valid() && r < f.h
    ensures Acc(f, y, r, f.w, k) == Acc(f, y, r + 1, 0, k)
  {
    if f.w == 0 { assert f.wy(y, r) * 0 == 0; }
  }

  /** Old rows that begin beyond new line y add nothing to it. */
  lemma {:induction false} LineComplete(f: Filter, ax: Axis, ay: Axis, y: nat, k: nat, r: nat, r': nat)
    requires Along(f, ax, ay) && r <= r' <= f.h && ay.cell(r) > y
    ensures f.RowsSum(y, k, r') == f.RowsSum(y, k, r)
  {
    if r < r' {
      LineComplete(f, ax, ay, y, k, r, r' - 1);
      ay.Monotone(r, r' - 1);
      assert ay.StepAt(r' - 1);
      assert f.wy(y, r' - 1) == 0;
      assert 0 * f.RowSum(r' - 1, k, f.w) == 0;
    }
  }

  /** Old rows that end before new line y have added nothing to it. */
  lemma {:induction false} LineEmpty(f: Filter, ax: Axis, ay: Axis, y: nat, k: nat, r: nat)
    requires Along(f, ax, ay) && r <= f.h && (r == 0 || ay.cell(r - 1) + 1 < y)
    ensures f.RowsSum(y, k, r) == 0
  {
    if r > 0 {
      if r > 1 { ay.Monotone(r - 2, r - 1); }
      LineEmpty(f, ax, ay, y, k, r - 1);
      assert ay.StepAt(r - 1);
      assert f.wy(y, r - 1) == 0;
      assert 0 * f.RowSum(r - 1, k, f.w) == 0;
    }
  }

  // ---------------------------------------------------------------- the line buffers

  /** The len entries of the buffer from at on hold the sums for new line y. */
  ghost predicate Holds(buff: array<nat>, at: nat, len: nat, f: Filter, y: nat, r: nat, c: nat)
    requires f.Valid() && r <= f.h && c <= f.w && (c > 0 ==> r < f.h) && at + len <= buff.Length
    reads buff
  {
    forall j :: at <= j < at + len ==> buff[j] == Acc(f, y, r, c, j - at)
  }

  /** What a weighted pixel of column x adds to channel k of a line. */
  function Part(k: nat, x: nat, weight: nat, pix: seq<Byte>): nat
    requires |pix| == 3
  {
    if k / 3 == x then weight * pix[k % 3] else 0
  }

  /** Add a weighted pixel to the three sums of a column, in 32-bit arithmetic. */
  method AddTriple(buff: array<nat>, line: nat, len: nat, x: nat, weight: nat, pix: seq<Byte>)
    requires |pix| == 3 && 3 * x + 3 <= len && line + len <= buff.Length
    requires forall j :: line <= j < line + len ==> buff[j] + Part(j - line, x, weight, pix) < U32
    modifies buff
    ensures forall j :: line <= j < line + len ==> buff[j] == old(buff[j]) + Part(j - line, x, weight, pix)
    ensures forall j :: 0 <= j < buff.Length && !(line <= j < line + len) ==> buff[j] == old(buff[j])
  {
    var at := line + 3 * x;
    for i := 0 to 3
      invariant forall j :: at <= j < at + i ==> buff[j] == old(buff[j]) + weight * pix[j - at]
      invariant forall j :: 0 <= j < buff.Length && !(at <= j < at + i) ==> buff[j] == old(buff[j])
    {
      assert buff[at + i] + Part(at + i - line, x, weight, pix) < U32;
      buff[at + i] := (buff[at + i] + weight * pix[i]) % U32;
    }
  }

  /** One pixel's share of a channel: through its first coefficient in its own column, through its second in the next. */
  lemma PixelParts(f: Filter, ax: Axis, ay: Axis, y: nat, r: nat, c: nat, k: nat)
    requires Along(f, ax, ay) && r < f.h && c < f.w
    ensures var pix, wy, x, x1 := f.src[r][3 * c..3 * c + 3], f.wy(y, r), ax.cell(c), Max(0, ax.second(c));
            Acc(f, y, r, c + 1, k) == Acc(f, y, r, c, k) + Part(k, x, ax.first(c) * wy, pix) + Part(k, x + 1, x1 * wy, pix) < U32
  {
    assert ax.StepAt(c);
    assert f.wx(k / 3, c) == ax.WeightIn(c, k / 3);
    var pix, wy := f.src[r][3 * c..3 * c + 3], f.wy(y, r);
    assert pix[k % 3] == f.src[r][3 * c + k % 3];
    assert 0 * wy == 0 && 0 * pix[k % 3] == 0;
    AccNext(f, y, r, c, k);
  }

  /** Add a pixel to one line: to its own column and, if it crosses over, to the next. */
  method AddToLine(buff: array<nat>, line: nat, len: nat, x: nat, x0: nat, x1: int, wy: nat, pix: seq<Byte>,
                   ghost f: Filter, ghost ax: Axis, ghost ay: Axis, ghost y: nat, ghost r: nat, ghost c: nat)
    requires Along(f, ax, ay) && r < f.h && c < f.w && len == 3 * ax.m && line + len <= buff.Length
    requires pix == f.src[r][3 * c..3 * c + 3] && x == ax.cell(c) && x0 == ax.first(c) && x1 == ax.second(c) && wy == f.wy(y, r)
    requires Holds(buff, line, len, f, y, r, c)
    modifies buff
    ensures Holds(buff, line, len, f, y, r, c + 1)
    ensures forall j :: 0 <= j < buff.Length && !(line <= j < line + len) ==> buff[j] == old(buff[j])
  {
    assert ax.StepAt(c);
    ghost var p0, p1 := x0 * wy, Max(0, x1) * wy;
    forall k: nat
      ensures Acc(f, y, r, c + 1, k) == Acc(f, y, r, c, k) + Part(k, x, p0, pix) + Part(k, x + 1, p1, pix) < U32
    {
      PixelParts(f, ax, ay, y, r, c, k);
    }
    AddTriple(buff, line, len, x, x0 * wy, pix);
    if x1 > 0 {
      AddTriple(buff, line, len, x + 1, x1 * wy, pix);
    } else {
      NoPart(x + 1, wy, pix);
    }
  }

  lemma NoPart(x: nat, wy: nat, pix: seq<Byte>)
    requires |pix| == 3
    ensures forall k: nat :: Part(k, x, 0 * wy, pix) == 0
  {
  }

  /** Where the two lines lie in the buffer; they change places. */
  predicate LinesApart(curr: nat, next: nat, len: nat, size: nat)
  {
    curr + len <= size && next + len <= size && (curr + len <= next || next + len <= curr)
  }

  /** An old row that does not cross over adds nothing to the line after its own. */
  lemma NoCrossing(buff: array<nat>, at: nat, len: nat, f: Filter, ax: Axis, ay: Axis, r: nat, c: nat)
    requires Along(f, ax, ay) && r < f.h && c < f.w && ay.second(r) <= 0 && at + len <= buff.Length
    requires Holds(buff, at, len, f, ay.cell(r) + 1, r, c)
    ensures Holds(buff, at, len, f, ay.cell(r) + 1, r, c + 1)
  {
    var y := ay.cell(r) + 1;
    assert ay.StepAt(r);
    assert f.wy(y, r) == ay.WeightIn(r, y) == 0;
    forall k: nat
      ensures Acc(f, y, r, c + 1, k) == Acc(f, y, r, c, k)
    {
      AccNext(f, y, r, c, k);
      assert f.wx(k / 3, c) * 0 == 0;
    }
  }

  /** Add a pixel to the current line and, if the row crosses over, to the next. */
  method AddPixel(buff: array<nat>, curr: nat, next: nat, len: nat, x: nat, x0: nat, x1: int, y0: nat, y1: int, pix: seq<Byte>,
                  ghost f: Filter, ghost ax: Axis, ghost ay: Axis, ghost r: nat, ghost c: nat)
    requires Along(f, ax, ay) && r < f.h && c < f.w && len == 3 * ax.m && LinesApart(curr, next, len, buff.Length)
    requires pix == f.src[r][3 * c..3 * c + 3] && x == ax.cell(c) && x0 == ax.first(c) && x1 == ax.second(c)
    requires y0 == ay.first(r) && y1 == ay.second(r)
    requires Holds(buff, curr, len, f, ay.cell(r), r, c) && Holds(buff, next, len, f, ay.cell(r) + 1, r, c)
    modifies buff
    ensures Holds(buff, curr, len, f, ay.cell(r), r, c + 1) && Holds(buff, next, len, f, ay.cell(r) + 1, r, c + 1)
  {
    ghost var y := ay.cell(r);
    assert ay.StepAt(r);
    assert f.wy(y, r) == ay.WeightIn(r, y) && f.wy(y + 1, r) == ay.WeightIn(r, y + 1);
    AddToLine(buff, curr, len, x, x0, x1, y0, pix, f, ax, ay, y, r, c);
    if y1 > 0 {
      AddToLine(buff, next, len, x, x0, x1, y1, pix, f, ax, ay, y + 1, r, c);
    } else {
      NoCrossing(buff, next, len, f, ax, ay, r, c);
    }
  }

  /** One old row, until the new row has all its columns: exactly the pixels of the old row have then been used. */
  method ShrinkRow(line: seq<Byte>, rowCoeff: array2<int>, y0: nat, y1: int, buff: array<nat>, curr: nat, next: nat, newW: nat,
                   ghost f: Filter, ghost ax: Axis, ghost ay: Axis, ghost r: nat)
    returns (used: nat)
    requires Along(f, ax, ay) && r < f.h && newW == ax.m && LinesApart(curr, next, 3 * newW, buff.Length)
    requires line == f.src[r] && ax.IsTable(rowCoeff) && y0 == ay.first(r) && y1 == ay.second(r)
    requires Holds(buff, curr, 3 * newW, f, ay.cell(r), r, 0) && Holds(buff, next, 3 * newW, f, ay.cell(r) + 1, r, 0)
    modifies buff
    ensures used == f.w
    ensures Holds(buff, curr, 3 * newW, f, ay.cell(r), r, f.w) && Holds(buff, next, 3 * newW, f, ay.cell(r) + 1, r, f.w)
  {
    var x: nat := 0;
    used := 0;
    while x < newW
      invariant used <= f.w && x == ax.cell(used) && x <= newW
      invariant Holds(buff, curr, 3 * newW, f, ay.cell(r), r, used) && Holds(buff, next, 3 * newW, f, ay.cell(r) + 1, r, used)
      decreases f.w - used
    {
      assert ax.StepAt(used);
      AddPixel(buff, curr, next, 3 * newW, x, rowCoeff[used, 0], rowCoeff[used, 1], y0, y1, line[3 * used..3 * used + 3],
               f, ax, ay, r, used);
      if rowCoeff[used, 1] != 0 {
        x := x + 1;
      }
      used := used + 1;
    }
    ax.Complete(used);
  }

  /** New line y has been written. */
  ghost predicate LineWritten(out: array2<Byte>, newW: nat, f: Filter, y: nat)
    requires f.Valid() && y < out.Length0 && 3 * newW <= out.Length1
    reads out
  {
    forall k: nat :: k < 3 * newW ==> out[y, k] as int == f.Channel(y, k)
  }

  /** Set a result line: the top byte of each sum. */
  method EmitLine(buff: array<nat>, curr: nat, newW: nat, out: array2<Byte>, y: nat, ghost f: Filter, ghost r: nat)
    requires f.Valid() && f.Normal() && r <= f.h && curr + 3 * newW <= buff.Length && y < out.Length0 && 3 * newW <= out.Length1
    requires Holds(buff, curr, 3 * newW, f, y, r, 0)
    requires forall k: nat :: f.RowsSum(y, k, r) == f.RowsSum(y, k, f.h)
    modifies out
    ensures LineWritten(out, newW, f, y)
    ensures forall i: nat, k: nat :: i < out.Length0 && k < out.Length1 && (i != y || k >= 3 * newW) ==> out[i, k] == old(out[i, k])
  {
    for i := 0 to 3 * newW
      invariant forall k: nat :: k < i ==> out[y, k] as int == f.Channel(y, k)
      invariant forall j: nat, k: nat :: j < out.Length0 && k < out.Length1 && (j != y || k >= i) ==> out[j, k] == old(out[j, k])
    {
      assert buff[curr + i] == Acc(f, y, r, 0, curr + i - curr);
      ChannelIsByte(f, y, i);
      out[y, i] := buff[curr + i] / SCALE;
    }
  }

  lemma ChannelIsByte(f: Filter, y: nat, k: nat)
    requires f.Valid() && f.Normal()
    ensures f.Channel(y, k) <= 255
  {
    assert Between(f, y, k, 0, 255);
    ChannelBounds(f, y, k, 0, 255);
  }

  method ClearLine(buff: array<nat>, at: nat, len: nat)
    requires at + len <= buff.Length
    modifies buff
    ensures forall j :: 0 <= j < buff.Length ==> buff[j] == if at <= j < at + len then 0 else old(buff[j])
  {
    for i := 0 to len
      invariant forall j :: 0 <= j < buff.Length ==> buff[j] == if at <= j < at + i then 0 else old(buff[j])
    {
      buff[at + i] := 0;
    }
  }

  /** The buffers between two old rows. */
  ghost predicate Ready(buff: array<nat>, curr: nat, next: nat, len: nat, f: Filter, y: nat, r: nat)
    requires f.Valid() && r <= f.h
    reads buff
  {
    LinesApart(curr, next, len, buff.Length) && Holds(buff, curr, len, f, y, r, 0) && Holds(buff, next, len, f, y + 1, r, 0)
  }

  /** If the new row is complete, write it and turn to the next: the line buffers change places. */
  method FinishRow(buff: array<nat>, curr: nat, next: nat, newW: nat, out: array2<Byte>, y: nat, y1: int,
                   ghost f: Filter, ghost ax: Axis, ghost ay: Axis, ghost r: nat)
    returns (curr': nat, next': nat, y': nat)
    requires Along(f, ax, ay) && r < f.h && y == ay.cell(r) && y1 == ay.second(r) && out.Length0 == ay.m && 3 * newW <= out.Length1
    requires Ready(buff, curr, next, 3 * newW, f, y, r + 1)
    modifies buff, out
    ensures y' == ay.cell(r + 1) && Ready(buff, curr', next', 3 * newW, f, y', r + 1)
    ensures y <= y' <= y + 1 && (y' > y ==> y < out.Length0 && LineWritten(out, newW, f, y))
    ensures forall i: nat, k: nat :: i < out.Length0 && k < out.Length1 && (i != y || y' == y || k >= 3 * newW) ==> out[i, k] == old(out[i, k])
  {
    curr', next', y' := curr, next, y;
    assert ay.StepAt(r);
    if y1 != 0 {
      forall k: nat ensures f.RowsSum(y, k, r + 1) == f.RowsSum(y, k, f.h) {
        LineComplete(f, ax, ay, y, k, r + 1, f.h);
      }
      EmitLine(buff, curr, newW, out, y, f, r + 1);
      curr', next' := next, curr;
      ClearLine(buff, next', 3 * newW);
      ghost var below, done: nat := y + 2, r + 1;
      forall k: nat ensures f.RowsSum(below, k, done) == 0 {
        LineEmpty(f, ax, ay, below, k, done);
      }
      y' := y + 1;
    }
  }

  /** The old rows in turn. */
  method ShrinkRows(src: seq<seq<Byte>>, rowCoeff: array2<int>, colCoeff: array2<int>, buff: array<nat>, out: array2<Byte>, newW: nat, newH: nat,
                    ghost f: Filter, ghost ax: Axis, ghost ay: Axis)
    returns (used: nat)
    requires Along(f, ax, ay) && ax.IsTable(rowCoeff) && ay.IsTable(colCoeff) && src == f.src && newW == ax.m && newH == ay.m
    requires out.Length0 == newH && 3 * newW <= out.Length1 && Ready(buff, 0, 3 * newW, 3 * newW, f, 0, 0)
    modifies buff, out
    ensures used == f.h
    ensures forall y: nat :: y < newH ==> LineWritten(out, newW, f, y)
    ensures RestUnchanged(out, newW, newH)
  {
    var curr: nat, next: nat, y: nat := 0, 3 * newW, 0;
    used := 0;
    while y < newH
      invariant used <= f.h && y == ay.cell(used) && Ready(buff, curr, next, 3 * newW, f, y, used)
      invariant y <= newH && forall i: nat :: i < y ==> LineWritten(out, newW, f, i)
      invariant RestUnchanged(out, newW, y)
      decreases f.h - used
    {
      assert ay.StepAt(used);
      var n := ShrinkRow(src[used], rowCoeff, colCoeff[used, 0], colCoeff[used, 1], buff, curr, next, newW, f, ax, ay, used);
      RowDone(buff, curr, next, 3 * newW, f, y, used);
      label L:
      var y';
      curr, next, y' := FinishRow(buff, curr, next, newW, out, y, colCoeff[used, 1], f, ax, ay, used);
      forall i: nat | i < y ensures LineWritten(out, newW, f, i) {
        assert old@L(LineWritten(out, newW, f, i));
      }
      y := y';
      used := used + 1;
    }
    ay.Complete(used);
  }

  lemma RowDone(buff: array<nat>, curr: nat, next: nat, len: nat, f: Filter, y: nat, r: nat)
    requires f.Valid() && r < f.h && LinesApart(curr, next, len, buff.Length)
    requires Holds(buff, curr, len, f, y, r, f.w) && Holds(buff, next, len, f, y + 1, r, f.w)
    ensures Ready(buff, curr, next, len, f, y, r + 1)
  {
    forall k: nat ensures Acc(f, y, r, f.w, k) == f.RowsSum(y, k, r + 1) {
      AccRow(f, y, r, k);
    }
    var y' := y + 1;
    forall k: nat ensures Acc(f, y', r, f.w, k) == f.RowsSum(y', k, r + 1) {
      AccRow(f, y', r, k);
    }
  }

  lemma AllLines(out: array2<Byte>, newW: nat, newH: nat, f: Filter)
    requires f.Valid() && out.Length0 == newH && out.Length1 == LineBytes(newW)
    requires forall y: nat :: y < newH ==> LineWritten(out, newW, f, y)
    ensures Scaled(out, newW, newH, f)
  {
    forall y: nat, k: nat | y < newH && k < 3 * newW
      ensures out[y, k] as int == f.Channel(y, k)
    {
      assert LineWritten(out, newW, f, y);
    }
  }

  /** ShrinkData: the new lines are the box filter's, the rest of the output is untouched, and exactly h old rows are used. */
  method ShrinkData(src: seq<seq<Byte>>, w: nat, h: nat, out: array2<Byte>, newW: nat, newH: nat) returns (used: nat)
    requires 1 <= newW <= w && 1 <= newH <= h && Exact(w, newW, w) && Exact(h, newH, h)
    requires IsBitmap(src, w, h) && out.Length0 == newH && out.Length1 == LineBytes(newW)
    modifies out
    ensures used == h
    ensures Scaled(out, newW, newH, ShrinkFilter(src, w, h, newW, newH)) && RestUnchanged(out, newW, newH)
  {
    ghost var f, ax, ay := ShrinkFilter(src, w, h, newW, newH), AxisOf(w, newW, w), AxisOf(h, newH, h);
    AxisValid(w, newW, w);
    AxisValid(h, newH, h);
    ShrinkNormal(src, w, h, newW, newH);
    var rowCoeff := CreateCoeffInt(w, newW, true);
    var colCoeff := CreateCoeffInt(h, newH, true);
    var buff := new nat[6 * newW](_ => 0);
    used := ShrinkRows(src, rowCoeff, colCoeff, buff, out, newW, newH, f, ax, ay);
    AllLines(out, newW, newH, f);
  }
}
