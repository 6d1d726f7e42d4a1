/**
 How an image's DCT blocks are grouped into MCUs: per_scan_setup's numbers, the image
 padded with dummy blocks (section A.2.4 of ITU-T T.81), and the MCUs in coding order.
 */
module McuGeometry {
  import opened Bits
  import opened BlockCode
  import opened ScanModel
  import RowModel

  /** Sampling factors, and the size in real blocks. */
  datatype Component = Component(h: nat, v: nat, width: nat, height: nat)
  {
    predicate Valid() { 1 <= h <= 4 && 1 <= v <= 4 && width >= 1 && height >= 1 }
  }

  /** a % b, or b where that is zero: what is left for the last group. */
  function LastPart(a: nat, b: nat): (r: nat)
    requires a >= 1 && b >= 1
    ensures 1 <= r <= b
  {
    if a % b == 0 then b else a % b
  }

  lemma GroupsAndLast(a: nat, b: nat)
    requires a >= 1 && b >= 1
    ensures CeilDiv(a, b) >= 1
    ensures a == (CeilDiv(a, b) - 1) * b + LastPart(a, b)
  {
    var q, r := a / b, a % b;
    assert a == b * q + r;
    if r == 0 {
      assert q >= 1;
      DivModUnique(a + b - 1, b, q, b - 1);
    } else {
      DivModUnique(a + b - 1, b, q + 1, r - 1);
    }
  }

  /**
   One scan.  With one component every MCU is a block; with more, component c has h by v
   blocks in an MCU.  cols is MCUs_per_row, rows is total_iMCU_rows.
   */
  datatype Geometry = Geometry(comps: seq<Component>, cols: nat, rows: nat)
  {
    predicate Valid()
    {
      1 <= |comps| <= 4 && cols >= 1 && rows >= 1 &&
      (forall c :: 0 <= c < |comps| ==> comps[c].Valid()) &&
      (forall c {:trigger Sized(c)} :: 0 <= c < |comps| ==> Sized(c))
    }

    /** The component's size in whole MCUs is that of the scan. */
    predicate Sized(c: nat)
      requires c < |comps| && comps[c].Valid()
    {
      rows == CeilDiv(comps[c].height, comps[c].v) && cols == CeilDiv(comps[c].width, McuWidth(c))
    }

    predicate Interleaved() { |comps| > 1 }

    function McuWidth(c: nat): (r: nat)
      requires c < |comps| && comps[c].Valid()
      ensures r >= 1
    {
      if Interleaved() then comps[c].h else 1
    }

    function McuHeight(c: nat): (r: nat)
      requires c < |comps| && comps[c].Valid()
      ensures 1 <= r <= comps[c].v
    {
      if Interleaved() then comps[c].v else 1
    }

    function LastColWidth(c: nat): nat
      requires c < |comps| && comps[c].Valid()
    {
      if Interleaved() then LastPart(comps[c].width, comps[c].h) else 1
    }

    function LastRowHeight(c: nat): nat
      requires c < |comps| && comps[c].Valid()
    {
      LastPart(comps[c].height, comps[c].v)
    }

    /** Blocks in an MCU of the components before c. */
    function BlocksUpTo(c: nat): nat
      requires c <= |comps| && forall k :: 0 <= k < |comps| ==> comps[k].Valid()
    {
      if c == 0 then 0 else BlocksUpTo(c - 1) + McuHeight(c - 1) * McuWidth(c - 1)
    }

    /** Rows of MCUs in the i-th iMCU row. */
    function McuRows(i: nat): (r: nat)
      requires Valid()
      ensures r >= 1
    {
      if Interleaved() then 1 else if i < rows - 1 then comps[0].v else LastRowHeight(0)
    }
  }

  // ---------------------------------------------------------------- initial_setup

  /** A component's sampling factors. */
  datatype Sampling = Sampling(h: nat, v: nat)

  /** The factors of a scan's components, within the greatest ones of the image. */
  predicate SamplingValid(factors: seq<Sampling>, maxH: nat, maxV: nat)
  {
    1 <= |factors| <= 4 && maxH <= 4 && maxV <= 4 &&
    forall c :: 0 <= c < |factors| ==> 1 <= factors[c].h <= maxH && 1 <= factors[c].v <= maxV
  }

  function ComponentOf(width: nat, height: nat, s: Sampling, maxH: nat, maxV: nat): Component
    requires maxH >= 1 && maxV >= 1
  {
    Component(s.h, s.v, CeilDiv(width * s.h, maxH * RowModel.DCTSIZE), CeilDiv(height * s.v, maxV * RowModel.DCTSIZE))
  }

  /** The dimensions initial_setup and per_scan_setup compute from the size of the image in pixels. */
  function SetUp(width: nat, height: nat, factors: seq<Sampling>, maxH: nat, maxV: nat): Geometry
    requires SamplingValid(factors, maxH, maxV)
  {
    var comps := seq(|factors|, c requires 0 <= c < |factors| => ComponentOf(width, height, factors[c], maxH, maxV));
    Geometry(comps, if |comps| == 1 then comps[0].width else CeilDiv(width, maxH * RowModel.DCTSIZE), CeilDiv(height, maxV * RowModel.DCTSIZE))
  }

  lemma CeilIs(a: nat, b: nat, q: nat)
    requires b >= 1 && (q - 1) * b < a <= q * b
    ensures CeilDiv(a, b) == q
  {
    assert a + b - 1 == b * q + (a + b - 1 - q * b);
    DivModUnique(a + b - 1, b, q, a + b - 1 - q * b);
  }

  lemma CeilBounds(a: nat, b: nat)
    requires b >= 1
    ensures (CeilDiv(a, b) - 1) * b < a <= CeilDiv(a, b) * b
  {
  }

  /** Rounding up to blocks and then to MCUs is rounding up to MCUs at once. */
  lemma CeilTwice(size: nat, h: nat, unit: nat)
    requires h >= 1 && unit >= 1
    ensures CeilDiv(CeilDiv(size * h, unit), h) == CeilDiv(size, unit)
  {
    var q := CeilDiv(size, unit);
    var w := CeilDiv(size * h, unit);
    CeilBounds(size, unit);
    CeilBounds(size * h, unit);
    ScaledBounds(size, h, unit, q, w);
    CeilIs(w, h, q);
  }

  lemma ScaledBounds(size: nat, h: nat, unit: nat, q: nat, w: nat)
    requires h >= 1 && unit >= 1
    requires (q - 1) * unit < size <= q * unit && (w - 1) * unit < size * h <= w * unit
    ensures (q - 1) * h < w <= q * h
  {
    ScaleUp(h, size, q * unit);
    Regroup(unit, q, h);
    Cancel(unit, w - 1, q * h);
    ScaleUp(h, (q - 1) * unit, size);
    Regroup(unit, q - 1, h);
    Cancel(unit, (q - 1) * h, w);
  }

  lemma Regroup(a: int, b: int, c: int)
    ensures a * (b * c) == c * (b * a)
  {
  }

  lemma ScaleUp(h: int, a: int, b: int)
    requires h >= 1
    ensures a <= b ==> h * a <= h * b
    ensures a < b ==> h * a < h * b
  {
    MulAtLeast(h, b - a);
    MulLess(h, b, a);
  }

  lemma Cancel(unit: int, a: int, b: int)
    requires unit >= 1
    ensures unit * a < unit * b ==> a < b
  {
    ScaleUp(unit, b, a);
  }

  lemma CeilPositive(a: nat, b: nat)
    requires a >= 1 && b >= 1
    ensures CeilDiv(a, b) >= 1
  {
    GroupsAndLast(a, b);
  }

  /** Every image that is not empty gives a geometry in which each component is a whole number of MCUs. */
  lemma SetUpValid(width: nat, height: nat, factors: seq<Sampling>, maxH: nat, maxV: nat)
    requires width >= 1 && height >= 1 && SamplingValid(factors, maxH, maxV)
    ensures SetUp(width, height, factors, maxH, maxV).Valid()
  {
    var g := SetUp(width, height, factors, maxH, maxV);
    assert 1 <= factors[0].h <= maxH && 1 <= factors[0].v <= maxV;
    CeilPositive(width, maxH * RowModel.DCTSIZE);
    CeilPositive(height, maxV * RowModel.DCTSIZE);
    forall c | 0 <= c < |g.comps| ensures g.comps[c].Valid() && g.Sized(c) {
      ComponentSized(width, height, factors[c], maxH, maxV);
    }
  }

  /** In pixels: a block of a component stands for eight samples, and an MCU for eight of the most finely sampled component. */
  lemma SetUpInPixels(width: nat, height: nat, factors: seq<Sampling>, maxH: nat, maxV: nat, c: nat)
    requires width >= 1 && height >= 1 && SamplingValid(factors, maxH, maxV) && c < |factors|
    ensures var g := SetUp(width, height, factors, maxH, maxV);
            |g.comps| == |factors| && g.comps[c].h == factors[c].h && g.comps[c].v == factors[c].v &&
            (g.comps[c].width - 1) * (maxH * 8) < width * factors[c].h <= g.comps[c].width * (maxH * 8) &&
            (g.comps[c].height - 1) * (maxV * 8) < height * factors[c].v <= g.comps[c].height * (maxV * 8) &&
            (g.rows - 1) * (maxV * 8) < height <= g.rows * (maxV * 8) &&
            if |factors| == 1 then g.cols == g.comps[0].width else (g.cols - 1) * (maxH * 8) < width <= g.cols * (maxH * 8)
  {
    assert 1 <= factors[c].h <= maxH && 1 <= factors[c].v <= maxV;
    CeilBounds(width * factors[c].h, maxH * 8);
    CeilBounds(height * factors[c].v, maxV * 8);
    CeilBounds(width, maxH * 8);
    CeilBounds(height, maxV * 8);
  }

  lemma ComponentSized(width: nat, height: nat, s: Sampling, maxH: nat, maxV: nat)
    requires width >= 1 && height >= 1 && 1 <= s.h <= maxH <= 4 && 1 <= s.v <= maxV <= 4
    ensures var k := ComponentOf(width, height, s, maxH, maxV);
            k.Valid() && CeilDiv(k.width, s.h) == CeilDiv(width, maxH * RowModel.DCTSIZE) && CeilDiv(k.height, s.v) == CeilDiv(height, maxV * RowModel.DCTSIZE)
            && CeilDiv(k.width, 1) == k.width
  {
    MulAtLeast(width, s.h);
    MulAtLeast(height, s.v);
    CeilPositive(width * s.h, maxH * RowModel.DCTSIZE);
    CeilPositive(height * s.v, maxV * RowModel.DCTSIZE);
    CeilTwice(width, s.h, maxH * RowModel.DCTSIZE);
    CeilTwice(height, s.v, maxV * RowModel.DCTSIZE);
  }

  // ---------------------------------------------------------------- the padded image

  /** The forward DCT's output: component, block row, block column. */
  type Source = (nat, nat, nat) -> Block

  /** A dummy block: all zero but for the DC coefficient. */
  function Dummy(dc: int): Block
  {
    DcOnly(dc)
  }

  /** The DC value at a column of a real row; past the right edge, that of the row's last block. */
  function RowDc(g: Geometry, src: Source, c: nat, row: nat, col: nat): int
    requires g.Valid() && c < |g.comps|
  {
    src(c, row, if col < g.comps[c].width then col else g.comps[c].width - 1)[0]
  }

  /** The image padded on the right and at the bottom; below it, the DC of the MCU's last block above. */
  function PaddedBlock(g: Geometry, src: Source, c: nat, row: nat, col: nat): Block
    requires g.Valid() && c < |g.comps|
  {
    var k := g.comps[c];
    if row < k.height then
      if col < k.width then src(c, row, col) else Dummy(RowDc(g, src, c, row, col))
    else Dummy(RowDc(g, src, c, k.height - 1, col / k.h * k.h + k.h - 1))
  }

  /** What a dummy block carries, in coefficients: nothing but the DC value of the last real block to its left. */
  lemma RightOfEdge(g: Geometry, src: Source, c: nat, row: nat, col: nat)
    requires g.Valid() && c < |g.comps| && row < g.comps[c].height && g.comps[c].width <= col
    ensures var b := PaddedBlock(g, src, c, row, col);
            b[0] == src(c, row, g.comps[c].width - 1)[0] && forall k :: 1 <= k < 64 ==> b[k] == 0
  {
  }

  /** Below the image, that of the last block of the MCU in the last real row. */
  lemma BelowEdge(g: Geometry, src: Source, c: nat, row: nat, m: nat, x: nat)
    requires g.Valid() && c < |g.comps| && g.comps[c].height <= row && x < g.comps[c].h
    ensures var b, last := PaddedBlock(g, src, c, row, m * g.comps[c].h + x), m * g.comps[c].h + g.comps[c].h - 1;
            b[0] == src(c, g.comps[c].height - 1, if last < g.comps[c].width then last else g.comps[c].width - 1)[0] &&
            forall k :: 1 <= k < 64 ==> b[k] == 0
  {
    DivModUnique(m * g.comps[c].h + x, g.comps[c].h, m, x);
  }

  /** The block that comes before block (y, x) of a component in its MCU. */
  function Previous(g: Geometry, src: Source, c: nat, top: nat, m: nat, y: nat, x: nat): Block
    requires g.Valid() && c < |g.comps| && y + x > 0
  {
    if x > 0 then PaddedBlock(g, src, c, top + y, m * g.McuWidth(c) + x - 1)
    else PaddedBlock(g, src, c, top + y - 1, m * g.McuWidth(c) + g.McuWidth(c) - 1)
  }

  /** A block with only a DC value that is also predicted takes two symbols without raw bits, the least a block can take. */
  lemma FlatTokens(b: Block, dc: int)
    requires b[0] == dc && forall k :: 1 <= k < 64 ==> b[k] == 0
    ensures BlockTokens(b, dc) == [Token(true, 0, []), Token(false, 0, [])]
  {
    forall k: nat | 1 <= k < 64 ensures ToZigzag(b)[k] == 0 { ZeroFirst(k); }
    ZerosToEob(ToZigzag(b), 1, 0);
  }

  lemma {:induction false} ZerosToEob(z: Block, k: nat, r: nat)
    requires k <= 64 && (k < 64 || r > 0) && forall j :: k <= j < 64 ==> z[j] == 0
    ensures AcTokens(z, k, r) == [Token(false, 0, [])]
    decreases |z| - k
  {
    if k < 64 { ZerosToEob(z, k + 1, r + 1); }
  }

  /** A dummy block never comes first of its component in an MCU, and costs the least a block can. */
  lemma DummiesAreFree(g: Geometry, src: Source, c: nat, i: nat, m: nat, y: nat, x: nat)
    requires g.Valid() && g.Interleaved() && c < |g.comps| && i < g.rows && m < g.cols && y < g.comps[c].v && x < g.comps[c].h
    requires i * g.comps[c].v + y >= g.comps[c].height || m * g.comps[c].h + x >= g.comps[c].width
    ensures y + x > 0
    ensures BlockTokens(PaddedBlock(g, src, c, i * g.comps[c].v + y, m * g.comps[c].h + x), Previous(g, src, c, i * g.comps[c].v, m, y, x)[0])
            == [Token(true, 0, []), Token(false, 0, [])]
  {
    FirstIsReal(g, c, i, m);
    SameAsPrevious(g, src, c, i, m, y, x);
    FlatTokens(PaddedBlock(g, src, c, i * g.comps[c].v + y, m * g.comps[c].h + x), Previous(g, src, c, i * g.comps[c].v, m, y, x)[0]);
  }

  /** The first block of every MCU is real. */
  lemma FirstIsReal(g: Geometry, c: nat, i: nat, m: nat)
    requires g.Valid() && c < |g.comps| && i < g.rows && m < g.cols
    ensures i * g.comps[c].v < g.comps[c].height && m * g.McuWidth(c) < g.comps[c].width
  {
    RealRow(g, c, i, 0);
    RealCol(g, c, m, 0);
  }

  lemma SameAsPrevious(g: Geometry, src: Source, c: nat, i: nat, m: nat, y: nat, x: nat)
    requires g.Valid() && g.Interleaved() && c < |g.comps| && i < g.rows && m < g.cols && y < g.comps[c].v && x < g.comps[c].h && y + x > 0
    requires i * g.comps[c].v + y >= g.comps[c].height || m * g.comps[c].h + x >= g.comps[c].width
    ensures var b := PaddedBlock(g, src, c, i * g.comps[c].v + y, m * g.comps[c].h + x);
            b[0] == Previous(g, src, c, i * g.comps[c].v, m, y, x)[0] && forall k :: 1 <= k < 64 ==> b[k] == 0
  {
    var k, top := g.comps[c], i * g.comps[c].v;
    FirstIsReal(g, c, i, m);
    if top + y >= k.height {
      BelowEdge(g, src, c, top + y, m, x);
      if x > 0 {
        BelowEdge(g, src, c, top + y, m, x - 1);
      } else if top + y - 1 >= k.height {
        BelowEdge(g, src, c, top + y - 1, m, k.h - 1);
      }
    } else {
      RightOfEdge(g, src, c, top + y, m * k.h + x);
    }
  }

  // ---------------------------------------------------------------- MCUs

  /** One row of component c's blocks in the MCU at column m. */
  function McuRow(g: Geometry, src: Source, c: nat, row: nat, m: nat): (r: seq<Block>)
    requires g.Valid() && c < |g.comps|
    ensures |r| == g.McuWidth(c)
  {
    seq<Block>(g.McuWidth(c), x requires 0 <= x < g.McuWidth(c) => PaddedBlock(g, src, c, row, m * g.McuWidth(c) + x))
  }

  /** y rows of component c from block row top, in the MCU at column m. */
  function CompRows(g: Geometry, src: Source, c: nat, top: nat, m: nat, y: nat): (r: seq<Block>)
    requires g.Valid() && c < |g.comps|
    ensures |r| == y * g.McuWidth(c)
  {
    if y == 0 then []
    else CompRows(g, src, c, top, m, y - 1) + McuRow(g, src, c, top + y - 1, m)
  }

  /** The blocks of the components before c. */
  function CompsUpTo(g: Geometry, src: Source, i: nat, yoff: nat, m: nat, c: nat): (r: seq<Block>)
    requires g.Valid() && c <= |g.comps|
    ensures |r| == g.BlocksUpTo(c)
  {
    if c == 0 then []
    else CompsUpTo(g, src, i, yoff, m, c - 1)
         + CompRows(g, src, c - 1, i * g.comps[c - 1].v + yoff, m, g.McuHeight(c - 1))
  }

  /** The MCU in iMCU row i, MCU row yoff within it, column m. */
  function McuAt(g: Geometry, src: Source, i: nat, yoff: nat, m: nat): (r: Mcu)
    requires g.Valid()
    ensures |r| == g.BlocksUpTo(|g.comps|)
  {
    CompsUpTo(g, src, i, yoff, m, |g.comps|)
  }

  /** The first m MCUs of an MCU row. */
  function RowMcus(g: Geometry, src: Source, i: nat, yoff: nat, m: nat): (r: seq<Mcu>)
    requires g.Valid()
    ensures |r| == m
  {
    if m == 0 then [] else RowMcus(g, src, i, yoff, m - 1) + [McuAt(g, src, i, yoff, m - 1)]
  }

  /** The first y MCU rows of iMCU row i. */
  function IMcuMcus(g: Geometry, src: Source, i: nat, y: nat): (r: seq<Mcu>)
    requires g.Valid()
  {
    if y == 0 then [] else IMcuMcus(g, src, i, y - 1) + RowMcus(g, src, i, y - 1, g.cols)
  }

  /** All MCUs of the first i iMCU rows, in coding order. */
  function McusUpTo(g: Geometry, src: Source, i: nat): (r: seq<Mcu>)
    requires g.Valid()
  {
    if i == 0 then [] else McusUpTo(g, src, i - 1) + IMcuMcus(g, src, i - 1, g.McuRows(i - 1))
  }

  /** All MCUs of the image, in coding order. */
  function ImageMcus(g: Geometry, src: Source): (r: seq<Mcu>)
    requires g.Valid()
    ensures forall k :: 0 <= k < |r| ==> |r[k]| == g.BlocksUpTo(|g.comps|)
  {
    WholeMcus(g, src, g.rows);
    McusUpTo(g, src, g.rows)
  }

  lemma {:induction false} WholeMcus(g: Geometry, src: Source, i: nat)
    requires g.Valid()
    ensures AllOfSize(McusUpTo(g, src, i), g.BlocksUpTo(|g.comps|))
  {
    if i > 0 {
      WholeMcus(g, src, i - 1);
      WholeMcuRows(g, src, i - 1, g.McuRows(i - 1));
    }
  }

  lemma {:induction false} WholeMcuRows(g: Geometry, src: Source, i: nat, y: nat)
    requires g.Valid()
    ensures AllOfSize(IMcuMcus(g, src, i, y), g.BlocksUpTo(|g.comps|))
  {
    if y > 0 {
      WholeMcuRows(g, src, i, y - 1);
      WholeMcuRow(g, src, i, y - 1, g.cols);
    }
  }

  lemma {:induction false} WholeMcuRow(g: Geometry, src: Source, i: nat, y: nat, m: nat)
    requires g.Valid()
    ensures AllOfSize(RowMcus(g, src, i, y, m), g.BlocksUpTo(|g.comps|))
  {
    if m > 0 { WholeMcuRow(g, src, i, y, m - 1); }
  }

  predicate AllOfSize(mcus: seq<Mcu>, n: nat)
  {
    forall k :: 0 <= k < |mcus| ==> |mcus[k]| == n
  }

  /** All MCUs before position (i, y, m). */
  function Before(g: Geometry, src: Source, i: nat, y: nat, m: nat): (r: seq<Mcu>)
    requires g.Valid()
  {
    McusUpTo(g, src, i) + IMcuMcus(g, src, i, y) + RowMcus(g, src, i, y, m)
  }

  lemma BeforeNext(g: Geometry, src: Source, i: nat, y: nat, m: nat)
    requires g.Valid()
    ensures Before(g, src, i, y, m + 1) == Before(g, src, i, y, m) + [McuAt(g, src, i, y, m)]
  {
  }

  lemma BeforeRow(g: Geometry, src: Source, i: nat, y: nat)
    requires g.Valid()
    ensures Before(g, src, i, y + 1, 0) == Before(g, src, i, y, g.cols)
  {
  }

  lemma BeforeIMcu(g: Geometry, src: Source, i: nat)
    requires g.Valid()
    ensures Before(g, src, i + 1, 0, 0) == Before(g, src, i, g.McuRows(i), 0)
  {
  }

  // ---------------------------------------------------------------- real and dummy blocks

  /** A block row of iMCU row i is real exactly if the controller's test says so. */
  lemma RealRow(g: Geometry, c: nat, i: nat, y: nat)
    requires g.Valid() && c < |g.comps| && i < g.rows && y < g.comps[c].v
    ensures i * g.comps[c].v + y < g.comps[c].height <==> i < g.rows - 1 || y < g.LastRowHeight(c)
  {
    var k := g.comps[c];
    assert g.Sized(c);
    GroupsAndLast(k.height, k.v);
    MulAtLeast(k.v, g.rows - 1 - i);
    assert (g.rows - 1) * k.v == i * k.v + k.v * (g.rows - 1 - i);
  }

  /** A block column of MCU m is real exactly if it is not beyond blockcnt. */
  lemma RealCol(g: Geometry, c: nat, m: nat, x: nat)
    requires g.Valid() && c < |g.comps| && m < g.cols && x < g.McuWidth(c)
    ensures m * g.McuWidth(c) + x < g.comps[c].width <==> x < if m < g.cols - 1 then g.McuWidth(c) else g.LastColWidth(c)
  {
    var w, k := g.McuWidth(c), g.comps[c];
    assert g.Sized(c);
    GroupsAndLast(k.width, w);
    if !g.Interleaved() { assert LastPart(k.width, 1) == 1; }
    MulAtLeast(w, g.cols - 1 - m);
    assert (g.cols - 1) * w == m * w + w * (g.cols - 1 - m);
  }

  // ---------------------------------------------------------------- which block is where

  lemma {:induction false} RowInRows(g: Geometry, src: Source, c: nat, top: nat, m: nat, n: nat, y: nat, x: nat)
    requires g.Valid() && c < |g.comps| && y < n && x < g.McuWidth(c)
    ensures 0 <= y * g.McuWidth(c) + x < n * g.McuWidth(c)
    ensures CompRows(g, src, c, top, m, n)[y * g.McuWidth(c) + x] == PaddedBlock(g, src, c, top + y, m * g.McuWidth(c) + x)
  {
    var w := g.McuWidth(c);
    PlaceInside(n, w, y, x);
    if y < n - 1 {
      RowInRows(g, src, c, top, m, n - 1, y, x);
    } else {
      MulSum(n, -1, w);
    }
  }

  lemma PlaceInside(n: nat, w: nat, y: nat, x: nat)
    requires y < n && x < w
    ensures 0 <= y * w + x < n * w
  {
    MulAtLeast(w, n - y);
    MulLess(w, n, y);
  }

  lemma {:induction false} CompInComps(g: Geometry, src: Source, i: nat, yoff: nat, m: nat, n: nat, c: nat, j: nat)
    requires g.Valid() && c < n <= |g.comps| && j < g.McuHeight(c) * g.McuWidth(c)
    ensures g.BlocksUpTo(c) + j < g.BlocksUpTo(n)
    ensures CompsUpTo(g, src, i, yoff, m, n)[g.BlocksUpTo(c) + j]
            == CompRows(g, src, c, i * g.comps[c].v + yoff, m, g.McuHeight(c))[j]
  {
    if c < n - 1 { CompInComps(g, src, i, yoff, m, n - 1, c, j); }
  }

  /** An MCU holds the components' blocks one component after the other, each row by row. */
  lemma BlockInMcu(g: Geometry, src: Source, i: nat, yoff: nat, m: nat, c: nat, y: nat, x: nat)
    requires g.Valid() && c < |g.comps| && y < g.McuHeight(c) && x < g.McuWidth(c)
    ensures 0 <= y * g.McuWidth(c) + x && g.BlocksUpTo(c) + (y * g.McuWidth(c) + x) < |McuAt(g, src, i, yoff, m)|
    ensures McuAt(g, src, i, yoff, m)[g.BlocksUpTo(c) + (y * g.McuWidth(c) + x)]
            == PaddedBlock(g, src, c, i * g.comps[c].v + yoff + y, m * g.McuWidth(c) + x)
  {
    RowInRows(g, src, c, i * g.comps[c].v + yoff, m, g.McuHeight(c), y, x);
    CompInComps(g, src, i, yoff, m, |g.comps|, c, y * g.McuWidth(c) + x);
  }

  lemma {:induction false} McuInRow(g: Geometry, src: Source, i: nat, y: nat, n: nat, m: nat)
    requires g.Valid() && m < n
    ensures RowMcus(g, src, i, y, n)[m] == McuAt(g, src, i, y, m)
  {
    if m < n - 1 { McuInRow(g, src, i, y, n - 1, m); }
  }

  lemma {:induction false} McuInRows(g: Geometry, src: Source, i: nat, n: nat, y: nat, m: nat)
    requires g.Valid() && y < n && m < g.cols
    ensures |IMcuMcus(g, src, i, n)| == n * g.cols && 0 <= y * g.cols + m < n * g.cols
    ensures IMcuMcus(g, src, i, n)[y * g.cols + m] == McuAt(g, src, i, y, m)
  {
    PlaceInside(n, g.cols, y, m);
    RowsLength(g, src, i, n);
    RowsLength(g, src, i, n - 1);
    if y < n - 1 {
      McuInRows(g, src, i, n - 1, y, m);
    } else {
      McuInRow(g, src, i, y, g.cols, m);
    }
  }

  lemma {:induction false} RowsLength(g: Geometry, src: Source, i: nat, n: nat)
    requires g.Valid()
    ensures |IMcuMcus(g, src, i, n)| == n * g.cols
  {
    if n > 0 {
      RowsLength(g, src, i, n - 1);
      MulSum(n, -1, g.cols);
    }
  }

  /** The number of MCU rows before iMCU row i. */
  lemma {:induction false} RowsBefore(g: Geometry, src: Source, i: nat)
    requires g.Valid() && i <= g.rows
    ensures |McusUpTo(g, src, i)| == (if g.Interleaved() then i else if i < g.rows then i * g.comps[0].v else g.comps[0].height) * g.cols
  {
    assert g.Sized(0);
    GroupsAndLast(g.comps[0].height, g.comps[0].v);
    if i > 0 {
      RowsBefore(g, src, i - 1);
      RowsLength(g, src, i - 1, g.McuRows(i - 1));
      MulSum(i, -1, g.comps[0].v);
      MulSum(if g.Interleaved() then i - 1 else (i - 1) * g.comps[0].v, g.McuRows(i - 1), g.cols);
    }
  }

  lemma {:induction false} McuInImage(g: Geometry, src: Source, n: nat, i: nat, y: nat, m: nat)
    requires g.Valid() && i < n <= g.rows && y < g.McuRows(i) && m < g.cols
    ensures 0 <= |McusUpTo(g, src, i)| + (y * g.cols + m) < |McusUpTo(g, src, n)|
    ensures McusUpTo(g, src, n)[|McusUpTo(g, src, i)| + (y * g.cols + m)] == McuAt(g, src, i, y, m)
  {
    if i < n - 1 {
      McuInImage(g, src, n - 1, i, y, m);
    } else {
      McuInRows(g, src, i, g.McuRows(i), y, m);
    }
  }

  /** An interleaved scan is the MCUs of the image row by row. */
  lemma InterleavedOrder(g: Geometry, src: Source, i: nat, m: nat)
    requires g.Valid() && g.Interleaved() && i < g.rows && m < g.cols
    ensures |ImageMcus(g, src)| == g.rows * g.cols && 0 <= i * g.cols + m < g.rows * g.cols
    ensures ImageMcus(g, src)[i * g.cols + m] == McuAt(g, src, i, 0, m)
  {
    PlaceInside(g.rows, g.cols, i, m);
    RowsBefore(g, src, g.rows);
    RowsBefore(g, src, i);
    McuInImage(g, src, g.rows, i, 0, m);
  }

  /** A scan of one component is its real blocks, row by row, and nothing else. */
  lemma SingleOrder(g: Geometry, src: Source, row: nat, col: nat)
    requires g.Valid() && !g.Interleaved() && row < g.comps[0].height && col < g.comps[0].width
    ensures |ImageMcus(g, src)| == g.comps[0].height * g.comps[0].width
    ensures 0 <= row * g.comps[0].width + col < g.comps[0].height * g.comps[0].width
    ensures ImageMcus(g, src)[row * g.comps[0].width + col] == [src(0, row, col)]
  {
    var k := g.comps[0];
    assert g.Sized(0) && g.cols == k.width by { DivModUnique(k.width, 1, k.width, 0); }
    PlaceInside(k.height, k.width, row, col);
    RowsBefore(g, src, g.rows);
    var i, y := row / k.v, row % k.v;
    RowOfIMcu(g, row);
    RowsBefore(g, src, i);
    McuInImage(g, src, g.rows, i, y, col);
    MulSum(i * k.v, y, g.cols);
    SingleBlock(g, src, i, y, col);
  }

  lemma RowOfIMcu(g: Geometry, row: nat)
    requires g.Valid() && !g.Interleaved() && row < g.comps[0].height
    ensures var i, y := row / g.comps[0].v, row % g.comps[0].v;
            i < g.rows && y < g.McuRows(i) && i * g.comps[0].v + y == row
  {
    var k := g.comps[0];
    var i, y := row / k.v, row % k.v;
    assert g.Sized(0) && row == k.v * i + y;
    GroupsAndLast(k.height, k.v);
    if i >= g.rows {
      MulAtLeast(k.v, i - g.rows + 1);
      MulLess(k.v, i + 1, g.rows);
      MulSum(g.rows, -1, k.v);
    }
    RealRow(g, 0, i, y);
  }

  lemma SingleBlock(g: Geometry, src: Source, i: nat, y: nat, col: nat)
    requires g.Valid() && !g.Interleaved() && i * g.comps[0].v + y < g.comps[0].height && col < g.comps[0].width
    ensures McuAt(g, src, i, y, col) == [src(0, i * g.comps[0].v + y, col)]
  {
    BlockInMcu(g, src, i, y, col, 0, 0, 0);
    assert g.BlocksUpTo(1) == 1;
  }

  /** Every block of the image is in exactly one place of exactly one MCU of an interleaved scan. */
  lemma EveryBlockOnce(g: Geometry, c: nat, row: nat, col: nat, i: nat, m: nat, y: nat, x: nat)
    requires g.Valid() && g.Interleaved() && c < |g.comps| && row < g.comps[c].height && col < g.comps[c].width
    requires y < g.comps[c].v && x < g.comps[c].h
    ensures row / g.comps[c].v < g.rows && col / g.comps[c].h < g.cols
    ensures i * g.comps[c].v + y == row && m * g.comps[c].h + x == col <==>
            i == row / g.comps[c].v && y == row % g.comps[c].v && m == col / g.comps[c].h && x == col % g.comps[c].h
  {
    var k := g.comps[c];
    assert g.Sized(c);
    GroupOf(row, k.height, k.v);
    GroupOf(col, k.width, k.h);
    SplitPlace(i, k.v, y, row);
    SplitPlace(m, k.h, x, col);
  }

  lemma SplitPlace(i: nat, v: nat, y: nat, row: nat)
    requires y < v
    ensures i * v + y == row <==> i == row / v && y == row % v
  {
    if i * v + y == row { DivModUnique(row, v, i, y); }
  }

  lemma GroupOf(a: nat, n: nat, b: nat)
    requires a < n && b >= 1
    ensures a / b < CeilDiv(n, b)
  {
    GroupsAndLast(n, b);
    var q := CeilDiv(n, b);
    if a / b >= q {
      MulAtLeast(b, a / b - q + 1);
      MulLess(b, a / b + 1, q);
      MulSum(q, -1, b);
    }
  }
}
