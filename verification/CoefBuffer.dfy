/**
 How the two paths of the coefficient controller assemble an MCU: compress_data block by
 block into a small buffer, compress_first_pass row by row into whole-image arrays.
 Both give the MCUs of McuGeometry.
 */
module CoefBuffer {
  import opened Bits
  import opened BlockCode
  import opened ScanModel
  import opened McuGeometry

  // ---------------------------------------------------------------- single pass

  /** forward_DCT: n consecutive blocks of a block row. */
  method ForwardDct(src: Source, c: nat, row: nat, col: nat, n: nat, buf: array<Block>, at: nat)
    requires at + n <= buf.Length
    modifies buf
    ensures forall k :: 0 <= k < buf.Length ==> buf[k] == if at <= k < at + n then src(c, row, col + k - at) else old(buf[k])
  {
    for x := 0 to n
      invariant forall k :: 0 <= k < buf.Length ==> buf[k] == if at <= k < at + x then src(c, row, col + k - at) else old(buf[k])
    {
      buf[at + x] := src(c, row, col + x);
    }
  }

  /** n dummy blocks, each with the DC value of the block before it. */
  method DummiesFromPrevious(buf: array<Block>, at: nat, n: nat)
    requires 1 <= at && at + n <= buf.Length
    modifies buf
    ensures forall k :: 0 <= k < buf.Length ==> buf[k] == if at <= k < at + n then Dummy(old(buf[at - 1][0])) else old(buf[k])
  {
    for bi := 0 to n
      invariant forall k :: 0 <= k < buf.Length ==> buf[k] == if at <= k < at + bi then Dummy(old(buf[at - 1][0])) else old(buf[k])
    {
      buf[at + bi] := Dummy(buf[at + bi - 1][0]);
    }
  }

  /** n dummy blocks, all with the DC value of the block before the first. */
  method DummyRow(buf: array<Block>, at: nat, n: nat)
    requires 1 <= at && at + n <= buf.Length
    modifies buf
    ensures forall k :: 0 <= k < buf.Length ==> buf[k] == if at <= k < at + n then Dummy(old(buf[at - 1][0])) else old(buf[k])
  {
    for bi := 0 to n
      invariant forall k :: 0 <= k < buf.Length ==> buf[k] == if at <= k < at + bi then Dummy(old(buf[at - 1][0])) else old(buf[k])
    {
      buf[at + bi] := Dummy(buf[at - 1][0]);
    }
  }

  /** In an MCU's dummy rows every block has the DC value of the last block of the row above. */
  lemma DummyBelow(g: Geometry, src: Source, c: nat, row: nat, m: nat, x: nat)
    requires g.Valid() && c < |g.comps| && row >= 1 && row >= g.comps[c].height && x < g.comps[c].h
    ensures PaddedBlock(g, src, c, row, m * g.comps[c].h + x)
            == Dummy(PaddedBlock(g, src, c, row - 1, m * g.comps[c].h + g.comps[c].h - 1)[0])
  {
    var h := g.comps[c].h;
    DivModUnique(m * h + x, h, m, x);
    DivModUnique(m * h + h - 1, h, m, h - 1);
  }

  /** The number of real blocks across in an MCU. */
  function BlockCount(g: Geometry, c: nat, m: nat): (r: nat)
    requires g.Valid() && c < |g.comps|
  {
    if m < g.cols - 1 then g.McuWidth(c) else g.LastColWidth(c)
  }

  /** In a real row, a block of an MCU is real, or has the DC value of the last real one. */
  lemma RowContents(g: Geometry, src: Source, c: nat, row: nat, m: nat, x: nat)
    requires g.Valid() && c < |g.comps| && m < g.cols && row < g.comps[c].height && x < g.McuWidth(c)
    ensures 1 <= BlockCount(g, c, m) <= g.McuWidth(c)
    ensures PaddedBlock(g, src, c, row, m * g.McuWidth(c) + x)
            == if x < BlockCount(g, c, m) then src(c, row, m * g.McuWidth(c) + x)
               else Dummy(src(c, row, m * g.McuWidth(c) + BlockCount(g, c, m) - 1)[0])
  {
    var n := BlockCount(g, c, m);
    RealCol(g, c, m, x);
    RealCol(g, c, m, n - 1);
    if n < g.McuWidth(c) { RealCol(g, c, m, n); }
  }

  /** n blocks of a block row from column start on, and dummy blocks up to w. */
  method FillBlocks(src: Source, c: nat, row: nat, start: nat, n: nat, w: nat, buf: array<Block>, blkn: nat)
    requires 1 <= n <= w && blkn + w <= buf.Length
    modifies buf
    ensures forall k :: 0 <= k < buf.Length ==>
              buf[k] == if blkn <= k < blkn + n then src(c, row, start + k - blkn)
                        else if blkn + n <= k < blkn + w then Dummy(src(c, row, start + n - 1)[0]) else old(buf[k])
  {
    ForwardDct(src, c, row, start, n, buf, blkn);
    if n < w {
      DummiesFromPrevious(buf, blkn + n, w - n);
    }
  }

  lemma IsMcuRow(g: Geometry, src: Source, c: nat, row: nat, m: nat, s: seq<Block>)
    requires g.Valid() && c < |g.comps| && m < g.cols && row < g.comps[c].height && |s| == g.McuWidth(c)
    requires forall x: nat :: x < |s| ==>
               s[x] == if x < BlockCount(g, c, m) then src(c, row, m * g.McuWidth(c) + x)
                       else Dummy(src(c, row, m * g.McuWidth(c) + BlockCount(g, c, m) - 1)[0])
    ensures s == McuRow(g, src, c, row, m)
  {
    forall x: nat | x < |s| ensures s[x] == McuRow(g, src, c, row, m)[x] {
      RowContents(g, src, c, row, m, x);
    }
  }

  /** A row of blocks of which the first are real. */
  method FillRealRow(g: Geometry, src: Source, c: nat, row: nat, m: nat, buf: array<Block>, blkn: nat)
    requires g.Valid() && c < |g.comps| && m < g.cols && row < g.comps[c].height
    requires blkn + g.McuWidth(c) <= buf.Length
    modifies buf
    ensures buf[blkn..blkn + g.McuWidth(c)] == McuRow(g, src, c, row, m)
    ensures buf[..blkn] == old(buf[..blkn])
  {
    var w := g.McuWidth(c);
    var blockcnt := if m < g.cols - 1 then w else g.LastColWidth(c);
    RowContents(g, src, c, row, m, 0);
    FillBlocks(src, c, row, m * w, blockcnt, w, buf, blkn);
    IsMcuRow(g, src, c, row, m, buf[blkn..blkn + w]);
  }

  /** An MCU's block row that lies below the image: dummies only. */
  method FillDummyRow(g: Geometry, src: Source, c: nat, row: nat, m: nat, buf: array<Block>, blkn: nat)
    requires g.Valid() && c < |g.comps| && g.Interleaved() && row >= 1 && row >= g.comps[c].height
    requires g.McuWidth(c) <= blkn && blkn + g.McuWidth(c) <= buf.Length
    requires buf[blkn - g.McuWidth(c)..blkn] == McuRow(g, src, c, row - 1, m)
    modifies buf
    ensures buf[blkn..blkn + g.McuWidth(c)] == McuRow(g, src, c, row, m)
    ensures buf[..blkn] == old(buf[..blkn])
  {
    var w := g.McuWidth(c);
    assert buf[blkn - 1] == McuRow(g, src, c, row - 1, m)[w - 1];
    DummyRow(buf, blkn, w);
    forall k | blkn <= k < blkn + w
      ensures buf[k] == PaddedBlock(g, src, c, row, m * w + (k - blkn))
    {
      DummyBelow(g, src, c, row, m, k - blkn);
    }
  }

  /** One row of blocks of a component; the rows before it are already in the buffer. */
  method FillRow(g: Geometry, src: Source, c: nat, row: nat, m: nat, inImage: bool, ghost y: nat, buf: array<Block>, blkn: nat)
    requires g.Valid() && c < |g.comps| && m < g.cols && (inImage <==> row < g.comps[c].height)
    requires !inImage ==> g.Interleaved() && y > 0
    requires blkn + g.McuWidth(c) <= buf.Length && y <= row
    requires y > 0 ==> blkn >= g.McuWidth(c) && buf[blkn - g.McuWidth(c)..blkn] == McuRow(g, src, c, row - 1, m)
    modifies buf
    ensures buf[blkn..blkn + g.McuWidth(c)] == McuRow(g, src, c, row, m)
    ensures buf[..blkn] == old(buf[..blkn])
  {
    if inImage {
      FillRealRow(g, src, c, row, m, buf, blkn);
    } else {
      FillDummyRow(g, src, c, row, m, buf, blkn);
    }
  }

  lemma {:induction false} BlocksMono(g: Geometry, c: nat, d: nat)
    requires g.Valid() && c <= d <= |g.comps|
    ensures g.BlocksUpTo(c) <= g.BlocksUpTo(d)
  {
    if c < d { BlocksMono(g, c, d - 1); }
  }

  lemma RowAppended(g: Geometry, src: Source, c: nat, top: nat, m: nat, y: nat, pre: seq<Block>)
    requires g.Valid() && c < |g.comps|
    ensures var row := McuRow(g, src, c, top + y, m);
            var all := pre + CompRows(g, src, c, top, m, y + 1);
            && all == pre + CompRows(g, src, c, top, m, y) + row
            && all[|all| - g.McuWidth(c)..] == row
  {
    Associative(pre, CompRows(g, src, c, top, m, y), McuRow(g, src, c, top + y, m));
  }

  lemma TailOfPrefix(buf: array<Block>, n: nat, w: nat)
    requires w <= n <= buf.Length
    ensures buf[n - w..n] == buf[..n][n - w..]
  {
  }

  /** The next row of a component, after pre and the y rows before it. */
  method AppendRow(g: Geometry, src: Source, c: nat, top: nat, m: nat, y: nat, inImage: bool, buf: array<Block>, blkn: nat,
                   ghost pre: seq<Block>)
    requires g.Valid() && c < |g.comps| && m < g.cols && (inImage <==> top + y < g.comps[c].height)
    requires !inImage ==> g.Interleaved() && y > 0
    requires blkn + g.McuWidth(c) <= buf.Length
    requires buf[..blkn] == pre + CompRows(g, src, c, top, m, y)
    modifies buf
    ensures buf[..blkn + g.McuWidth(c)] == pre + CompRows(g, src, c, top, m, y + 1)
  {
    if y > 0 {
      LastRowInBuffer(g, src, c, top, m, y, pre, buf, blkn);
    }
    FillRow(g, src, c, top + y, m, inImage, y, buf, blkn);
    RowAppended(g, src, c, top, m, y, pre);
    SplitPrefix(buf, blkn, g.McuWidth(c));
  }

  lemma LastRowInBuffer(g: Geometry, src: Source, c: nat, top: nat, m: nat, y: nat, pre: seq<Block>, buf: array<Block>, blkn: nat)
    requires g.Valid() && c < |g.comps| && y > 0 && blkn <= buf.Length && buf[..blkn] == pre + CompRows(g, src, c, top, m, y)
    ensures blkn >= g.McuWidth(c) && buf[blkn - g.McuWidth(c)..blkn] == McuRow(g, src, c, top + y - 1, m)
  {
    RowAppended(g, src, c, top, m, y - 1, pre);
    AtLeastOneRow(y, g.McuWidth(c));
    TailOfPrefix(buf, blkn, g.McuWidth(c));
  }

  lemma SplitPrefix(buf: array<Block>, n: nat, w: nat)
    requires n + w <= buf.Length
    ensures buf[..n + w] == buf[..n] + buf[n..n + w]
  {
  }

  lemma CompRowsFit(g: Geometry, src: Source, c: nat, top: nat, m: nat, y: nat, n: nat)
    requires g.Valid() && c < |g.comps| && y < n
    ensures |CompRows(g, src, c, top, m, y)| + g.McuWidth(c) == |CompRows(g, src, c, top, m, y + 1)| <= |CompRows(g, src, c, top, m, n)|
  {
    StripInside(y, n, g.McuWidth(c));
  }

  /** All rows of one component. */
  method FillComponent(g: Geometry, src: Source, c: nat, i: nat, yoff: nat, m: nat, buf: array<Block>, blkn0: nat)
    returns (blkn: nat)
    requires g.Valid() && c < |g.comps| && i < g.rows && yoff < g.McuRows(i) && m < g.cols
    requires blkn0 + g.McuHeight(c) * g.McuWidth(c) <= buf.Length
    modifies buf
    ensures blkn == blkn0 + g.McuHeight(c) * g.McuWidth(c) <= buf.Length
    ensures buf[..blkn] == old(buf[..blkn0]) + CompRows(g, src, c, i * g.comps[c].v + yoff, m, g.McuHeight(c))
  {
    var w, n, top := g.McuWidth(c), g.McuHeight(c), i * g.comps[c].v + yoff;
    ghost var pre := buf[..blkn0];
    blkn := blkn0;
    var y: nat := 0;
    while y < n
      invariant y <= n && blkn == blkn0 + |CompRows(g, src, c, top, m, y)| <= buf.Length
      invariant buf[..blkn] == pre + CompRows(g, src, c, top, m, y)
    {
      CompRowsFit(g, src, c, top, m, y, n);
      RealRow(g, c, i, yoff + y);
      AppendRow(g, src, c, top, m, y, i < g.rows - 1 || yoff + y < g.LastRowHeight(c), buf, blkn, pre);
      blkn, y := blkn + w, y + 1;
    }
  }

  lemma AtLeastOneRow(y: nat, w: nat)
    requires y >= 1
    ensures y * w >= w
  {
    MulAtLeast(w, y);
  }

  /** compress_data's construction of one MCU in the block buffer. */
  method FillMcu(g: Geometry, src: Source, i: nat, yoff: nat, m: nat, buf: array<Block>) returns (mcu: Mcu)
    requires g.Valid() && i < g.rows && yoff < g.McuRows(i) && m < g.cols
    requires g.BlocksUpTo(|g.comps|) <= buf.Length
    modifies buf
    ensures mcu == McuAt(g, src, i, yoff, m)
  {
    var blkn := 0;
    for c := 0 to |g.comps|
      invariant blkn == g.BlocksUpTo(c) <= buf.Length && buf[..blkn] == CompsUpTo(g, src, i, yoff, m, c)
    {
      BlocksMono(g, c + 1, |g.comps|);
      blkn := FillComponent(g, src, c, i, yoff, m, buf, blkn);
    }
    mcu := buf[..blkn];
  }

  // ---------------------------------------------------------------- full image buffer

  /** Columns of a whole-image array: the width rounded up to whole MCUs. */
  function ImageCols(g: Geometry, c: nat): nat
    requires c < |g.comps| && g.comps[c].Valid()
  {
    CeilDiv(g.comps[c].width, g.comps[c].h) * g.comps[c].h
  }

  ghost predicate ImageShaped(g: Geometry, c: nat, img: array2<Block>)
    requires g.Valid() && c < |g.comps|
  {
    img.Length0 == g.rows * g.comps[c].v && img.Length1 == ImageCols(g, c)
  }

  /** A row of the array holds the padded image. */
  ghost predicate RowDone(g: Geometry, src: Source, c: nat, img: array2<Block>, row: nat)
    requires g.Valid() && c < |g.comps|
    reads img
  {
    row < img.Length0 && forall col :: 0 <= col < img.Length1 ==> img[row, col] == PaddedBlock(g, src, c, row, col)
  }

  lemma DummyColumns(width: nat, h: nat)
    requires width >= 1 && h >= 1
    ensures CeilDiv(width, h) * h == width + if width % h > 0 then h - width % h else 0
  {
    GroupsAndLast(width, h);
    var q := CeilDiv(width, h);
    assert q * h == (q - 1) * h + h;
  }

  /** A block row of the image: the DCT's blocks, then dummies up to a whole number of MCUs. */
  method ImageRealRow(g: Geometry, src: Source, c: nat, row: nat, img: array2<Block>)
    requires g.Valid() && c < |g.comps| && ImageShaped(g, c, img) && row < img.Length0 && row < g.comps[c].height
    modifies img
    ensures RowDone(g, src, c, img, row)
    ensures OtherRowsKept(img, row)
    ensures forall r: nat :: r != row && old(RowDone(g, src, c, img, r)) ==> RowDone(g, src, c, img, r)
  {
    var width, h := g.comps[c].width, g.comps[c].h;
    DummyColumns(width, h);
    var ndummy := width % h;
    if ndummy > 0 {
      ndummy := h - ndummy;
    }
    for col := 0 to width
      invariant forall k :: 0 <= k < col ==> img[row, k] == src(c, row, k)
      invariant OtherRowsKept(img, row)
    {
      img[row, col] := src(c, row, col);
    }
    if ndummy > 0 {
      var lastDC := img[row, width - 1][0];
      for bi := 0 to ndummy
        invariant forall k :: 0 <= k < width ==> img[row, k] == src(c, row, k)
        invariant forall k :: width <= k < width + bi ==> img[row, k] == Dummy(lastDC)
        invariant OtherRowsKept(img, row)
      {
        img[row, width + bi] := Dummy(lastDC);
      }
    }
  }

  /** All but one row of an array is as before. */
  twostate predicate OtherRowsKept(img: array2<Block>, row: nat)
    reads img
  {
    forall r, col :: 0 <= r < img.Length0 && 0 <= col < img.Length1 && r != row ==> img[r, col] == old(img[r, col])
  }

  /** The dummy blocks of one MCU in a row: the DC value of the MCU's last block in the row above. */
  method DummyMcu(g: Geometry, src: Source, c: nat, row: nat, col: nat, img: array2<Block>, ghost m: nat)
    requires g.Valid() && c < |g.comps| && 1 <= row < img.Length0 && row >= g.comps[c].height
    requires RowDone(g, src, c, img, row - 1) && col == m * g.comps[c].h && col + g.comps[c].h <= img.Length1
    requires forall k :: 0 <= k < col ==> img[row, k] == PaddedBlock(g, src, c, row, k)
    modifies img
    ensures forall k :: 0 <= k < col + g.comps[c].h ==> img[row, k] == PaddedBlock(g, src, c, row, k)
    ensures OtherRowsKept(img, row)
  {
    var h := g.comps[c].h;
    var lastDC := img[row - 1, col + h - 1][0];
    for bi := 0 to h
      invariant forall k :: 0 <= k < col + bi ==> img[row, k] == PaddedBlock(g, src, c, row, k)
      invariant OtherRowsKept(img, row)
    {
      DummyBelow(g, src, c, row, m, bi);
      img[row, col + bi] := Dummy(lastDC);
    }
  }

  /** A whole block row that lies below the image, MCU by MCU. */
  method ImageDummyRow(g: Geometry, src: Source, c: nat, row: nat, img: array2<Block>)
    requires g.Valid() && c < |g.comps| && ImageShaped(g, c, img) && 1 <= row < img.Length0 && row >= g.comps[c].height
    requires RowDone(g, src, c, img, row - 1)
    modifies img
    ensures RowDone(g, src, c, img, row)
    ensures OtherRowsKept(img, row)
    ensures forall r: nat :: r != row && old(RowDone(g, src, c, img, r)) ==> RowDone(g, src, c, img, r)
  {
    var h := g.comps[c].h;
    var mcusAcross := CeilDiv(g.comps[c].width, h);
    var col, m: nat := 0, 0;
    while m < mcusAcross
      invariant m <= mcusAcross && col == m * h
      invariant RowDone(g, src, c, img, row - 1)
      invariant forall k :: 0 <= k < col ==> img[row, k] == PaddedBlock(g, src, c, row, k)
      invariant OtherRowsKept(img, row)
    {
      StripInside(m, mcusAcross, h);
      DummyMcu(g, src, c, row, col, img, m);
      col, m := col + h, m + 1;
    }
  }

  /** A strip of v rows holds the padded image. */
  ghost predicate StripDone(g: Geometry, src: Source, c: nat, img: array2<Block>, top: nat, n: nat)
    requires g.Valid() && c < |g.comps|
    reads img
  {
    forall r: nat :: top <= r < top + n ==> RowDone(g, src, c, img, r)
  }

  /** Rows outside a strip are as before. */
  twostate predicate OutsideKept(img: array2<Block>, top: nat, n: nat)
    reads img
  {
    forall r, col :: 0 <= r < img.Length0 && 0 <= col < img.Length1 && !(top <= r < top + n) ==> img[r, col] == old(img[r, col])
  }

  /** compress_first_pass for one component: the strip of iMCU row i. */
  method FirstPassComponent(g: Geometry, src: Source, c: nat, i: nat, img: array2<Block>)
    requires g.Valid() && c < |g.comps| && i < g.rows && ImageShaped(g, c, img)
    modifies img
    ensures StripDone(g, src, c, img, i * g.comps[c].v, g.comps[c].v)
    ensures OutsideKept(img, i * g.comps[c].v, g.comps[c].v)
  {
    var v := g.comps[c].v;
    StripInside(i, g.rows, v);
    var blockRows := if i < g.rows - 1 then v else LastPart(g.comps[c].height, v);
    ghost var top := i * v;
    var y: nat := 0;
    while y < v
      invariant y <= v && StripDone(g, src, c, img, top, y)
      invariant OutsideKept(img, top, v)
    {
      RealRow(g, c, i, y);
      if y < blockRows {
        ImageRealRow(g, src, c, i * v + y, img);
      } else {
        assert RowDone(g, src, c, img, top + y - 1);
        ImageDummyRow(g, src, c, i * v + y, img);
      }
      y := y + 1;
    }
  }

  lemma StripInside(i: nat, rows: nat, v: nat)
    requires i < rows
    ensures i * v + v <= rows * v
    ensures (i + 1) * v == i * v + v
  {
    MulAtLeast(v, rows - 1 - i);
    assert rows * v == i * v + v + v * (rows - 1 - i);
  }
}
