/**
 The coefficient controller: it walks the MCUs of an image, hands each to the entropy
 encoder, and can be stopped by a suspension at any MCU and called again.  Wherever it is
 stopped, the MCUs written are exactly those before its position, in coding order.
 */
module CoefController {
  import opened Bits
  import opened BitWriter
  import opened BlockCode
  import opened ScanModel
  import opened HuffEncoder
  import opened McuGeometry
  import opened CoefBuffer

  /** MCU_membership: the component of each block of an MCU. */
  function Membership(g: Geometry, c: nat): (r: seq<nat>)
    requires g.Valid() && c <= |g.comps|
    ensures |r| == g.BlocksUpTo(c)
  {
    if c == 0 then [] else Membership(g, c - 1) + seq(g.McuHeight(c - 1) * g.McuWidth(c - 1), _ => c - 1)
  }

  /** As many places in turn for each component as it has blocks in an MCU. */
  lemma {:induction false} MembershipAt(g: Geometry, n: nat, c: nat, j: nat)
    requires g.Valid() && c < n <= |g.comps| && g.BlocksUpTo(c) <= j < g.BlocksUpTo(c + 1)
    ensures j < |Membership(g, n)| && Membership(g, n)[j] == c
    ensures g.BlocksUpTo(c + 1) - g.BlocksUpTo(c) == if |g.comps| > 1 then g.comps[c].v * g.comps[c].h else 1
  {
    if c < n - 1 { MembershipAt(g, n - 1, c, j); }
  }

  /** The scan parameters and tables belong to the geometry. */
  ghost predicate Matches(g: Geometry, scan: Scan, ts: TableSet)
  {
    g.Valid() && scan.Valid() && ts.Shaped() && |scan.dcTbl| == |g.comps| && scan.membership == Membership(g, |g.comps|)
  }

  /**
   What an entropy encoder makes of a sequence of MCUs: its state and the bytes after them, whether
   it can encode them all, whether it can encode one more, and how many bytes that takes.
   */
  datatype Writing = Writing(state: seq<Mcu> -> Saved, bytes: seq<Mcu> -> seq<Byte>, accepted: seq<Mcu> -> bool,
                             encodable: (seq<Mcu>, Mcu) -> bool, size: (seq<Mcu>, Mcu) -> nat)

  /** w describes the Huffman encoder of the scan. */
  ghost predicate Follows(w: Writing, scan: Scan, ts: TableSet)
  {
    scan.Valid() && ts.Shaped() && forall mcus: seq<Mcu> {:trigger FollowsAfter(w, scan, ts, mcus)} :: FollowsAfter(w, scan, ts, mcus)
  }

  ghost predicate FollowsAfter(w: Writing, scan: Scan, ts: TableSet, mcus: seq<Mcu>)
    requires scan.Valid() && ts.Shaped()
  {
    Mcus(scan, mcus) ==>
      var s := StateAfter(scan, ts, Initial(scan), mcus);
      w.state(mcus) == s && w.bytes(mcus) == BytesOf(scan, ts, Initial(scan), mcus) &&
      w.accepted(mcus) == ScanEncodable(scan, ts, mcus, scan.Zeros(), scan.restartInterval) &&
      forall mcu: Mcu :: |mcu| == |scan.membership| ==>
        w.encodable(mcus, mcu) == NextEncodable(scan, ts, s, mcu) && w.size(mcus, mcu) == |Emitted(scan, ts, s, mcu)|
  }

  ghost function WritingOf(scan: Scan, ts: TableSet): (w: Writing)
    requires scan.Valid() && ts.Shaped()
  {
    Writing(mcus => if Mcus(scan, mcus) then StateAfter(scan, ts, Initial(scan), mcus) else Initial(scan),
            mcus => if Mcus(scan, mcus) then BytesOf(scan, ts, Initial(scan), mcus) else [],
            mcus => Mcus(scan, mcus) && ScanEncodable(scan, ts, mcus, scan.Zeros(), scan.restartInterval),
            (mcus, mcu) => Mcus(scan, mcus) && |mcu| == |scan.membership| &&
                           NextEncodable(scan, ts, StateAfter(scan, ts, Initial(scan), mcus), mcu),
            (mcus, mcu) => if Mcus(scan, mcus) && |mcu| == |scan.membership|
                           then |Emitted(scan, ts, StateAfter(scan, ts, Initial(scan), mcus), mcu)| else 0)
  }

  lemma WritingFollows(scan: Scan, ts: TableSet)
    requires scan.Valid() && ts.Shaped()
    ensures Follows(WritingOf(scan, ts), scan, ts)
  {
    var w := WritingOf(scan, ts);
    forall mcus: seq<Mcu> ensures FollowsAfter(w, scan, ts, mcus) {}
  }

  /** The encoder has written exactly mcus to dest, after base. */
  ghost predicate Written(w: Writing, enc: Encoder, dest: Destination, base: seq<Byte>, mcus: seq<Mcu>)
    reads enc, dest, dest.buffer
  {
    enc.Valid() && dest.Valid() && Mcus(enc.scan, mcus) && w.accepted(mcus) &&
    enc.State() == w.state(mcus) && dest.Stream() == base + w.bytes(mcus)
  }

  /** A refusal of an MCU that could be written means the destination had no room for it. */
  ghost predicate NoRoom(w: Writing, dest: Destination, mcus: seq<Mcu>, mcu: Mcu)
    reads dest
  {
    w.encodable(mcus, mcu) ==> w.size(mcus, mcu) >= dest.free
  }

  /** Submit one MCU: it is written after the others, or nothing is. */
  method Submit(enc: Encoder, dest: Destination, mcu: Mcu, ghost w: Writing, ghost base: seq<Byte>, ghost mcus: seq<Mcu>)
    returns (r: Outcome)
    requires Follows(w, enc.scan, enc.ts) && Written(w, enc, dest, base, mcus) && |mcu| == |enc.scan.membership|
    modifies enc, dest, dest.buffer
    ensures dest.buffer == old(dest.buffer) && dest.accepts == old(dest.accepts)
    ensures r.Done? ==> Written(w, enc, dest, base, mcus + [mcu])
    ensures r.Suspended? ==> !dest.accepts && Written(w, enc, dest, base, mcus) && NoRoom(w, dest, mcus, mcu) && dest.free == old(dest.free)
    ensures r.Failed? ==> !w.encodable(mcus, mcu)
  {
    ghost var s0 := Initial(enc.scan);
    assert FollowsAfter(w, enc.scan, enc.ts, mcus);
    r := enc.EncodeMcu(dest, mcu);
    if r.Done? {
      assert FollowsAfter(w, enc.scan, enc.ts, mcus + [mcu]);
      RunExtend(enc.scan, enc.ts, s0, mcus, mcu);
      EncodableExtend(enc.scan, enc.ts, s0, mcus, mcu);
      Associative(base, BytesOf(enc.scan, enc.ts, s0, mcus), Emitted(enc.scan, enc.ts, StateAfter(enc.scan, enc.ts, s0, mcus), mcu));
    }
  }

  class Controller {
    const g: Geometry
    const src: Source
    const mcuBuffer: array<Block>
    const wholeImage: seq<array2<Block>>
    var iMCURowNum: nat
    var mcuCtr: nat
    var mcuVertOffset: nat
    var mcuRowsPerIMCURow: nat

    constructor (g: Geometry, src: Source)
      requires g.Valid() && g.BlocksUpTo(|g.comps|) <= 10
      ensures this.g == g && this.src == src && Valid() && AtStartOf(0) && fresh(mcuBuffer) && wholeImage == []
    {
      this.g, this.src := g, src;
      mcuBuffer := new Block[10](_ => DcOnly(0));
      wholeImage := [];
      iMCURowNum, mcuCtr, mcuVertOffset, mcuRowsPerIMCURow := 0, 0, 0, g.McuRows(0);
    }

    /** start_pass with a full-image buffer. */
    constructor WithImage(g: Geometry, src: Source)
      requires g.Valid() && g.BlocksUpTo(|g.comps|) <= 10
      ensures this.g == g && this.src == src && Valid() && AtStartOf(0) && fresh(mcuBuffer)
      ensures HasImage() && forall c :: 0 <= c < |wholeImage| ==> fresh(wholeImage[c])
    {
      this.g, this.src := g, src;
      mcuBuffer := new Block[10](_ => DcOnly(0));
      iMCURowNum, mcuCtr, mcuVertOffset, mcuRowsPerIMCURow := 0, 0, 0, g.McuRows(0);
      var images: seq<array2<Block>> := [];
      for c := 0 to |g.comps|
        invariant |images| == c
        invariant forall k :: 0 <= k < c ==> fresh(images[k]) && ImageShaped(g, k, images[k])
        invariant forall k, l :: 0 <= k < l < c ==> images[k] != images[l]
      {
        var img := new Block[g.rows * g.comps[c].v, ImageCols(g, c)]((_, _) => DcOnly(0));
        images := images + [img];
      }
      wholeImage := images;
    }

    ghost predicate Valid()
      reads this
    {
      g.Valid() && g.BlocksUpTo(|g.comps|) <= 10 && mcuBuffer.Length == 10 &&
      (iMCURowNum < g.rows ==> mcuVertOffset < mcuRowsPerIMCURow == g.McuRows(iMCURowNum)) &&
      mcuCtr < g.cols
    }

    ghost predicate HasImage()
    {
      g.Valid() && |wholeImage| == |g.comps| &&
      (forall c :: 0 <= c < |wholeImage| ==> ImageShaped(g, c, wholeImage[c])) &&
      (forall c, d :: 0 <= c < d < |wholeImage| ==> wholeImage[c] != wholeImage[d])
    }

    ghost predicate AtStartOf(i: nat)
      reads this
    {
      iMCURowNum == i && mcuCtr == 0 && mcuVertOffset == 0
    }

    /** All MCUs before the controller's position. */
    ghost function Position(): seq<Mcu>
      requires Valid()
      reads this
    {
      Before(g, src, iMCURowNum, mcuVertOffset, mcuCtr)
    }

    /** start_iMCU_row: how many MCU rows this iMCU row has, and back to the first MCU. */
    method StartIMCURow()
      requires g.Valid()
      modifies this
      ensures iMCURowNum == old(iMCURowNum) && AtStartOf(iMCURowNum)
      ensures iMCURowNum < g.rows ==> mcuRowsPerIMCURow == g.McuRows(iMCURowNum)
    {
      if |g.comps| > 1 {
        mcuRowsPerIMCURow := 1;
      } else if iMCURowNum < g.rows - 1 {
        mcuRowsPerIMCURow := g.comps[0].v;
      } else {
        mcuRowsPerIMCURow := g.LastRowHeight(0);
      }
      mcuCtr := 0;
      mcuVertOffset := 0;
    }

    /** start_pass_coef: back to the first iMCU row. */
    method StartPass()
      requires g.Valid() && g.BlocksUpTo(|g.comps|) <= 10 && mcuBuffer.Length == 10
      modifies this
      ensures Valid() && AtStartOf(0)
    {
      iMCURowNum := 0;
      StartIMCURow();
    }

    /** The MCU to be sent next, from the block buffer or from the whole-image arrays. */
    method NextMcu(fromImage: bool, yoffset: nat, col: nat) returns (mcu: Mcu)
      requires Valid() && iMCURowNum < g.rows && yoffset < mcuRowsPerIMCURow && col < g.cols
      requires fromImage ==> HasImage() && StripsDone(iMCURowNum)
      modifies mcuBuffer
      ensures mcu == McuAt(g, src, iMCURowNum, yoffset, col)
    {
      if fromImage {
        mcu := McuFromImage(yoffset, col);
      } else {
        mcu := FillMcu(g, src, iMCURowNum, yoffset, col, mcuBuffer);
      }
    }

    /** The strip of iMCU row i of every component has been loaded. */
    ghost predicate StripsDone(i: nat)
      requires HasImage()
      reads wholeImage
    {
      forall c :: 0 <= c < |g.comps| ==> StripDone(g, src, c, wholeImage[c], i * g.comps[c].v, g.comps[c].v)
    }

    /** compress_output's list of the blocks belonging to an MCU. */
    method McuFromImage(yoffset: nat, col: nat) returns (mcu: Mcu)
      requires Valid() && iMCURowNum < g.rows && yoffset < mcuRowsPerIMCURow && col < g.cols
      requires HasImage() && StripsDone(iMCURowNum)
      ensures mcu == McuAt(g, src, iMCURowNum, yoffset, col)
    {
      mcu := [];
      for c := 0 to |g.comps|
        invariant mcu == CompsUpTo(g, src, iMCURowNum, yoffset, col, c)
      {
        var rows := CompFromImage(c, yoffset, col);
        mcu := mcu + rows;
      }
    }

    method CompFromImage(c: nat, yoffset: nat, col: nat) returns (r: seq<Block>)
      requires Valid() && iMCURowNum < g.rows && yoffset < mcuRowsPerIMCURow && col < g.cols && c < |g.comps|
      requires HasImage() && StripsDone(iMCURowNum)
      ensures r == CompRows(g, src, c, iMCURowNum * g.comps[c].v + yoffset, col, g.McuHeight(c))
    {
      r := [];
      StripInside(iMCURowNum, g.rows, g.comps[c].v);
      MulNat(iMCURowNum, g.comps[c].v);
      var top: nat := iMCURowNum * g.comps[c].v;
      assert StripDone(g, src, c, wholeImage[c], top, g.comps[c].v);
      YoffsetInStrip(yoffset, c);
      for yindex := 0 to g.McuHeight(c)
        invariant r == CompRows(g, src, c, top + yoffset, col, yindex)
      {
        assert RowDone(g, src, c, wholeImage[c], top + (yindex + yoffset));
        var row := RowFromImage(wholeImage[c], c, top + (yindex + yoffset), col);
        r := r + row;
      }
    }

    lemma YoffsetInStrip(yoffset: nat, c: nat)
      requires Valid() && iMCURowNum < g.rows && yoffset < mcuRowsPerIMCURow && c < |g.comps|
      ensures yoffset + g.McuHeight(c) <= g.comps[c].v
    {
    }

    method RowFromImage(img: array2<Block>, c: nat, row: nat, col: nat) returns (r: seq<Block>)
      requires g.Valid() && c < |g.comps| && ImageShaped(g, c, img) && col < g.cols && RowDone(g, src, c, img, row)
      ensures r == McuRow(g, src, c, row, col)
    {
      var w := g.McuWidth(c);
      ColumnsInImage(g, c, col);
      var start := col * w;
      r := [];
      for xindex := 0 to w
        invariant r == McuRow(g, src, c, row, col)[..xindex]
      {
        r := r + [img[row, start + xindex]];
      }
    }

    /** The strips of the first n iMCU rows have been loaded. */
    ghost predicate Loaded(n: nat)
      requires HasImage()
      reads wholeImage
    {
      forall i: nat :: i < n ==> StripsDone(i)
    }

    /** compress_first_pass before it goes on as compress_output: load the strip of this iMCU row. */
    method LoadStrips()
      requires Valid() && HasImage() && iMCURowNum < g.rows && Loaded(iMCURowNum)
      modifies wholeImage
      ensures StripsDone(iMCURowNum) && Loaded(iMCURowNum + 1)
    {
      for c := 0 to |g.comps|
        invariant forall k :: 0 <= k < c ==> StripDone(g, src, k, wholeImage[k], iMCURowNum * g.comps[k].v, g.comps[k].v)
        invariant Loaded(iMCURowNum)
      {
        assert wholeImage[c] in wholeImage;
        LoadStrip(c);
      }
      assert StripsDone(iMCURowNum);
    }

    /** The strip of one component; earlier strips and other components stay as they are. */
    method LoadStrip(c: nat)
      requires Valid() && HasImage() && iMCURowNum < g.rows && c < |g.comps| && Loaded(iMCURowNum)
      modifies wholeImage[c]
      ensures StripDone(g, src, c, wholeImage[c], iMCURowNum * g.comps[c].v, g.comps[c].v)
      ensures Loaded(iMCURowNum)
    {
      var v := g.comps[c].v;
      FirstPassComponent(g, src, c, iMCURowNum, wholeImage[c]);
      forall i: nat | i < iMCURowNum
        ensures StripsDone(i)
      {
        assert old(StripsDone(i));
        assert old(StripDone(g, src, c, wholeImage[c], i * v, v));
        StripInside(i, iMCURowNum, v);
        forall k | 0 <= k < |g.comps|
          ensures StripDone(g, src, k, wholeImage[k], i * g.comps[k].v, g.comps[k].v)
        {
          if k == c {
            forall r: nat | i * v <= r < i * v + v
              ensures RowDone(g, src, c, wholeImage[c], r)
            {
              assert old(RowDone(g, src, c, wholeImage[c], r));
            }
          } else {
            assert old(StripDone(g, src, k, wholeImage[k], i * g.comps[k].v, g.comps[k].v));
          }
        }
      }
    }

    /** The encoder is set up for this controller's MCUs. */
    ghost predicate Connected(w: Writing, enc: Encoder)
    {
      g.Valid() && Follows(w, enc.scan, enc.ts) && |enc.scan.membership| == g.BlocksUpTo(|g.comps|)
    }

    /** The destination's buffer is not one of the controller's. */
    ghost predicate Apart(dest: Destination)
      reads dest
    {
      dest.buffer as object != mcuBuffer && dest.buffer as object !in wholeImage && mcuBuffer as object !in wholeImage
    }

    /** Some MCU of iMCU row i cannot be encoded after those before it. */
    ghost predicate SomeRejected(w: Writing, i: nat)
      requires g.Valid()
    {
      exists y: nat, m: nat :: y < g.McuRows(i) && m < g.cols && !w.encodable(Before(g, src, i, y, m), McuAt(g, src, i, y, m))
    }

    /** Everything before this position of the iMCU row is written, and the destination had no room for what comes next. */
    ghost predicate RefusedAt(w: Writing, enc: Encoder, dest: Destination, base: seq<Byte>, y: nat, m: nat)
      requires g.Valid()
      reads this, enc, dest, dest.buffer
    {
      !dest.accepts && Written(w, enc, dest, base, Before(g, src, iMCURowNum, y, m)) &&
      NoRoom(w, dest, Before(g, src, iMCURowNum, y, m), McuAt(g, src, iMCURowNum, y, m))
    }

    /** Build and submit the MCU at a position. */
    method SubmitAt(fromImage: bool, yoffset: nat, col: nat, enc: Encoder, dest: Destination, ghost w: Writing, ghost base: seq<Byte>)
      returns (r: Outcome)
      requires Valid() && Connected(w, enc) && Apart(dest) && iMCURowNum < g.rows && yoffset < mcuRowsPerIMCURow && col < g.cols
      requires fromImage ==> HasImage() && StripsDone(iMCURowNum)
      requires Written(w, enc, dest, base, Before(g, src, iMCURowNum, yoffset, col))
      modifies mcuBuffer, enc, dest, dest.buffer
      ensures dest.buffer == old(dest.buffer) && dest.accepts == old(dest.accepts)
      ensures r.Done? ==> Written(w, enc, dest, base, Before(g, src, iMCURowNum, yoffset, col + 1))
      ensures r.Suspended? ==> RefusedAt(w, enc, dest, base, yoffset, col) && dest.free == old(dest.free)
      ensures r.Failed? ==> SomeRejected(w, iMCURowNum)
      ensures fromImage ==> StripsDone(iMCURowNum)
    {
      ghost var mcus := Before(g, src, iMCURowNum, yoffset, col);
      var mcu := NextMcu(fromImage, yoffset, col);
      r := Submit(enc, dest, mcu, w, base, mcus);
      BeforeNext(g, src, iMCURowNum, yoffset, col);
    }

    /** The MCUs of an MCU row from column col0 on; col is where it stopped. */
    method WriteMcuRow(fromImage: bool, yoffset: nat, col0: nat, enc: Encoder, dest: Destination, ghost w: Writing, ghost base: seq<Byte>)
      returns (r: Outcome, col: nat)
      requires Valid() && Connected(w, enc) && Apart(dest) && iMCURowNum < g.rows && yoffset < mcuRowsPerIMCURow && col0 <= g.cols
      requires fromImage ==> HasImage() && StripsDone(iMCURowNum)
      requires Written(w, enc, dest, base, Before(g, src, iMCURowNum, yoffset, col0))
      modifies mcuBuffer, enc, dest, dest.buffer
      ensures dest.buffer == old(dest.buffer) && dest.accepts == old(dest.accepts)
      ensures r.Done? ==> Written(w, enc, dest, base, Before(g, src, iMCURowNum, yoffset, g.cols))
      ensures r.Suspended? ==> RefusedAt(w, enc, dest, base, yoffset, col) && col0 <= col < g.cols && (col == col0 ==> dest.free == old(dest.free))
      ensures r.Failed? ==> SomeRejected(w, iMCURowNum)
      ensures fromImage ==> StripsDone(iMCURowNum)
    {
      col := col0;
      r := Done;
      while col < g.cols
        invariant col0 <= col <= g.cols && r.Done? && (col == col0 ==> dest.free == old(dest.free))
        invariant dest.buffer == old(dest.buffer) && dest.accepts == old(dest.accepts)
        invariant fromImage ==> StripsDone(iMCURowNum)
        invariant Written(w, enc, dest, base, Before(g, src, iMCURowNum, yoffset, col))
      {
        r := SubmitAt(fromImage, yoffset, col, enc, dest, w, base);
        if !r.Done? {
          return;
        }
        col := col + 1;
      }
    }

    /** The same up to the start of the next MCU row. */
    method WriteRestOfRow(fromImage: bool, yoffset: nat, col0: nat, enc: Encoder, dest: Destination, ghost w: Writing, ghost base: seq<Byte>)
      returns (r: Outcome, col: nat)
      requires Valid() && Connected(w, enc) && Apart(dest) && iMCURowNum < g.rows && yoffset < mcuRowsPerIMCURow && col0 <= g.cols
      requires fromImage ==> HasImage() && StripsDone(iMCURowNum)
      requires Written(w, enc, dest, base, Before(g, src, iMCURowNum, yoffset, col0))
      modifies mcuBuffer, enc, dest, dest.buffer
      ensures dest.buffer == old(dest.buffer) && dest.accepts == old(dest.accepts)
      ensures r.Done? ==> col == 0 && Written(w, enc, dest, base, Before(g, src, iMCURowNum, yoffset + 1, 0))
      ensures r.Suspended? ==> RefusedAt(w, enc, dest, base, yoffset, col) && col0 <= col < g.cols && (col == col0 ==> dest.free == old(dest.free))
      ensures r.Failed? ==> SomeRejected(w, iMCURowNum)
      ensures fromImage ==> StripsDone(iMCURowNum)
    {
      r, col := WriteMcuRow(fromImage, yoffset, col0, enc, dest, w, base);
      if r.Done? {
        BeforeRow(g, src, iMCURowNum, yoffset);
        col := 0;
      }
    }

    /** The MCU rows of an iMCU row from position (y0, m0) on; (y, m) is where it stopped. */
    method WriteRows(fromImage: bool, y0: nat, m0: nat, enc: Encoder, dest: Destination, ghost w: Writing, ghost base: seq<Byte>)
      returns (r: Outcome, y: nat, m: nat)
      requires Valid() && Connected(w, enc) && Apart(dest) && iMCURowNum < g.rows && y0 <= mcuRowsPerIMCURow && m0 <= g.cols
      requires y0 == mcuRowsPerIMCURow ==> m0 == 0
      requires fromImage ==> HasImage() && StripsDone(iMCURowNum)
      requires Written(w, enc, dest, base, Before(g, src, iMCURowNum, y0, m0))
      modifies mcuBuffer, enc, dest, dest.buffer
      ensures dest.buffer == old(dest.buffer) && dest.accepts == old(dest.accepts)
      ensures r.Done? ==> Written(w, enc, dest, base, Before(g, src, iMCURowNum, mcuRowsPerIMCURow, 0))
      ensures r.Suspended? ==> y < mcuRowsPerIMCURow && m < g.cols && (y > y0 || (y == y0 && m >= m0))
      ensures r.Suspended? ==> RefusedAt(w, enc, dest, base, y, m) && (y == y0 && m == m0 ==> dest.free == old(dest.free))
      ensures r.Failed? ==> SomeRejected(w, iMCURowNum)
      ensures fromImage ==> StripsDone(iMCURowNum)
    {
      y, m, r := y0, m0, Done;
      while y < mcuRowsPerIMCURow
        invariant y0 <= y <= mcuRowsPerIMCURow && r.Done? && (m == if y == y0 then m0 else 0) && (y == y0 ==> dest.free == old(dest.free))
        invariant dest.buffer == old(dest.buffer) && dest.accepts == old(dest.accepts)
        invariant fromImage ==> StripsDone(iMCURowNum)
        invariant Written(w, enc, dest, base, Before(g, src, iMCURowNum, y, m))
      {
        r, m := WriteRestOfRow(fromImage, y, m, enc, dest, w, base);
        if !r.Done? {
          return;
        }
        y := y + 1;
      }
    }

    /** The loop compress_data and compress_output share: the rest of one iMCU row. */
    method WriteIMCURow(fromImage: bool, enc: Encoder, dest: Destination, ghost w: Writing, ghost base: seq<Byte>) returns (r: Outcome)
      requires Valid() && Connected(w, enc) && Apart(dest) && iMCURowNum < g.rows
      requires fromImage ==> HasImage() && StripsDone(iMCURowNum)
      requires Written(w, enc, dest, base, Position())
      modifies this, mcuBuffer, enc, dest, dest.buffer
      ensures Valid() && dest.buffer == old(dest.buffer) && dest.accepts == old(dest.accepts)
      ensures r.Done? ==> AtStartOf(old(iMCURowNum) + 1)
      ensures r.Suspended? ==> !dest.accepts && iMCURowNum == old(iMCURowNum)
      ensures r.Suspended? ==> NoRoom(w, dest, Position(), McuAt(g, src, iMCURowNum, mcuVertOffset, mcuCtr))
      ensures r.Suspended? ==> Onward(old(mcuVertOffset), old(mcuCtr), dest, old(dest.free))
      ensures !r.Failed? ==> Written(w, enc, dest, base, Position())
      ensures r.Failed? ==> SomeRejected(w, old(iMCURowNum))
    {
      var y, m;
      r, y, m := WriteRows(fromImage, mcuVertOffset, mcuCtr, enc, dest, w, base);
      if r.Suspended? {
        StopAt(y, m);
      } else if r.Done? {
        FinishIMCURow();
      }
    }

    /** The position to resume from. */
    method StopAt(y: nat, m: nat)
      requires Valid() && iMCURowNum < g.rows && y < mcuRowsPerIMCURow && m < g.cols
      modifies this`mcuVertOffset, this`mcuCtr
      ensures Valid() && mcuVertOffset == y && mcuCtr == m && Position() == Before(g, src, iMCURowNum, y, m)
    {
      mcuVertOffset, mcuCtr := y, m;
    }

    /** On to the iMCU row after this one. */
    method FinishIMCURow()
      requires Valid() && iMCURowNum < g.rows
      modifies this
      ensures Valid() && AtStartOf(old(iMCURowNum) + 1)
      ensures Position() == Before(g, src, old(iMCURowNum), old(mcuRowsPerIMCURow), 0)
    {
      BeforeIMcu(g, src, iMCURowNum);
      iMCURowNum := iMCURowNum + 1;
      StartIMCURow();
    }

    /** One call in the single-pass case. */
    method CompressData(enc: Encoder, dest: Destination, ghost w: Writing, ghost base: seq<Byte>) returns (r: Outcome)
      requires Valid() && Connected(w, enc) && Apart(dest) && iMCURowNum < g.rows && Written(w, enc, dest, base, Position())
      modifies this, mcuBuffer, enc, dest, dest.buffer
      ensures dest.buffer == old(dest.buffer) && dest.accepts == old(dest.accepts)
      ensures Valid() && Apart(dest) && Advanced(r, old(iMCURowNum)) && (r.Suspended? ==> !dest.accepts)
      ensures r.Suspended? ==> Onward(old(mcuVertOffset), old(mcuCtr), dest, old(dest.free))
      ensures !r.Failed? ==> Written(w, enc, dest, base, Position())
      ensures r.Suspended? ==> NoRoom(w, dest, Position(), McuAt(g, src, iMCURowNum, mcuVertOffset, mcuCtr))
      ensures r.Failed? ==> SomeRejected(w, old(iMCURowNum))
    {
      r := WriteIMCURow(false, enc, dest, w, base);
    }

    /** One call of a later pass: the strip has been loaded before. */
    method CompressOutput(enc: Encoder, dest: Destination, ghost w: Writing, ghost base: seq<Byte>) returns (r: Outcome)
      requires Valid() && Connected(w, enc) && Apart(dest) && iMCURowNum < g.rows && Written(w, enc, dest, base, Position())
      requires HasImage() && StripsDone(iMCURowNum)
      modifies this, mcuBuffer, enc, dest, dest.buffer
      ensures dest.buffer == old(dest.buffer) && dest.accepts == old(dest.accepts)
      ensures Valid() && Apart(dest) && Advanced(r, old(iMCURowNum)) && (r.Suspended? ==> !dest.accepts)
      ensures r.Suspended? ==> Onward(old(mcuVertOffset), old(mcuCtr), dest, old(dest.free))
      ensures !r.Failed? ==> Written(w, enc, dest, base, Position())
      ensures r.Suspended? ==> NoRoom(w, dest, Position(), McuAt(g, src, iMCURowNum, mcuVertOffset, mcuCtr))
      ensures r.Failed? ==> SomeRejected(w, old(iMCURowNum))
    {
      r := WriteIMCURow(true, enc, dest, w, base);
    }

    /** One call of the first of several passes; a suspended one loads the strip again. */
    method CompressFirstPass(enc: Encoder, dest: Destination, ghost w: Writing, ghost base: seq<Byte>) returns (r: Outcome)
      requires Valid() && Connected(w, enc) && Apart(dest) && iMCURowNum < g.rows && Written(w, enc, dest, base, Position())
      requires HasImage() && Loaded(iMCURowNum)
      modifies this, mcuBuffer, wholeImage, enc, dest, dest.buffer
      ensures dest.buffer == old(dest.buffer) && dest.accepts == old(dest.accepts)
      ensures Valid() && Apart(dest) && Advanced(r, old(iMCURowNum)) && (r.Suspended? ==> !dest.accepts)
      ensures r.Suspended? ==> Onward(old(mcuVertOffset), old(mcuCtr), dest, old(dest.free))
      ensures !r.Failed? ==> Written(w, enc, dest, base, Position()) && Loaded(iMCURowNum)
      ensures r.Suspended? ==> NoRoom(w, dest, Position(), McuAt(g, src, iMCURowNum, mcuVertOffset, mcuCtr))
      ensures r.Failed? ==> SomeRejected(w, old(iMCURowNum))
    {
      LoadStrips();
      r := CompressOutput(enc, dest, w, base);
    }

    /** The position has moved on, or is the same and so is the room in the destination. */
    ghost predicate Onward(y: nat, m: nat, dest: Destination, free: nat)
      reads this, dest
    {
      mcuVertOffset > y || (mcuVertOffset == y && mcuCtr > m) || (mcuVertOffset == y && mcuCtr == m && dest.free == free)
    }

    /** A call finishes its iMCU row or stays in it. */
    ghost predicate Advanced(r: Outcome, i: nat)
      reads this
    {
      if r.Done? then AtStartOf(i + 1) else r.Suspended? ==> iMCURowNum == i
    }
  }

  /** An MCU's columns lie inside the array. */
  lemma ColumnsInImage(g: Geometry, c: nat, col: nat)
    requires g.Valid() && c < |g.comps| && col < g.cols
    ensures col * g.McuWidth(c) + g.McuWidth(c) <= ImageCols(g, c)
  {
    assert g.Sized(c);
    if g.Interleaved() {
      StripInside(col, g.cols, g.comps[c].h);
    } else {
      DummyColumns(g.comps[c].width, g.comps[c].h);
    }
  }
}
