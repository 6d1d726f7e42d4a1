/**
 Huffman optimisation of an image from end to end: a first pass that stores the blocks and gathers
 statistics, tables generated from them, and a second pass over the stored blocks.
 */
module OptimizedScan {
  import opened Wrappers
  import opened Bits
  import opened BitWriter
  import opened DerivedTable
  import opened ScanModel
  import opened HuffEncoder
  import opened MergeTree
  import opened GatherPass
  import opened CountBound
  import opened TwoPass
  import opened McuGeometry
  import opened CoefController
  import opened Compression

  /** What is left of a run after some of it. */
  function Remaining<T>(all: seq<T>, done: seq<T>): seq<T>
  {
    if |done| <= |all| then all[|done|..] else []
  }

  /** What is left of the image's MCUs at each place of it. */
  type Rest = (nat, nat, nat) -> seq<Mcu>

  ghost function RestOf(g: Geometry, src: Source): Rest
    requires g.Valid()
  {
    (i, y, m) => Remaining(ImageMcus(g, src), Before(g, src, i, y, m))
  }

  ghost predicate SplitsAt(g: Geometry, src: Source, all: seq<Mcu>, rest: Rest, i: nat, y: nat, m: nat)
    requires g.Valid()
  {
    all == ImageMcus(g, src) && rest(i, y, m) == Remaining(all, Before(g, src, i, y, m))
  }

  /** all and rest are the image's MCUs, as a whole and from each place on. */
  ghost predicate Splits(g: Geometry, src: Source, all: seq<Mcu>, rest: Rest)
  {
    g.Valid() && forall i: nat, y: nat, m: nat {:trigger SplitsAt(g, src, all, rest, i, y, m)} :: SplitsAt(g, src, all, rest, i, y, m)
  }

  lemma ImageSplits(g: Geometry, src: Source)
    requires g.Valid()
    ensures Splits(g, src, ImageMcus(g, src), RestOf(g, src))
  {
    forall i: nat, y: nat, m: nat ensures SplitsAt(g, src, ImageMcus(g, src), RestOf(g, src), i, y, m) {}
  }

  lemma NextRemaining<T>(all: seq<T>, done: seq<T>, x: T)
    requires done + [x] <= all
    ensures Remaining(all, done) != [] && Remaining(all, done)[0] == x && Remaining(all, done)[1..] == Remaining(all, done + [x])
  {
    assert all[|done|] == (done + [x])[|done|];
  }

  /** The next MCU is the one at this place. */
  lemma NextIs(g: Geometry, src: Source, all: seq<Mcu>, rest: Rest, i: nat, y: nat, m: nat)
    requires Splits(g, src, all, rest) && Inside(g, i, y, m)
    ensures rest(i, y, m) != [] && rest(i, y, m)[0] == McuAt(g, src, i, y, m) && rest(i, y, m)[1..] == rest(i, y, m + 1)
  {
    assert SplitsAt(g, src, all, rest, i, y, m) && SplitsAt(g, src, all, rest, i, y, m + 1);
    PositionPrefix(g, src, i, y, m);
    NextRemaining(all, Before(g, src, i, y, m), McuAt(g, src, i, y, m));
    BeforeNext(g, src, i, y, m);
  }

  lemma NextRow(g: Geometry, src: Source, all: seq<Mcu>, rest: Rest, i: nat, y: nat)
    requires Splits(g, src, all, rest)
    ensures rest(i, y, g.cols) == rest(i, y + 1, 0)
  {
    assert SplitsAt(g, src, all, rest, i, y, g.cols) && SplitsAt(g, src, all, rest, i, y + 1, 0);
    BeforeRow(g, src, i, y);
  }

  lemma NextIMCU(g: Geometry, src: Source, all: seq<Mcu>, rest: Rest, i: nat)
    requires Splits(g, src, all, rest)
    ensures rest(i, g.McuRows(i), 0) == rest(i + 1, 0, 0)
  {
    assert SplitsAt(g, src, all, rest, i, g.McuRows(i), 0) && SplitsAt(g, src, all, rest, i + 1, 0, 0);
    BeforeIMcu(g, src, i);
  }

  lemma StartAndEnd(g: Geometry, src: Source, all: seq<Mcu>, rest: Rest)
    requires Splits(g, src, all, rest)
    ensures rest(0, 0, 0) == all && rest(g.rows, 0, 0) == []
  {
    assert SplitsAt(g, src, all, rest, 0, 0, 0) && SplitsAt(g, src, all, rest, g.rows, 0, 0);
    AllBefore(g, src);
  }

  /** Some MCU has a coefficient out of range. */
  ghost predicate OutOfRange(g: Gatherer, all: seq<Mcu>)
    reads g
  {
    g.scan.Valid() && Mcus(g.scan, all) && !ScanInRange(g.scan, all, g.scan.Zeros(), g.scan.restartInterval)
  }

  /** The image is not among the count arrays. */
  lemma ImageApart(ctrl: Controller, g: Gatherer)
    ensures forall a :: a in ctrl.wholeImage ==> a as object !in g.dcCounts && a as object !in g.acCounts
    ensures ctrl as object !in g.dcCounts && ctrl as object !in g.acCounts
  {
  }

  /** Counting leaves the image alone. */
  method CountMcu(ghost ctrl: Controller, g: Gatherer, mcu: Mcu, ghost all: seq<Mcu>, ghost rest: seq<Mcu>) returns (r: Outcome)
    requires Counting(g, all, rest) && rest != [] && rest[0] == mcu && ctrl.HasImage() && ctrl.Loaded(ctrl.iMCURowNum + 1)
    modifies g, g.dcCounts, g.acCounts
    ensures g.Valid() && (r.Done? ==> Counting(g, all, rest[1..])) && ctrl.Loaded(ctrl.iMCURowNum + 1)
    ensures !r.Done? ==> r == Failed(BadDctCoef) && OutOfRange(g, all)
  {
    ImageApart(ctrl, g);
    r := GatherNext(g, mcu, all, rest);
  }

  /** One MCU of the stored image is counted; this never suspends. */
  method GatherAt(ctrl: Controller, g: Gatherer, y: nat, m: nat, ghost all: seq<Mcu>, ghost rest: Rest) returns (r: Outcome)
    requires ctrl.Valid() && ctrl.HasImage() && Inside(ctrl.g, ctrl.iMCURowNum, y, m) && ctrl.Loaded(ctrl.iMCURowNum + 1)
    requires Splits(ctrl.g, ctrl.src, all, rest) && Counting(g, all, rest(ctrl.iMCURowNum, y, m))
    modifies ctrl.mcuBuffer, g, g.dcCounts, g.acCounts
    ensures g.Valid() && (r.Done? ==> Counting(g, all, rest(ctrl.iMCURowNum, y, m + 1))) && ctrl.Loaded(ctrl.iMCURowNum + 1)
    ensures !r.Done? ==> r == Failed(BadDctCoef) && OutOfRange(g, all)
  {
    var mcu := ctrl.NextMcu(true, y, m);
    NextIs(ctrl.g, ctrl.src, all, rest, ctrl.iMCURowNum, y, m);
    r := CountMcu(ctrl, g, mcu, all, rest(ctrl.iMCURowNum, y, m));
  }

  method GatherMcuRow(ctrl: Controller, g: Gatherer, y: nat, ghost all: seq<Mcu>, ghost rest: Rest) returns (r: Outcome)
    requires ctrl.Valid() && ctrl.HasImage() && ctrl.iMCURowNum < ctrl.g.rows && y < ctrl.mcuRowsPerIMCURow && ctrl.Loaded(ctrl.iMCURowNum + 1)
    requires Splits(ctrl.g, ctrl.src, all, rest) && Counting(g, all, rest(ctrl.iMCURowNum, y, 0))
    modifies ctrl.mcuBuffer, g, g.dcCounts, g.acCounts
    ensures g.Valid() && (r.Done? ==> Counting(g, all, rest(ctrl.iMCURowNum, y + 1, 0))) && ctrl.Loaded(ctrl.iMCURowNum + 1)
    ensures !r.Done? ==> r == Failed(BadDctCoef) && OutOfRange(g, all)
  {
    r := Done;
    for m := 0 to ctrl.g.cols
      invariant r.Done? && Counting(g, all, rest(ctrl.iMCURowNum, y, m)) && ctrl.Loaded(ctrl.iMCURowNum + 1)
    {
      r := GatherAt(ctrl, g, y, m, all, rest);
      if !r.Done? {
        return;
      }
    }
    NextRow(ctrl.g, ctrl.src, all, rest, ctrl.iMCURowNum, y);
  }

  method GatherRows(ctrl: Controller, g: Gatherer, ghost all: seq<Mcu>, ghost rest: Rest) returns (r: Outcome)
    requires ctrl.Valid() && ctrl.HasImage() && ctrl.iMCURowNum < ctrl.g.rows && ctrl.Loaded(ctrl.iMCURowNum + 1)
    requires Splits(ctrl.g, ctrl.src, all, rest) && Counting(g, all, rest(ctrl.iMCURowNum, 0, 0))
    modifies ctrl.mcuBuffer, g, g.dcCounts, g.acCounts
    ensures g.Valid() && (r.Done? ==> Counting(g, all, rest(ctrl.iMCURowNum, ctrl.mcuRowsPerIMCURow, 0))) && ctrl.Loaded(ctrl.iMCURowNum + 1)
    ensures !r.Done? ==> r == Failed(BadDctCoef) && OutOfRange(g, all)
  {
    r := Done;
    for y := 0 to ctrl.mcuRowsPerIMCURow
      invariant r.Done? && Counting(g, all, rest(ctrl.iMCURowNum, y, 0)) && ctrl.Loaded(ctrl.iMCURowNum + 1)
    {
      r := GatherMcuRow(ctrl, g, y, all, rest);
      if !r.Done? {
        return;
      }
    }
  }

  /** Storing a strip leaves the statistics alone. */
  method StoreStrips(ctrl: Controller, ghost g: Gatherer, ghost all: seq<Mcu>, ghost rest: seq<Mcu>)
    requires ctrl.Valid() && ctrl.HasImage() && ctrl.iMCURowNum < ctrl.g.rows && ctrl.Loaded(ctrl.iMCURowNum)
    requires Counting(g, all, rest)
    modifies ctrl.wholeImage
    ensures ctrl.Loaded(ctrl.iMCURowNum + 1) && Counting(g, all, rest)
  {
    ctrl.LoadStrips();
  }

  method NextIMCURow(ctrl: Controller, ghost g: Gatherer, ghost all: seq<Mcu>, ghost rest: Rest)
    requires ctrl.Valid() && ctrl.HasImage() && ctrl.iMCURowNum < ctrl.g.rows && ctrl.Loaded(ctrl.iMCURowNum + 1)
    requires Splits(ctrl.g, ctrl.src, all, rest) && Counting(g, all, rest(ctrl.iMCURowNum, ctrl.mcuRowsPerIMCURow, 0))
    modifies ctrl
    ensures ctrl.Valid() && ctrl.AtStartOf(old(ctrl.iMCURowNum) + 1) && ctrl.Loaded(ctrl.iMCURowNum) && Counting(g, all, rest(ctrl.iMCURowNum, 0, 0))
  {
    NextIMCU(ctrl.g, ctrl.src, all, rest, ctrl.iMCURowNum);
    ctrl.FinishIMCURow();
  }

  /** compress_first_pass with the gathering entropy coder: store a strip, count its MCUs, go on to the next. */
  method GatherIMCURow(ctrl: Controller, g: Gatherer, ghost all: seq<Mcu>, ghost rest: Rest) returns (r: Outcome)
    requires ctrl.Valid() && ctrl.HasImage() && ctrl.iMCURowNum < ctrl.g.rows && ctrl.Loaded(ctrl.iMCURowNum)
    requires Splits(ctrl.g, ctrl.src, all, rest) && Counting(g, all, rest(ctrl.iMCURowNum, 0, 0))
    modifies ctrl, ctrl.mcuBuffer, ctrl.wholeImage, g, g.dcCounts, g.acCounts
    ensures ctrl.Valid() && g.Valid()
    ensures r.Done? ==> ctrl.AtStartOf(old(ctrl.iMCURowNum) + 1) && ctrl.Loaded(ctrl.iMCURowNum) && Counting(g, all, rest(ctrl.iMCURowNum, 0, 0))
    ensures !r.Done? ==> r == Failed(BadDctCoef) && OutOfRange(g, all)
  {
    ImageApart(ctrl, g);
    StoreStrips(ctrl, g, all, rest(ctrl.iMCURowNum, 0, 0));
    r := GatherRows(ctrl, g, all, rest);
    if r.Done? {
      NextIMCURow(ctrl, g, all, rest);
    }
  }

  /** The whole first pass: the image is stored, and its symbols are counted as often as they will be coded. */
  method GatherImage(ctrl: Controller, g: Gatherer, ghost all: seq<Mcu>, ghost rest: Rest) returns (r: Outcome)
    requires ctrl.Valid() && ctrl.HasImage() && ctrl.AtStartOf(0)
    requires Splits(ctrl.g, ctrl.src, all, rest) && Counting(g, all, all)
    modifies ctrl, ctrl.mcuBuffer, ctrl.wholeImage, g, g.dcCounts, g.acCounts
    ensures ctrl.Valid() && g.Valid()
    ensures r == if OutOfRange(g, all) then Failed(BadDctCoef) else Done
    ensures r.Done? ==> ctrl.Loaded(ctrl.g.rows) && CountedAll(g, all)
  {
    r := Done;
    StartAndEnd(ctrl.g, ctrl.src, all, rest);
    while ctrl.iMCURowNum < ctrl.g.rows
      invariant r.Done? && ctrl.Valid() && ctrl.iMCURowNum <= ctrl.g.rows
      invariant ctrl.Loaded(ctrl.iMCURowNum) && Counting(g, all, rest(ctrl.iMCURowNum, 0, 0))
      decreases ctrl.g.rows - ctrl.iMCURowNum
    {
      r := GatherIMCURow(ctrl, g, all, rest);
      if !r.Done? {
        return;
      }
    }
    EndsCounting(g, all);
  }

  // ---------------------------------------------------------------- images are countable

  /** An image of up to 144179 blocks is within every limit of table generation. */
  lemma ImageCountable(g: Geometry, src: Source, scan: Scan)
    requires g.Valid() && scan.Valid() && |scan.dcTbl| == |g.comps| && scan.membership == Membership(g, |g.comps|)
    requires 64 * Blocks(ImageMcus(g, src)) < HEAVY - 1
    ensures Countable(scan, ImageMcus(g, src))
  {
    var all := ImageMcus(g, src);
    PositionPrefix(g, src, 0, 0, 0);
    assert |all| > 0;
    forall c | 0 <= c < |scan.dcTbl| ensures c in scan.membership {
      MulAtLeast(g.McuHeight(c), g.McuWidth(c));
      MembershipAt(g, |g.comps|, c, g.BlocksUpTo(c));
    }
    FewBlocks(scan, all);
  }

  // ---------------------------------------------------------------- end to end

  /**
   Both passes over an image.  Only a coefficient out of range or a code of more than 32 bits can
   prevent it, and the latter not in an image of up to 144179 blocks.  Otherwise the scan completes as
   CompressScan's does, and what is written decodes to the image's MCUs.
   */
  method CompressOptimized(g: Geometry, src: Source, scan: Scan, dest: Destination, supplies: seq<Supply>, last: Supply)
    returns (r: Outcome, ts: Result<TableSet>)
    requires g.Valid() && scan.Valid() && |scan.dcTbl| == |g.comps| && scan.membership == Membership(g, |g.comps|)
    requires g.BlocksUpTo(|g.comps|) <= 10 && dest.Valid() && Supplies(supplies) && last.capacity > 0
    requires Countable(scan, ImageMcus(g, src))
    modifies dest, dest.buffer
    ensures ts == Err(BadDctCoef) <==> !ScanInRange(scan, ImageMcus(g, src), scan.Zeros(), scan.restartInterval)
    ensures ts.Err? ==> r == Failed(ts.error)
    ensures ts.Err? ==> ts.error == BadDctCoef || ts.error == CodeLengthOverflow
    ensures ts == Err(CodeLengthOverflow) <==>
              ScanInRange(scan, ImageMcus(g, src), scan.Zeros(), scan.restartInterval) && SomeOverlong(scan, ImageMcus(g, src))
    ensures 64 * Blocks(ImageMcus(g, src)) < HEAVY - 1 ==> ts != Err(CodeLengthOverflow)
    ensures ts.Ok? ==> ts.value.Shaped() && AllEconomical(scan, ImageMcus(g, src), ts.value) && (r.Failed? ==> r.error == CannotSuspend)
    ensures ts.Ok? && (last.accepting || last.capacity > 2) ==>
              (NeverRefusing(supplies, g.rows) || Roomy(g, src, WritingOf(scan, ts.value), supplies) ==> r.Done?)
    ensures ts.Ok? && r.Done? ==>
              dest.Valid() && dest.Stream() == old(dest.Stream()) + ScanBytes(scan, ts.value, ImageMcus(g, src)) &&
              DecodeScan(scan, ts.value, ScanBytes(scan, ts.value, ImageMcus(g, src)), |ImageMcus(g, src)|)
              == Some(ImageMcus(g, src))
  {
    var ctrl := new Controller.WithImage(g, src);
    ts := FirstPassTables(ctrl, scan);
    if ts.Err? {
      return Failed(ts.error), ts;
    }
    ctrl.StartPass();
    r := SecondPass(ctrl, scan, ts.value, dest, supplies, last);
  }

  /** The statistics pass, and the tables generated at its end. */
  method FirstPassTables(ctrl: Controller, scan: Scan) returns (ts: Result<TableSet>)
    requires ctrl.Valid() && ctrl.HasImage() && ctrl.AtStartOf(0)
    requires scan.Valid() && |scan.dcTbl| == |ctrl.g.comps| && scan.membership == Membership(ctrl.g, |ctrl.g.comps|)
    requires Countable(scan, ImageMcus(ctrl.g, ctrl.src))
    modifies ctrl, ctrl.mcuBuffer, ctrl.wholeImage
    ensures ctrl.Valid() && (ts.Ok? ==> ctrl.Loaded(ctrl.g.rows))
    ensures ts == Err(BadDctCoef) <==> !ScanInRange(scan, ImageMcus(ctrl.g, ctrl.src), scan.Zeros(), scan.restartInterval)
    ensures ts.Err? ==> ts.error == BadDctCoef || ts.error == CodeLengthOverflow
    ensures ts == Err(CodeLengthOverflow) <==>
              ScanInRange(scan, ImageMcus(ctrl.g, ctrl.src), scan.Zeros(), scan.restartInterval) && SomeOverlong(scan, ImageMcus(ctrl.g, ctrl.src))
    ensures 64 * Blocks(ImageMcus(ctrl.g, ctrl.src)) < HEAVY - 1 ==> ts != Err(CodeLengthOverflow)
    ensures ts.Ok? ==> ts.value.Shaped() && ts.value.Readable(scan) && AllEconomical(scan, ImageMcus(ctrl.g, ctrl.src), ts.value)
    ensures ts.Ok? ==> ScanEncodable(scan, ts.value, ImageMcus(ctrl.g, ctrl.src), scan.Zeros(), scan.restartInterval)
  {
    ghost var all := ImageMcus(ctrl.g, ctrl.src);
    ImageSplits(ctrl.g, ctrl.src);
    var stats := new Gatherer(scan);
    StartsCounting(stats, all);
    var r := GatherImage(ctrl, stats, all, RestOf(ctrl.g, ctrl.src));
    if !r.Done? {
      return Err(BadDctCoef);
    }
    ts := TablesFrom(stats, all);
  }

  /** The coding pass over a stored image. */
  method SecondPass(ctrl: Controller, scan: Scan, ts: TableSet, dest: Destination, supplies: seq<Supply>, last: Supply) returns (r: Outcome)
    requires ctrl.Valid() && ctrl.AtStartOf(0) && ctrl.HasImage() && ctrl.Loaded(ctrl.g.rows) && ctrl.Apart(dest)
    requires Matches(ctrl.g, scan, ts) && ts.Readable(scan) && dest.Valid() && Supplies(supplies) && last.capacity > 0
    requires ScanEncodable(scan, ts, ImageMcus(ctrl.g, ctrl.src), scan.Zeros(), scan.restartInterval)
    modifies ctrl, ctrl.mcuBuffer, ctrl.wholeImage, dest, dest.buffer
    ensures r.Failed? ==> r.error == CannotSuspend
    ensures (NeverRefusing(supplies, ctrl.g.rows) || Roomy(ctrl.g, ctrl.src, WritingOf(scan, ts), supplies)) && (last.accepting || last.capacity > 2) ==> r.Done?
    ensures r.Done? ==>
              dest.Valid() && dest.Stream() == old(dest.Stream()) + ScanBytes(scan, ts, ImageMcus(ctrl.g, ctrl.src)) &&
              DecodeScan(scan, ts, ScanBytes(scan, ts, ImageMcus(ctrl.g, ctrl.src)), |ImageMcus(ctrl.g, ctrl.src)|)
              == Some(ImageMcus(ctrl.g, ctrl.src))
  {
    ghost var base, w := dest.Stream(), WritingOf(scan, ts);
    WritingFollows(scan, ts);
    NothingWritten(w, scan, ts, base);
    NothingRejected(ctrl.g, ctrl.src, scan, ts, w);
    AllBefore(ctrl.g, ctrl.src);
    var enc := new Encoder(scan, ts);
    var answers;
    ghost var at;
    r, answers, at := CompressWith(ctrl, LaterPass, enc, dest, supplies, last, w, base);
  }
}
