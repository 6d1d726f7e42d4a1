/**
 A scan from start to finish, called again and again while the application empties the
 destination: neither the pattern of suspensions nor the choice of buffering shows in the result.
 */
module Compression {
  import opened Wrappers
  import opened Answers
  import opened Bits
  import opened Stuffing
  import opened BitWriter
  import opened ScanModel
  import opened HuffEncoder
  import opened McuGeometry
  import opened CoefController

  /** Before a call the application takes what is committed and supplies room; accepting: a destination that never refuses. */
  datatype Supply = Supply(capacity: nat, accepting: bool)

  predicate Supplies(supplies: seq<Supply>)
  {
    forall k :: 0 <= k < |supplies| ==> supplies[k].capacity > 0
  }

  /** Enough calls, none of which can be suspended. */
  predicate NeverRefusing(supplies: seq<Supply>, calls: nat)
  {
    |supplies| >= calls && forall k :: 0 <= k < |supplies| ==> supplies[k].accepting
  }

  /** Where the blocks come from: straight from the image, loaded into an array on the way, or from an array loaded before. */
  datatype Buffering = SinglePass | FirstPass | LaterPass

  // ---------------------------------------------------------------- positions

  lemma {:induction false} RowPrefix(g: Geometry, src: Source, i: nat, y: nat, m: nat, n: nat)
    requires g.Valid() && m <= n
    ensures RowMcus(g, src, i, y, m) <= RowMcus(g, src, i, y, n)
  {
    if m < n { RowPrefix(g, src, i, y, m, n - 1); }
  }

  lemma {:induction false} IMcuPrefix(g: Geometry, src: Source, i: nat, y: nat, n: nat)
    requires g.Valid() && y <= n
    ensures IMcuMcus(g, src, i, y) <= IMcuMcus(g, src, i, n)
  {
    if y < n { IMcuPrefix(g, src, i, y, n - 1); }
  }

  lemma {:induction false} UpToPrefix(g: Geometry, src: Source, i: nat, n: nat)
    requires g.Valid() && i <= n
    ensures McusUpTo(g, src, i) <= McusUpTo(g, src, n)
  {
    if i < n { UpToPrefix(g, src, i, n - 1); }
  }

  lemma PrefixAfter<T>(a: seq<T>, b: seq<T>, c: seq<T>)
    requires b <= c
    ensures a + b <= a + c
  {
  }

  /** A place in the image's coding order. */
  predicate Inside(g: Geometry, i: nat, y: nat, m: nat)
    requires g.Valid()
  {
    i < g.rows && y < g.McuRows(i) && m < g.cols
  }

  /** The MCUs up to and including a place come first among those of its iMCU row and those before. */
  lemma RowEndPrefix(g: Geometry, src: Source, i: nat, y: nat, m: nat)
    requires g.Valid() && m < g.cols
    ensures Before(g, src, i, y, m) + [McuAt(g, src, i, y, m)] <= Before(g, src, i, y + 1, 0)
  {
    BeforeNext(g, src, i, y, m);
    BeforeRow(g, src, i, y);
    RowPrefix(g, src, i, y, m + 1, g.cols);
    PrefixAfter(McusUpTo(g, src, i) + IMcuMcus(g, src, i, y), RowMcus(g, src, i, y, m + 1), RowMcus(g, src, i, y, g.cols));
  }

  lemma RowsPrefix(g: Geometry, src: Source, i: nat, y: nat, n: nat)
    requires g.Valid() && y <= n
    ensures Before(g, src, i, y, 0) <= Before(g, src, i, n, 0)
  {
    IMcuPrefix(g, src, i, y, n);
    PrefixAfter(McusUpTo(g, src, i), IMcuMcus(g, src, i, y), IMcuMcus(g, src, i, n));
  }

  /** The MCUs up to and including a place come first among those of the image. */
  lemma PositionPrefix(g: Geometry, src: Source, i: nat, y: nat, m: nat)
    requires g.Valid() && Inside(g, i, y, m)
    ensures Before(g, src, i, y, m) + [McuAt(g, src, i, y, m)] <= ImageMcus(g, src)
  {
    RowEndPrefix(g, src, i, y, m);
    RowsPrefix(g, src, i, y + 1, g.McuRows(i));
    BeforeIMcu(g, src, i);
    UpToPrefix(g, src, i + 1, g.rows);
  }

  /** A later place has more MCUs before it. */
  lemma LaterPlace(g: Geometry, src: Source, i: nat, y: nat, m: nat, y': nat, m': nat)
    requires g.Valid() && m < g.cols && (y' > y || (y' == y && m' > m))
    ensures |Before(g, src, i, y', m')| > |Before(g, src, i, y, m)|
  {
    if y' > y {
      RowEndPrefix(g, src, i, y, m);
      RowsPrefix(g, src, i, y + 1, y');
    }
  }

  lemma NextRowLater(g: Geometry, src: Source, i: nat, y: nat, m: nat)
    requires g.Valid() && Inside(g, i, y, m)
    ensures |Before(g, src, i + 1, 0, 0)| > |Before(g, src, i, y, m)|
  {
    LaterPlace(g, src, i, y, m, g.McuRows(i), 0);
    BeforeIMcu(g, src, i);
  }

  lemma AllBefore(g: Geometry, src: Source)
    requires g.Valid()
    ensures Before(g, src, g.rows, 0, 0) == ImageMcus(g, src)
    ensures Before(g, src, 0, 0, 0) == []
  {
  }

  /** Each MCU of the image can be encoded after those before it. */
  ghost predicate AllEncodable(g: Geometry, src: Source, w: Writing)
    requires g.Valid()
  {
    forall i: nat, y: nat, m: nat :: Inside(g, i, y, m) ==> w.encodable(Before(g, src, i, y, m), McuAt(g, src, i, y, m))
  }

  /** There is more room than any one MCU takes. */
  ghost predicate RoomForEach(g: Geometry, src: Source, w: Writing, capacity: nat)
    requires g.Valid()
  {
    forall i: nat, y: nat, m: nat :: Inside(g, i, y, m) ==> w.size(Before(g, src, i, y, m), McuAt(g, src, i, y, m)) < capacity
  }

  /** A call for every MCU, each with more room than any one MCU takes. */
  ghost predicate Roomy(g: Geometry, src: Source, w: Writing, supplies: seq<Supply>)
    requires g.Valid()
  {
    |supplies| >= |ImageMcus(g, src)| && forall k :: 0 <= k < |supplies| ==> RoomForEach(g, src, w, supplies[k].capacity)
  }

  // ---------------------------------------------------------------- a pass

  /** The part of the whole-image array a call relies on has been loaded. */
  ghost predicate ArrayReady(ctrl: Controller, buffering: Buffering)
    reads ctrl, ctrl.wholeImage
  {
    buffering != SinglePass ==>
      ctrl.HasImage() && ctrl.Loaded(if buffering == FirstPass then ctrl.iMCURowNum else ctrl.g.rows)
  }

  /** Where a pass stands between calls: the MCUs before its position have been written. */
  ghost predicate Between(ctrl: Controller, buffering: Buffering, enc: Encoder, dest: Destination, w: Writing, base: seq<Byte>)
    reads ctrl, ctrl.wholeImage, enc, dest, dest.buffer
  {
    ctrl.Valid() && ctrl.Apart(dest) && ctrl.iMCURowNum <= ctrl.g.rows &&
    (ctrl.iMCURowNum == ctrl.g.rows ==> ctrl.AtStartOf(ctrl.g.rows)) && ArrayReady(ctrl, buffering) &&
    Written(w, enc, dest, base, ctrl.Position())
  }

  /** The application empties the destination. */
  method Refill(dest: Destination, supply: Supply, ghost enc: Encoder, ghost w: Writing, ghost base: seq<Byte>, ghost mcus: seq<Mcu>)
    requires Written(w, enc, dest, base, mcus) && supply.capacity > 0
    modifies dest
    ensures Written(w, enc, dest, base, mcus) && fresh(dest.buffer) && dest.accepts == supply.accepting && dest.free == supply.capacity
  {
    dest.Drain(supply.capacity, supply.accepting);
  }

  /** A call has written at least one MCU, or had room for less than the next. */
  ghost predicate Progress(ctrl: Controller, w: Writing, capacity: nat, before: nat)
    requires ctrl.Valid()
    reads ctrl
  {
    |ctrl.Position()| > before ||
    (Inside(ctrl.g, ctrl.iMCURowNum, ctrl.mcuVertOffset, ctrl.mcuCtr) &&
     var mcu := McuAt(ctrl.g, ctrl.src, ctrl.iMCURowNum, ctrl.mcuVertOffset, ctrl.mcuCtr);
     w.encodable(ctrl.Position(), mcu) ==> w.size(ctrl.Position(), mcu) >= capacity)
  }

  /** The call that the kind of buffering asks for. */
  method CallController(ctrl: Controller, buffering: Buffering, enc: Encoder, dest: Destination, ghost w: Writing, ghost base: seq<Byte>)
    returns (r: Outcome)
    requires ctrl.Connected(w, enc)
    requires Between(ctrl, buffering, enc, dest, w, base) && ctrl.iMCURowNum < ctrl.g.rows
    modifies ctrl, ctrl.mcuBuffer, ctrl.wholeImage, enc, dest, dest.buffer
    ensures dest.buffer == old(dest.buffer) && ctrl.Valid() && ctrl.Advanced(r, old(ctrl.iMCURowNum)) && (r.Suspended? ==> !old(dest.accepts))
    ensures !r.Failed? ==> Between(ctrl, buffering, enc, dest, w, base)
    ensures r.Suspended? ==> NoRoom(w, dest, ctrl.Position(), McuAt(ctrl.g, ctrl.src, ctrl.iMCURowNum, ctrl.mcuVertOffset, ctrl.mcuCtr))
    ensures r.Suspended? ==> ctrl.Onward(old(ctrl.mcuVertOffset), old(ctrl.mcuCtr), dest, old(dest.free))
    ensures r.Failed? ==> ctrl.SomeRejected(w, old(ctrl.iMCURowNum))
  {
    match buffering {
      case SinglePass =>
        r := ctrl.CompressData(enc, dest, w, base);
      case FirstPass =>
        r := ctrl.CompressFirstPass(enc, dest, w, base);
      case LaterPass =>
        assert ctrl.StripsDone(ctrl.iMCURowNum);
        r := ctrl.CompressOutput(enc, dest, w, base);
    }
  }

  /** One call, after the application has emptied the destination. */
  method CompressCall(ctrl: Controller, buffering: Buffering, enc: Encoder, dest: Destination, supply: Supply, ghost w: Writing, ghost base: seq<Byte>)
    returns (r: Outcome)
    requires ctrl.Connected(w, enc) && supply.capacity > 0
    requires Between(ctrl, buffering, enc, dest, w, base) && ctrl.iMCURowNum < ctrl.g.rows
    modifies ctrl, ctrl.mcuBuffer, ctrl.wholeImage, enc, dest, dest.buffer
    ensures fresh(dest.buffer)
    ensures !r.Failed? ==> Between(ctrl, buffering, enc, dest, w, base)
    ensures !r.Failed? ==> ctrl.iMCURowNum == old(ctrl.iMCURowNum) + if r.Done? then 1 else 0
    ensures !r.Failed? ==> Progress(ctrl, w, supply.capacity, |old(ctrl.Position())|)
    ensures r.Suspended? ==> !supply.accepting
    ensures r.Failed? ==> ctrl.SomeRejected(w, old(ctrl.iMCURowNum))
  {
    ghost var mcus := ctrl.Position();
    Refill(dest, supply, enc, w, base, mcus);
    assert ctrl.Position() == mcus && ctrl.Apart(dest) && ArrayReady(ctrl, buffering);
    r := CallOnward(ctrl, buffering, enc, dest, w, base);
  }

  /** Every call moves on, or there was no room for the next MCU. */
  method CallOnward(ctrl: Controller, buffering: Buffering, enc: Encoder, dest: Destination, ghost w: Writing, ghost base: seq<Byte>)
    returns (r: Outcome)
    requires ctrl.Connected(w, enc) && Between(ctrl, buffering, enc, dest, w, base) && ctrl.iMCURowNum < ctrl.g.rows
    modifies ctrl, ctrl.mcuBuffer, ctrl.wholeImage, enc, dest, dest.buffer
    ensures dest.buffer == old(dest.buffer) && ctrl.Valid() && ctrl.Advanced(r, old(ctrl.iMCURowNum)) && (r.Suspended? ==> !old(dest.accepts))
    ensures !r.Failed? ==> Between(ctrl, buffering, enc, dest, w, base) && Progress(ctrl, w, old(dest.free), |old(ctrl.Position())|)
    ensures r.Failed? ==> ctrl.SomeRejected(w, old(ctrl.iMCURowNum))
  {
    ghost var i, y, m := ctrl.iMCURowNum, ctrl.mcuVertOffset, ctrl.mcuCtr;
    r := CallController(ctrl, buffering, enc, dest, w, base);
    if r.Done? {
      NextRowLater(ctrl.g, ctrl.src, i, y, m);
    } else if r.Suspended? && (ctrl.mcuVertOffset > y || ctrl.mcuCtr > m) {
      LaterPlace(ctrl.g, ctrl.src, i, y, m, ctrl.mcuVertOffset, ctrl.mcuCtr);
    }
  }

  /** A pass that can make progress in every call. */
  ghost predicate Live(ctrl: Controller, w: Writing, supplies: seq<Supply>)
    requires ctrl.g.Valid()
  {
    AllEncodable(ctrl.g, ctrl.src, w) && Roomy(ctrl.g, ctrl.src, w, supplies)
  }

  /** Every call has worked on the iMCU row that follows those accepted before. */
  ghost predicate InTurn(answers: seq<bool>, at: seq<nat>)
  {
    |at| == |answers| && forall k :: 0 <= k < |at| ==> at[k] == Accepted(answers[..k])
  }

  /** So far i of the rows have been accepted. */
  ghost predicate History(answers: seq<bool>, at: seq<nat>, i: nat, rows: nat)
  {
    InTurn(answers, at) && Accepted(answers) == i && (i == rows ==> Stops(answers, rows))
  }

  lemma NextHistory(answers: seq<bool>, at: seq<nat>, i: nat, rows: nat, ok: bool)
    requires History(answers, at, i, rows) && i < rows
    ensures History(answers + [ok], at + [i], if ok then i + 1 else i, rows)
  {
    AcceptedNext(answers, ok);
  }

  /** Call the controller once per supply, until the image is done, an error occurs or the supplies run out. */
  method CompressPass(ctrl: Controller, buffering: Buffering, enc: Encoder, dest: Destination, supplies: seq<Supply>,
                      ghost w: Writing, ghost base: seq<Byte>)
    returns (r: Outcome, answers: seq<bool>, ghost at: seq<nat>)
    requires ctrl.Connected(w, enc) && Supplies(supplies)
    requires Between(ctrl, buffering, enc, dest, w, base) && ctrl.AtStartOf(0)
    modifies ctrl, ctrl.mcuBuffer, ctrl.wholeImage, enc, dest, dest.buffer
    ensures fresh(dest.buffer) || dest.buffer == old(dest.buffer)
    ensures !r.Failed? ==> Between(ctrl, buffering, enc, dest, w, base) && (r.Suspended? ==> ctrl.iMCURowNum < ctrl.g.rows)
    ensures r.Done? ==> Written(w, enc, dest, base, ImageMcus(ctrl.g, ctrl.src))
    ensures r.Failed? ==> exists i: nat :: i < ctrl.g.rows && ctrl.SomeRejected(w, i)
    ensures NeverRefusing(supplies, ctrl.g.rows) || Live(ctrl, w, supplies) ==> !r.Suspended?
    ensures InTurn(answers, at) && (r.Done? ==> Stops(answers, ctrl.g.rows))
  {
    var k := 0;
    answers, at := [], [];
    while ctrl.iMCURowNum < ctrl.g.rows && k < |supplies|
      invariant k <= |supplies| && Between(ctrl, buffering, enc, dest, w, base)
      invariant fresh(dest.buffer) || dest.buffer == old(dest.buffer)
      invariant NeverRefusing(supplies, ctrl.g.rows) ==> ctrl.iMCURowNum == k
      invariant Live(ctrl, w, supplies) ==> |ctrl.Position()| >= k
      invariant History(answers, at, ctrl.iMCURowNum, ctrl.g.rows)
      decreases |supplies| - k
    {
      ghost var i := ctrl.iMCURowNum;
      r := CompressCall(ctrl, buffering, enc, dest, supplies[k], w, base);
      if r.Failed? {
        return;
      }
      NextHistory(answers, at, i, ctrl.g.rows, r.Done?);
      answers, at := answers + [r.Done?], at + [i];
      k := k + 1;
    }
    if ctrl.iMCURowNum == ctrl.g.rows {
      r := Done;
      AllBefore(ctrl.g, ctrl.src);
    } else {
      r := Suspended;
      PositionPrefix(ctrl.g, ctrl.src, ctrl.iMCURowNum, ctrl.mcuVertOffset, ctrl.mcuCtr);
    }
  }

  // ---------------------------------------------------------------- what has been written

  /** In a run that can be encoded as a whole, each MCU can be encoded after those before it. */
  lemma {:induction false} PrefixEncodable(w: Writing, scan: Scan, ts: TableSet, all: seq<Mcu>, p: seq<Mcu>, x: Mcu)
    requires Follows(w, scan, ts) && Mcus(scan, all) && w.accepted(all) && p + [x] <= all
    ensures w.encodable(p, x)
    decreases |all|
  {
    var n := |all| - 1;
    var init := all[..n];
    assert all == init + [all[n]];
    assert FollowsAfter(w, scan, ts, all) && FollowsAfter(w, scan, ts, init);
    EncodableExtend(scan, ts, Initial(scan), init, all[n]);
    if n == |p| {
      assert init == p && all[n] == x;
    } else {
      assert p + [x] <= init;
      PrefixEncodable(w, scan, ts, init, p, x);
    }
  }

  lemma NothingRejected(g: Geometry, src: Source, scan: Scan, ts: TableSet, w: Writing)
    requires Matches(g, scan, ts) && Follows(w, scan, ts)
    requires ScanEncodable(scan, ts, ImageMcus(g, src), scan.Zeros(), scan.restartInterval)
    ensures AllEncodable(g, src, w)
  {
    var all := ImageMcus(g, src);
    assert FollowsAfter(w, scan, ts, all);
    forall i: nat, y: nat, m: nat | Inside(g, i, y, m)
      ensures w.encodable(Before(g, src, i, y, m), McuAt(g, src, i, y, m))
    {
      PositionPrefix(g, src, i, y, m);
      PrefixEncodable(w, scan, ts, all, Before(g, src, i, y, m), McuAt(g, src, i, y, m));
    }
  }

  /** What a Written destination and the padding of the last byte amount to. */
  lemma CompleteScan(w: Writing, scan: Scan, ts: TableSet, base: seq<Byte>, mcus: seq<Mcu>)
    requires Follows(w, scan, ts) && Mcus(scan, mcus)
    ensures base + w.bytes(mcus) + Padding(w.state(mcus)) == base + ScanBytes(scan, ts, mcus)
    ensures w.accepted(mcus) && ts.Readable(scan) ==> DecodeScan(scan, ts, ScanBytes(scan, ts, mcus), |mcus|) == Some(mcus)
  {
    assert FollowsAfter(w, scan, ts, mcus);
    RunIsScan(scan, ts, mcus);
    Associative(base, w.bytes(mcus), Padding(w.state(mcus)));
    if w.accepted(mcus) && ts.Readable(scan) {
      ScanRoundTrip(scan, ts, mcus);
    }
  }

  /** The last byte of a scan takes at most two bytes of room. */
  lemma PaddingShort(s: Saved)
    requires |s.pending| <= 7
    ensures |Padding(s)| <= 2
  {
    var bits := s.pending + Ones(7);
    assert |bits| < 16;
    if |bits| >= 8 {
      assert Pack(bits[8..]) == [];
    }
  }

  /** Nothing is written before the first MCU. */
  lemma NothingWritten(w: Writing, scan: Scan, ts: TableSet, base: seq<Byte>)
    requires Follows(w, scan, ts)
    ensures w.state([]) == Initial(scan) && base + w.bytes([]) == base && w.accepted([])
  {
    assert FollowsAfter(w, scan, ts, []);
  }

  /** dest holds what was there before and the bytes of the MCUs before some place of the image. */
  ghost predicate StoppedSomewhere(g: Geometry, src: Source, scan: Scan, ts: TableSet, base: seq<Byte>, stream: seq<Byte>)
    requires Matches(g, scan, ts)
  {
    exists i: nat, y: nat, m: nat :: Inside(g, i, y, m) && Mcus(scan, Before(g, src, i, y, m)) &&
      stream == base + BytesOf(scan, ts, Initial(scan), Before(g, src, i, y, m))
  }

  lemma StoppedAt(ctrl: Controller, enc: Encoder, dest: Destination, w: Writing, base: seq<Byte>)
    requires ctrl.Valid() && Matches(ctrl.g, enc.scan, enc.ts) && Follows(w, enc.scan, enc.ts) && ctrl.iMCURowNum < ctrl.g.rows
    requires Written(w, enc, dest, base, ctrl.Position())
    ensures StoppedSomewhere(ctrl.g, ctrl.src, enc.scan, enc.ts, base, dest.Stream())
  {
    var i, y, m := ctrl.iMCURowNum, ctrl.mcuVertOffset, ctrl.mcuCtr;
    assert FollowsAfter(w, enc.scan, enc.ts, ctrl.Position());
    assert Inside(ctrl.g, i, y, m) && ctrl.Position() == Before(ctrl.g, ctrl.src, i, y, m);
  }

  /** The end of a scan, after the application has emptied the destination once more. */
  method FinishScan(enc: Encoder, dest: Destination, last: Supply, ghost w: Writing, ghost base: seq<Byte>, ghost mcus: seq<Mcu>)
    returns (r: Outcome)
    requires Follows(w, enc.scan, enc.ts) && Written(w, enc, dest, base, mcus) && last.capacity > 0
    modifies enc, dest, dest.buffer
    ensures r.Done? ==> dest.Valid() && dest.Stream() == base + ScanBytes(enc.scan, enc.ts, mcus)
    ensures enc.ts.Readable(enc.scan) ==> DecodeScan(enc.scan, enc.ts, ScanBytes(enc.scan, enc.ts, mcus), |mcus|) == Some(mcus)
    ensures r == Done || r == Failed(CannotSuspend)
    ensures last.accepting || last.capacity > 2 ==> r.Done?
  {
    CompleteScan(w, enc.scan, enc.ts, base, mcus);
    Refill(dest, last, enc, w, base, mcus);
    PaddingShort(enc.State());
    r := enc.FinishPass(dest);
  }

  // ---------------------------------------------------------------- whole scans

  /** What has been written could be encoded. */
  lemma AcceptedEncodable(w: Writing, scan: Scan, ts: TableSet, mcus: seq<Mcu>)
    requires Follows(w, scan, ts) && Mcus(scan, mcus) && w.accepted(mcus)
    ensures ScanEncodable(scan, ts, mcus, scan.Zeros(), scan.restartInterval)
  {
    assert FollowsAfter(w, scan, ts, mcus);
  }

  /** The rest of a scan once its encoder is set up: a pass, room for the last byte, and the end. */
  method CompressWith(ctrl: Controller, buffering: Buffering, enc: Encoder, dest: Destination, supplies: seq<Supply>, last: Supply,
                      ghost w: Writing, ghost base: seq<Byte>)
    returns (r: Outcome, answers: seq<bool>, ghost at: seq<nat>)
    requires Matches(ctrl.g, enc.scan, enc.ts) && ctrl.Connected(w, enc) && Supplies(supplies) && last.capacity > 0
    requires Between(ctrl, buffering, enc, dest, w, base) && ctrl.AtStartOf(0)
    modifies ctrl, ctrl.mcuBuffer, ctrl.wholeImage, enc, dest, dest.buffer
    ensures r.Done? ==> dest.Valid() && dest.Stream() == base + ScanBytes(enc.scan, enc.ts, ImageMcus(ctrl.g, ctrl.src))
    ensures r.Done? ==> ScanEncodable(enc.scan, enc.ts, ImageMcus(ctrl.g, ctrl.src), enc.scan.Zeros(), enc.scan.restartInterval)
    ensures r.Done? && enc.ts.Readable(enc.scan) ==>
              DecodeScan(enc.scan, enc.ts, ScanBytes(enc.scan, enc.ts, ImageMcus(ctrl.g, ctrl.src)), |ImageMcus(ctrl.g, ctrl.src)|)
              == Some(ImageMcus(ctrl.g, ctrl.src))
    ensures r.Suspended? ==> dest.Valid() && StoppedSomewhere(ctrl.g, ctrl.src, enc.scan, enc.ts, base, dest.Stream())
    ensures NeverRefusing(supplies, ctrl.g.rows) || Live(ctrl, w, supplies) ==> !r.Suspended?
    ensures AllEncodable(ctrl.g, ctrl.src, w) ==> (r.Failed? ==> r.error == CannotSuspend)
    ensures AllEncodable(ctrl.g, ctrl.src, w) && (last.accepting || last.capacity > 2) ==> !r.Failed?
    ensures InTurn(answers, at) && (r.Done? ==> Stops(answers, ctrl.g.rows))
  {
    r, answers, at := CompressPass(ctrl, buffering, enc, dest, supplies, w, base);
    if r.Done? {
      AcceptedEncodable(w, enc.scan, enc.ts, ImageMcus(ctrl.g, ctrl.src));
      r := FinishScan(enc, dest, last, w, base, ImageMcus(ctrl.g, ctrl.src));
    } else if r.Suspended? {
      StoppedAt(ctrl, enc, dest, w, base);
    }
  }

  method NewController(g: Geometry, src: Source, fullBuffer: bool) returns (ctrl: Controller)
    requires g.Valid() && g.BlocksUpTo(|g.comps|) <= 10
    ensures fresh(ctrl) && fresh(ctrl.mcuBuffer) && fresh(ctrl.wholeImage) && ctrl.g == g && ctrl.src == src
    ensures ctrl.Valid() && ctrl.AtStartOf(0) && ArrayReady(ctrl, if fullBuffer then FirstPass else SinglePass)
  {
    if fullBuffer {
      ctrl := new Controller.WithImage(g, src);
    } else {
      ctrl := new Controller(g, src);
    }
  }

  /**
   A whole scan.  If it completes, what has been added is the scan of the image's MCUs: the same
   bytes for every pattern of supplies and refusals and for both kinds of buffering; and they
   decode to the image's MCUs.  If the supplies run out, exactly the MCUs before some place have been
   written.  It completes if all MCUs can be encoded, and nothing is refused or there is a call for
   every MCU with room for any one of them.  answers tells of every call of the controller whether it
   finished its iMCU row, and at which iMCU row that was.
   */
  method CompressScan(g: Geometry, src: Source, scan: Scan, ts: TableSet, fullBuffer: bool, dest: Destination, supplies: seq<Supply>, last: Supply)
    returns (r: Outcome, answers: seq<bool>, ghost at: seq<nat>)
    requires Matches(g, scan, ts) && g.BlocksUpTo(|g.comps|) <= 10 && dest.Valid() && Supplies(supplies) && last.capacity > 0
    modifies dest, dest.buffer
    ensures r.Done? ==> dest.Valid() && dest.Stream() == old(dest.Stream()) + ScanBytes(scan, ts, ImageMcus(g, src))
    ensures r.Done? ==> ScanEncodable(scan, ts, ImageMcus(g, src), scan.Zeros(), scan.restartInterval)
    ensures r.Done? && ts.Readable(scan) ==>
              DecodeScan(scan, ts, ScanBytes(scan, ts, ImageMcus(g, src)), |ImageMcus(g, src)|) == Some(ImageMcus(g, src))
    ensures r.Suspended? ==> dest.Valid() && StoppedSomewhere(g, src, scan, ts, old(dest.Stream()), dest.Stream())
    ensures ScanEncodable(scan, ts, ImageMcus(g, src), scan.Zeros(), scan.restartInterval) ==>
              (r.Failed? ==> r.error == CannotSuspend) &&
              ((NeverRefusing(supplies, g.rows) || Roomy(g, src, WritingOf(scan, ts), supplies)) && (last.accepting || last.capacity > 2) ==> r.Done?)
    ensures InTurn(answers, at) && (r.Done? ==> Stops(answers, g.rows))
  {
    ghost var base, w := dest.Stream(), WritingOf(scan, ts);
    WritingFollows(scan, ts);
    NothingWritten(w, scan, ts, base);
    AllBefore(g, src);
    var enc := new Encoder(scan, ts);
    var ctrl := NewController(g, src, fullBuffer);
    if ScanEncodable(scan, ts, ImageMcus(g, src), scan.Zeros(), scan.restartInterval) {
      NothingRejected(g, src, scan, ts, w);
    }
    r, answers, at := CompressWith(ctrl, if fullBuffer then FirstPass else SinglePass, enc, dest, supplies, last, w, base);
  }
}
