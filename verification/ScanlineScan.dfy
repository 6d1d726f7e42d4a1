/**
 From scanlines to bytes: the main buffer hands iMCU rows to the coefficient controller, which refuses
 them for as long as the destination has no room.
 */
module ScanlineScan {
  import opened Wrappers
  import opened Bits
  import opened Answers
  import opened BitWriter
  import opened BlockCode
  import opened ScanModel
  import opened McuGeometry
  import opened CoefController
  import opened Compression
  import opened RowModel
  import opened RowFeeder

  /** The forward DCT: block (y, col) of component c of an iMCU row. */
  type Dct = (seq<Group>, nat, nat, nat) -> Block

  function BlockOf(img: Image, g: Geometry, dct: Dct, c: nat, row: nat, col: nat): Block
  {
    if img.Valid() && c < |g.comps| && g.comps[c].v >= 1 then
      dct(img.IMcuRow(row / g.comps[c].v), c, row % g.comps[c].v, col)
    else DcOnly(0)
  }

  /** The blocks of an image, each from the iMCU row that it lies in. */
  function BlocksOf(img: Image, g: Geometry, dct: Dct): Source
  {
    (c, row, col) => BlockOf(img, g, dct, c, row, col)
  }

  /** What the buffer holds for an iMCU row is all that its blocks depend on. */
  lemma BlockInRow(img: Image, g: Geometry, dct: Dct, i: nat, c: nat, y: nat, col: nat)
    requires img.Valid() && g.Valid() && c < |g.comps| && y < g.comps[c].v
    ensures BlocksOf(img, g, dct)(c, i * g.comps[c].v + y, col) == dct(img.IMcuRow(i), c, y, col)
  {
    var v := g.comps[c].v;
    assert i * v + y == v * i + y;
    DivModUnique(i * v + y, v, i, y);
  }

  /** In every call the controller works on the iMCU row it has been offered. */
  ghost predicate Fed(img: Image, g: Geometry, dct: Dct, offered: seq<seq<Group>>, at: seq<nat>)
    requires img.Valid() && g.Valid()
  {
    |offered| == |at| && forall k: nat {:trigger FedAt(img, g, dct, offered[k], at[k])} :: k < |at| ==> FedAt(img, g, dct, offered[k], at[k])
  }

  /** The blocks of iMCU row i are those of the buffer. */
  ghost predicate FedAt(img: Image, g: Geometry, dct: Dct, buffer: seq<Group>, i: nat)
    requires img.Valid() && g.Valid()
  {
    forall c: nat, y: nat, col: nat :: c < |g.comps| && y < g.comps[c].v ==>
      BlocksOf(img, g, dct)(c, i * g.comps[c].v + y, col) == dct(buffer, c, y, col)
  }

  /**
   Scanlines in, bytes out.  For any batches of scanlines and any pattern of refusals: when the scan is
   completed all scanlines have been taken, in every call of the controller the main buffer held the
   iMCU row that the controller was at, and the bytes are the scan of the MCUs of the image's blocks.
   */
  method CompressScanlines(img: Image, g: Geometry, dct: Dct, scan: Scan, ts: TableSet, fullBuffer: bool,
                           dest: Destination, supplies: seq<Supply>, last: Supply, batches: seq<nat>)
    returns (r: Outcome, nextScanline: nat, ghost offered: seq<seq<Group>>, ghost at: seq<nat>)
    requires img.Valid() && Matches(g, scan, ts) && g.rows == img.IMcuRows() && g.BlocksUpTo(|g.comps|) <= 10
    requires dest.Valid() && Supplies(supplies) && last.capacity > 0 && forall k :: 0 <= k < |batches| ==> batches[k] > 0
    modifies dest, dest.buffer
    ensures r.Done? ==> nextScanline == |img.rows| && Fed(img, g, dct, offered, at)
    ensures r.Done? ==> dest.Valid() && dest.Stream() == old(dest.Stream()) + ScanBytes(scan, ts, ImageMcus(g, BlocksOf(img, g, dct)))
    ensures r.Done? && ts.Readable(scan) ==>
              DecodeScan(scan, ts, ScanBytes(scan, ts, ImageMcus(g, BlocksOf(img, g, dct))), |ImageMcus(g, BlocksOf(img, g, dct))|)
              == Some(ImageMcus(g, BlocksOf(img, g, dct)))
    ensures ScanEncodable(scan, ts, ImageMcus(g, BlocksOf(img, g, dct)), scan.Zeros(), scan.restartInterval) ==>
              ((NeverRefusing(supplies, g.rows) || Roomy(g, BlocksOf(img, g, dct), WritingOf(scan, ts), supplies)) && (last.accepting || last.capacity > 2) ==> r.Done?)
  {
    var answers;
    nextScanline, offered := 0, [];
    r, answers, at := CompressScan(g, BlocksOf(img, g, dct), scan, ts, fullBuffer, dest, supplies, last);
    if r.Done? {
      nextScanline, offered := FeedImage(img, answers, batches);
      AllFed(img, g, dct, answers, offered, at);
    }
  }

  lemma AllFed(img: Image, g: Geometry, dct: Dct, answers: seq<bool>, offered: seq<seq<Group>>, at: seq<nat>)
    requires img.Valid() && g.Valid() && InTurn(answers, at) && |offered| == |answers|
    requires forall k :: 0 <= k < |offered| ==> offered[k] == img.IMcuRow(Accepted(answers[..k]))
    ensures Fed(img, g, dct, offered, at)
  {
    forall k: nat | k < |at| ensures FedAt(img, g, dct, offered[k], at[k]) {
      forall c: nat, y: nat, col: nat | c < |g.comps| && y < g.comps[c].v
        ensures BlocksOf(img, g, dct)(c, at[k] * g.comps[c].v + y, col) == dct(offered[k], c, y, col)
      {
        BlockInRow(img, g, dct, at[k], c, y, col);
      }
    }
  }

  /** The application's side, against a compressor that answers in this way. */
  method FeedImage(img: Image, answers: seq<bool>, batches: seq<nat>) returns (nextScanline: nat, ghost offered: seq<seq<Group>>)
    requires img.Valid() && Stops(answers, img.IMcuRows()) && forall k :: 0 <= k < |batches| ==> batches[k] > 0
    ensures nextScanline == |img.rows| && |offered| == |answers|
    ensures forall k :: 0 <= k < |offered| ==> offered[k] == img.IMcuRow(Accepted(answers[..k]))
  {
    var coef := new Compressor(answers);
    var feeder := new Feeder(img, coef);
    WriteImage(feeder, batches);
    nextScanline, offered := feeder.nextScanline, coef.offered;
    SameHistory(coef.answers, answers, img.IMcuRows());
    forall k | 0 <= k < |offered| ensures offered[k] == img.IMcuRow(Accepted(answers[..k])) {
      assert coef.OfferedAt(img, k);
    }
  }
}
