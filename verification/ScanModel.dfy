/**
 A whole entropy-coded scan: MCUs, restart intervals and markers (sections F.1.1.5, E.1.4
 and F.2.2 of ITU-T T.81).  The byte layout is stated here, with the decoder that undoes it.
 */
module ScanModel {
  import opened Wrappers
  import opened Bits
  import opened Stuffing
  import opened DerivedTable
  import opened BlockCode
  import opened BlockCoder

  /** The codes of one Huffman table, and how to read them. */
  datatype Coder = Coder(codes: Derived, read: Reader)

  type Mcu = seq<Block>

  /**
   membership[j] is the component of the j-th block of an MCU; component ci uses DC table
   dcTbl[ci] and AC table acTbl[ci].  A restart interval of zero means no restarts.
   */
  datatype Scan = Scan(membership: seq<nat>, dcTbl: seq<nat>, acTbl: seq<nat>, restartInterval: nat)
  {
    predicate Valid()
    {
      |dcTbl| == |acTbl| <= 4 &&
      (forall j :: 0 <= j < |membership| ==> membership[j] < |dcTbl|) &&
      (forall c :: 0 <= c < |dcTbl| ==> dcTbl[c] < 4 && acTbl[c] < 4)
    }

    function Zeros(): (dc: seq<int>)
      ensures |dc| == |dcTbl|
    {
      seq(|dcTbl|, _ => 0)
    }
  }

  datatype TableSet = TableSet(dc: seq<Coder>, ac: seq<Coder>)
  {
    predicate Shaped()
    {
      |dc| == 4 && |ac| == 4 && forall n :: 0 <= n < 4 ==> dc[n].codes.Shaped() && ac[n].codes.Shaped()
    }

    function For(scan: Scan, ci: nat): (t: Tables)
      requires Shaped() && scan.Valid() && ci < |scan.dcTbl|
      ensures t.Shaped()
    {
      var d, a := dc[scan.dcTbl[ci]], ac[scan.acTbl[ci]];
      Tables(d.codes, a.codes, d.read, a.read)
    }

    ghost predicate Readable(scan: Scan)
      requires Shaped() && scan.Valid()
    {
      forall ci :: 0 <= ci < |scan.dcTbl| ==> For(scan, ci).Readable()
    }
  }

  // ---------------------------------------------------------------- one MCU

  /** The DC predictions after the blocks of an MCU from the j-th on. */
  function DcAfter(scan: Scan, mcu: Mcu, dc: seq<int>, j: nat): (r: seq<int>)
    requires scan.Valid() && |mcu| == |scan.membership| && |dc| == |scan.dcTbl| && j <= |mcu|
    ensures |r| == |dc|
    decreases |mcu| - j
  {
    if j == |mcu| then dc else DcAfter(scan, mcu, dc[scan.membership[j] := mcu[j][0]], j + 1)
  }

  function McuBits(scan: Scan, ts: TableSet, mcu: Mcu, dc: seq<int>, j: nat): BitString
    requires ts.Shaped() && scan.Valid() && |mcu| == |scan.membership| && |dc| == |scan.dcTbl| && j <= |mcu|
    decreases |mcu| - j
  {
    if j == |mcu| then []
    else
      var ci := scan.membership[j];
      ts.For(scan, ci).AllBits(BlockTokens(mcu[j], dc[ci])) + McuBits(scan, ts, mcu, dc[ci := mcu[j][0]], j + 1)
  }

  predicate McuEncodable(scan: Scan, ts: TableSet, mcu: Mcu, dc: seq<int>, j: nat)
    requires ts.Shaped() && scan.Valid() && |mcu| == |scan.membership| && |dc| == |scan.dcTbl| && j <= |mcu|
    decreases |mcu| - j
  {
    j == |mcu| ||
    (var ci := scan.membership[j];
     Encodable(ts.For(scan, ci), mcu[j], dc[ci]) && McuEncodable(scan, ts, mcu, dc[ci := mcu[j][0]], j + 1))
  }

  predicate McuInRange(scan: Scan, mcu: Mcu, dc: seq<int>, j: nat)
    requires scan.Valid() && |mcu| == |scan.membership| && |dc| == |scan.dcTbl| && j <= |mcu|
    decreases |mcu| - j
  {
    j == |mcu| ||
    (var ci := scan.membership[j];
     InRange(mcu[j], dc[ci]) && McuInRange(scan, mcu, dc[ci := mcu[j][0]], j + 1))
  }

  /** Every symbol of the blocks from the j-th on has a code. */
  predicate McuCovered(scan: Scan, ts: TableSet, mcu: Mcu, dc: seq<int>, j: nat)
    requires ts.Shaped() && scan.Valid() && |mcu| == |scan.membership| && |dc| == |scan.dcTbl| && j <= |mcu|
    decreases |mcu| - j
  {
    j == |mcu| ||
    (var ci := scan.membership[j];
     ts.For(scan, ci).HasAll(BlockTokens(mcu[j], dc[ci])) && McuCovered(scan, ts, mcu, dc[ci := mcu[j][0]], j + 1))
  }

  /** These two together are what coding an MCU takes. */
  lemma {:induction false} EncodableIff(scan: Scan, ts: TableSet, mcu: Mcu, dc: seq<int>, j: nat)
    requires ts.Shaped() && scan.Valid() && |mcu| == |scan.membership| && |dc| == |scan.dcTbl| && j <= |mcu|
    ensures McuEncodable(scan, ts, mcu, dc, j) <==> McuInRange(scan, mcu, dc, j) && McuCovered(scan, ts, mcu, dc, j)
    decreases |mcu| - j
  {
    if j < |mcu| { EncodableIff(scan, ts, mcu, dc[scan.membership[j] := mcu[j][0]], j + 1); }
  }

  /** Decode the blocks of one MCU from the j-th on. */
  function DecodeMcu(scan: Scan, ts: TableSet, s: BitString, dc: seq<int>, j: nat): Option<(Mcu, BitString)>
    requires ts.Shaped() && scan.Valid() && |dc| == |scan.dcTbl| && j <= |scan.membership|
    decreases |scan.membership| - j
  {
    if j == |scan.membership| then Some(([], s))
    else
      var ci := scan.membership[j];
      match DecodeBlock(ts.For(scan, ci), s, dc[ci])
      case None => None
      case Some((b, rest)) =>
        match DecodeMcu(scan, ts, rest, dc[ci := b[0]], j + 1)
        case None => None
        case Some((bs, rest')) => Some(([b] + bs, rest'))
  }

  /** The j-th block decodes, and leaves the bits of the others. */
  lemma FirstBlock(scan: Scan, ts: TableSet, mcu: Mcu, dc: seq<int>, j: nat, rest: BitString)
    requires ts.Shaped() && scan.Valid() && |mcu| == |scan.membership| && |dc| == |scan.dcTbl| && j < |mcu|
    requires ts.Readable(scan) && McuEncodable(scan, ts, mcu, dc, j)
    ensures var ci := scan.membership[j];
            DecodeBlock(ts.For(scan, ci), McuBits(scan, ts, mcu, dc, j) + rest, dc[ci])
            == Some((mcu[j], McuBits(scan, ts, mcu, dc[ci := mcu[j][0]], j + 1) + rest))
  {
    var ci := scan.membership[j];
    var others := McuBits(scan, ts, mcu, dc[ci := mcu[j][0]], j + 1);
    Associative(ts.For(scan, ci).AllBits(BlockTokens(mcu[j], dc[ci])), others, rest);
    BlockDecodes(scan, ts, ci, mcu[j], dc[ci], others + rest);
  }

  lemma BlockDecodes(scan: Scan, ts: TableSet, ci: nat, b: Block, lastDc: int, rest: BitString)
    requires ts.Shaped() && scan.Valid() && ts.Readable(scan) && ci < |scan.dcTbl| && Encodable(ts.For(scan, ci), b, lastDc)
    ensures DecodeBlock(ts.For(scan, ci), ts.For(scan, ci).AllBits(BlockTokens(b, lastDc)) + rest, lastDc) == Some((b, rest))
  {
    BlockRoundTrip(ts.For(scan, ci), b, lastDc, rest);
  }

  lemma DecodeMcuFrom(scan: Scan, ts: TableSet, s: BitString, dc: seq<int>, j: nat, b: Block, tail: BitString, bs: Mcu, rest: BitString)
    requires ts.Shaped() && scan.Valid() && |dc| == |scan.dcTbl| && j < |scan.membership|
    requires DecodeBlock(ts.For(scan, scan.membership[j]), s, dc[scan.membership[j]]) == Some((b, tail))
    requires DecodeMcu(scan, ts, tail, dc[scan.membership[j] := b[0]], j + 1) == Some((bs, rest))
    ensures DecodeMcu(scan, ts, s, dc, j) == Some(([b] + bs, rest))
  {
  }

  lemma {:induction false} McuRoundTrip(scan: Scan, ts: TableSet, mcu: Mcu, dc: seq<int>, j: nat, rest: BitString)
    requires ts.Shaped() && scan.Valid() && |mcu| == |scan.membership| && |dc| == |scan.dcTbl| && j <= |mcu|
    requires ts.Readable(scan) && McuEncodable(scan, ts, mcu, dc, j)
    ensures DecodeMcu(scan, ts, McuBits(scan, ts, mcu, dc, j) + rest, dc, j) == Some((mcu[j..], rest))
    decreases |mcu| - j
  {
    if j == |mcu| {
      assert McuBits(scan, ts, mcu, dc, j) + rest == rest;
    } else {
      var dc' := dc[scan.membership[j] := mcu[j][0]];
      var tail := McuBits(scan, ts, mcu, dc', j + 1) + rest;
      McuRoundTrip(scan, ts, mcu, dc', j + 1, rest);
      FirstBlock(scan, ts, mcu, dc, j, rest);
      DecodeMcuFrom(scan, ts, McuBits(scan, ts, mcu, dc, j) + rest, dc, j, mcu[j], tail, mcu[j + 1..], rest);
      assert [mcu[j]] + mcu[j + 1..] == mcu[j..];
    }
  }

  // ---------------------------------------------------------------- the scan

  predicate Mcus(scan: Scan, mcus: seq<Mcu>)
  {
    forall i :: 0 <= i < |mcus| ==> |mcus[i]| == |scan.membership|
  }

  /** A restart marker is due before the next MCU. */
  predicate RestartDue(scan: Scan, togo: nat)
  {
    scan.restartInterval > 0 && togo == 0
  }

  function TogoAfter(scan: Scan, togo: nat): nat
    requires !RestartDue(scan, togo)
  {
    if scan.restartInterval > 0 then togo - 1 else togo
  }

  /** The bits from here to the end of the current restart interval. */
  function SegmentBits(scan: Scan, ts: TableSet, mcus: seq<Mcu>, dc: seq<int>, togo: nat): BitString
    requires ts.Shaped() && scan.Valid() && Mcus(scan, mcus) && |dc| == |scan.dcTbl|
    decreases |mcus|
  {
    if mcus == [] || RestartDue(scan, togo) then []
    else McuBits(scan, ts, mcus[0], dc, 0)
         + SegmentBits(scan, ts, mcus[1..], DcAfter(scan, mcus[0], dc, 0), TogoAfter(scan, togo))
  }

  function RestartMarker(num: nat): seq<Byte>
    requires num < 8
  {
    [0xFF, 0xD0 + num]
  }

  /** The bytes after the current restart interval: marker, padded interval, and so on. */
  function AfterSegment(scan: Scan, ts: TableSet, mcus: seq<Mcu>, togo: nat, num: nat): seq<Byte>
    requires ts.Shaped() && scan.Valid() && Mcus(scan, mcus) && num < 8
    decreases |mcus|, if togo == 0 then 1 else 0
  {
    if mcus == [] then []
    else if RestartDue(scan, togo) then
      RestartMarker(num) + Padded(SegmentBits(scan, ts, mcus, scan.Zeros(), scan.restartInterval))
      + AfterSegment(scan, ts, mcus, scan.restartInterval, (num + 1) % 8)
    else AfterSegment(scan, ts, mcus[1..], TogoAfter(scan, togo), num)
  }

  /** Packed bits, filled up with ones to a byte boundary. */
  function Padded(bits: BitString): seq<Byte>
  {
    Pack(bits + Ones(PadLength(|bits|)))
  }

  /** The entropy-coded data of a whole scan. */
  function ScanBytes(scan: Scan, ts: TableSet, mcus: seq<Mcu>): seq<Byte>
    requires ts.Shaped() && scan.Valid() && Mcus(scan, mcus)
  {
    Padded(SegmentBits(scan, ts, mcus, scan.Zeros(), scan.restartInterval))
    + AfterSegment(scan, ts, mcus, scan.restartInterval, 0)
  }

  /** Every MCU of the scan can be encoded, given the predictions it will meet. */
  predicate ScanEncodable(scan: Scan, ts: TableSet, mcus: seq<Mcu>, dc: seq<int>, togo: nat)
    requires ts.Shaped() && scan.Valid() && Mcus(scan, mcus) && |dc| == |scan.dcTbl|
    decreases |mcus|, if togo == 0 then 1 else 0
  {
    mcus == [] ||
    (if RestartDue(scan, togo) then ScanEncodable(scan, ts, mcus, scan.Zeros(), scan.restartInterval)
     else McuEncodable(scan, ts, mcus[0], dc, 0) &&
          ScanEncodable(scan, ts, mcus[1..], DcAfter(scan, mcus[0], dc, 0), TogoAfter(scan, togo)))
  }

  /**
   Decode n MCUs: s holds the unread bits of the current interval, after the bytes from
   the next marker on.  At a restart what is left of the interval is thrown away.
   */
  function DecodeScanFrom(scan: Scan, ts: TableSet, s: BitString, after: seq<Byte>, dc: seq<int>, togo: nat, num: nat, n: nat)
    : Option<seq<Mcu>>
    requires ts.Shaped() && scan.Valid() && |dc| == |scan.dcTbl| && num < 8
    decreases n, if togo == 0 then 1 else 0
  {
    if n == 0 then Some([])
    else if RestartDue(scan, togo) then
      if |after| < 2 || after[..2] != RestartMarker(num) then None
      else
        var u := Unstuff(after[2..]);
        DecodeScanFrom(scan, ts, u.0, u.1, scan.Zeros(), scan.restartInterval, (num + 1) % 8, n)
    else
      match DecodeMcu(scan, ts, s, dc, 0)
      case None => None
      case Some((mcu, rest)) =>
        if |mcu| != |scan.membership| then None
        else
          match DecodeScanFrom(scan, ts, rest, after, DcAfter(scan, mcu, dc, 0), TogoAfter(scan, togo), num, n - 1)
          case None => None
          case Some(mcus) => Some([mcu] + mcus)
  }

  function DecodeScan(scan: Scan, ts: TableSet, bytes: seq<Byte>, n: nat): Option<seq<Mcu>>
    requires ts.Shaped() && scan.Valid()
  {
    var u := Unstuff(bytes);
    DecodeScanFrom(scan, ts, u.0, u.1, scan.Zeros(), scan.restartInterval, 0, n)
  }

  lemma {:induction false} AfterStartsWithMarker(scan: Scan, ts: TableSet, mcus: seq<Mcu>, togo: nat, num: nat)
    requires ts.Shaped() && scan.Valid() && Mcus(scan, mcus) && num < 8
    ensures AtMarkerOrEnd(AfterSegment(scan, ts, mcus, togo, num))
    decreases |mcus|
  {
    if mcus != [] && !RestartDue(scan, togo) {
      AfterStartsWithMarker(scan, ts, mcus[1..], TogoAfter(scan, togo), num);
    }
  }

  /** A padded interval followed by a marker reads back as its bits, then ones. */
  lemma UnstuffPadded(bits: BitString, rest: seq<Byte>)
    requires AtMarkerOrEnd(rest)
    ensures Unstuff(Padded(bits) + rest) == (bits + Ones(PadLength(|bits|)), rest)
  {
    var all := bits + Ones(PadLength(|bits|));
    UnstuffPack(all, rest);
    assert all[..|all| / 8 * 8] == all;
  }

  /** At a restart the decoder goes on with the next interval. */
  lemma DecodeRestart(scan: Scan, ts: TableSet, mcus: seq<Mcu>, togo: nat, s: BitString, dc: seq<int>, num: nat)
    requires ts.Shaped() && scan.Valid() && Mcus(scan, mcus) && |dc| == |scan.dcTbl| && num < 8
    requires mcus != [] && RestartDue(scan, togo)
    ensures var bits := SegmentBits(scan, ts, mcus, scan.Zeros(), scan.restartInterval);
            var next := (num + 1) % 8;
            DecodeScanFrom(scan, ts, s, AfterSegment(scan, ts, mcus, togo, num), dc, togo, num, |mcus|)
            == DecodeScanFrom(scan, ts, bits + Ones(PadLength(|bits|)), AfterSegment(scan, ts, mcus, scan.restartInterval, next),
                              scan.Zeros(), scan.restartInterval, next, |mcus|)
  {
    var next := (num + 1) % 8;
    var bits := SegmentBits(scan, ts, mcus, scan.Zeros(), scan.restartInterval);
    var after := AfterSegment(scan, ts, mcus, scan.restartInterval, next);
    var all := AfterSegment(scan, ts, mcus, togo, num);
    assert all[..2] == RestartMarker(num) && all[2..] == Padded(bits) + after;
    AfterStartsWithMarker(scan, ts, mcus, scan.restartInterval, next);
    UnstuffPadded(bits, after);
  }

  /** Otherwise it decodes one MCU and then the rest. */
  lemma DecodeNext(scan: Scan, ts: TableSet, mcus: seq<Mcu>, s: BitString, tail: BitString, after: seq<Byte>, dc: seq<int>, togo: nat, num: nat)
    requires ts.Shaped() && scan.Valid() && Mcus(scan, mcus) && |dc| == |scan.dcTbl| && num < 8
    requires mcus != [] && !RestartDue(scan, togo)
    requires DecodeMcu(scan, ts, s, dc, 0) == Some((mcus[0][0..], tail))
    requires DecodeScanFrom(scan, ts, tail, after, DcAfter(scan, mcus[0], dc, 0), TogoAfter(scan, togo), num, |mcus[1..]|) == Some(mcus[1..])
    ensures DecodeScanFrom(scan, ts, s, after, dc, togo, num, |mcus|) == Some(mcus)
  {
    assert mcus[0][0..] == mcus[0];
    assert [mcus[0]] + mcus[1..] == mcus;
  }

  lemma {:induction false} DecodeScanRest(scan: Scan, ts: TableSet, mcus: seq<Mcu>, dc: seq<int>, togo: nat, num: nat, pad: BitString)
    requires ts.Shaped() && scan.Valid() && Mcus(scan, mcus) && |dc| == |scan.dcTbl| && num < 8
    requires ts.Readable(scan) && ScanEncodable(scan, ts, mcus, dc, togo)
    ensures DecodeScanFrom(scan, ts, SegmentBits(scan, ts, mcus, dc, togo) + pad, AfterSegment(scan, ts, mcus, togo, num),
                           dc, togo, num, |mcus|) == Some(mcus)
    decreases |mcus|, if togo == 0 then 1 else 0
  {
    if mcus == [] {
    } else if RestartDue(scan, togo) {
      var bits := SegmentBits(scan, ts, mcus, scan.Zeros(), scan.restartInterval);
      DecodeRestart(scan, ts, mcus, togo, SegmentBits(scan, ts, mcus, dc, togo) + pad, dc, num);
      DecodeScanRest(scan, ts, mcus, scan.Zeros(), scan.restartInterval, (num + 1) % 8, Ones(PadLength(|bits|)));
    } else {
      var dc', togo' := DcAfter(scan, mcus[0], dc, 0), TogoAfter(scan, togo);
      var first, others := McuBits(scan, ts, mcus[0], dc, 0), SegmentBits(scan, ts, mcus[1..], dc', togo');
      assert first + others + pad == first + (others + pad);
      McuRoundTrip(scan, ts, mcus[0], dc, 0, others + pad);
      DecodeScanRest(scan, ts, mcus[1..], dc', togo', num, pad);
      DecodeNext(scan, ts, mcus, first + (others + pad), others + pad, AfterSegment(scan, ts, mcus[1..], togo', num), dc, togo, num);
    }
  }

  /**
   Scan round trip: for every sequence of MCUs that pass the range checks under tables
   that cover the symbols used, and every restart interval, the bytes decode to the MCUs.
   */
  lemma ScanRoundTrip(scan: Scan, ts: TableSet, mcus: seq<Mcu>)
    requires ts.Shaped() && scan.Valid() && Mcus(scan, mcus) && ts.Readable(scan)
    requires ScanEncodable(scan, ts, mcus, scan.Zeros(), scan.restartInterval)
    ensures DecodeScan(scan, ts, ScanBytes(scan, ts, mcus), |mcus|) == Some(mcus)
  {
    var bits := SegmentBits(scan, ts, mcus, scan.Zeros(), scan.restartInterval);
    AfterStartsWithMarker(scan, ts, mcus, scan.restartInterval, 0);
    UnstuffPadded(bits, AfterSegment(scan, ts, mcus, scan.restartInterval, 0));
    DecodeScanRest(scan, ts, mcus, scan.Zeros(), scan.restartInterval, 0, Ones(PadLength(|bits|)));
  }
}
