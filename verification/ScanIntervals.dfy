/**
 What the data of a scan consists of, block by block: the prediction each block is coded with,
 the blocks of a restart interval, and the markers between the intervals.
 */
module ScanIntervals {
  import opened Bits
  import opened BlockCode
  import opened ScanModel

  /** Place j of MCU i; place 0 of the MCU after the last one is the end. */
  predicate Place(scan: Scan, mcus: seq<Mcu>, i: nat, j: nat)
  {
    Mcus(scan, mcus) && j <= |scan.membership| && (i < |mcus| || (i == |mcus| && j == 0))
  }

  /** None of the blocks from the q-th up to the j-th of an MCU belongs to the component. */
  predicate NoneOf(scan: Scan, ci: nat, q: nat, j: nat)
    requires j <= |scan.membership|
  {
    forall p :: q <= p < j ==> scan.membership[p] != ci
  }

  function Prediction(scan: Scan, mcus: seq<Mcu>, i: nat, j: nat, ci: nat): int
    requires Place(scan, mcus, i, j)
    decreases i, j
  {
    if j > 0 then if scan.membership[j - 1] == ci then mcus[i][j - 1][0] else Prediction(scan, mcus, i, j - 1, ci)
    else if i > 0 then Prediction(scan, mcus, i - 1, |scan.membership|, ci)
    else 0
  }

  /**
   This is the DC coefficient of the last earlier block of the component: in this MCU, or else in the MCU before it;
   and zero when there is none.
   */
  lemma {:induction false} LastOfComponent(scan: Scan, mcus: seq<Mcu>, i: nat, j: nat, ci: nat)
    requires Place(scan, mcus, i, j)
    ensures forall q :: 0 <= q < j && scan.membership[q] == ci && NoneOf(scan, ci, q + 1, j) ==>
              Prediction(scan, mcus, i, j, ci) == mcus[i][q][0]
    ensures i > 0 && NoneOf(scan, ci, 0, j) ==>
              forall q :: 0 <= q < |scan.membership| && scan.membership[q] == ci && NoneOf(scan, ci, q + 1, |scan.membership|) ==>
                Prediction(scan, mcus, i, j, ci) == mcus[i - 1][q][0]
    ensures NoneOf(scan, ci, 0, if i == 0 then j else |scan.membership|) ==> Prediction(scan, mcus, i, j, ci) == 0
    decreases i, j
  {
    if j > 0 {
      LastOfComponent(scan, mcus, i, j - 1, ci);
    } else if i > 0 {
      LastOfComponent(scan, mcus, i - 1, |scan.membership|, ci);
    }
  }

  /** The bits of the blocks before a place, each coded with its prediction and with the tables of its component. */
  function RunBits(scan: Scan, ts: TableSet, mcus: seq<Mcu>, i: nat, j: nat): BitString
    requires ts.Shaped() && scan.Valid() && Place(scan, mcus, i, j)
    decreases i, j
  {
    if j > 0 then
      var ci := scan.membership[j - 1];
      RunBits(scan, ts, mcus, i, j - 1)
      + ts.For(scan, ci).AllBits(BlockTokens(mcus[i][j - 1], Prediction(scan, mcus, i, j - 1, ci)))
    else if i > 0 then RunBits(scan, ts, mcus, i - 1, |scan.membership|)
    else []
  }

  /** All of them. */
  function IntervalBits(scan: Scan, ts: TableSet, mcus: seq<Mcu>): BitString
    requires ts.Shaped() && scan.Valid() && Mcus(scan, mcus)
  {
    RunBits(scan, ts, mcus, |mcus|, 0)
  }

  /** The predictions at a place. */
  predicate Predicts(scan: Scan, mcus: seq<Mcu>, i: nat, j: nat, dc: seq<int>)
    requires scan.Valid() && Place(scan, mcus, i, j)
  {
    |dc| == |scan.dcTbl| && forall ci :: 0 <= ci < |dc| ==> dc[ci] == Prediction(scan, mcus, i, j, ci)
  }

  lemma NextPlace(scan: Scan, mcus: seq<Mcu>, i: nat, j: nat, dc: seq<int>)
    requires scan.Valid() && Mcus(scan, mcus) && i < |mcus| && j < |scan.membership| && Predicts(scan, mcus, i, j, dc)
    ensures Predicts(scan, mcus, i, j + 1, dc[scan.membership[j] := mcus[i][j][0]])
  {
  }

  lemma {:induction false} RestOfMcu(scan: Scan, ts: TableSet, mcus: seq<Mcu>, i: nat, j: nat, dc: seq<int>)
    requires ts.Shaped() && scan.Valid() && Mcus(scan, mcus) && i < |mcus| && j <= |scan.membership|
    requires Predicts(scan, mcus, i, j, dc)
    ensures RunBits(scan, ts, mcus, i, |scan.membership|) == RunBits(scan, ts, mcus, i, j) + McuBits(scan, ts, mcus[i], dc, j)
    ensures Predicts(scan, mcus, i, |scan.membership|, DcAfter(scan, mcus[i], dc, j))
    decreases |scan.membership| - j
  {
    if j < |scan.membership| {
      NextPlace(scan, mcus, i, j, dc);
      var dc' := dc[scan.membership[j] := mcus[i][j][0]];
      RestOfMcu(scan, ts, mcus, i, j + 1, dc');
      FirstOfRest(scan, ts, mcus[i], dc, j, RunBits(scan, ts, mcus, i, j));
      assert RunBits(scan, ts, mcus, i, j + 1) == RunBits(scan, ts, mcus, i, j)
        + ts.For(scan, scan.membership[j]).AllBits(BlockTokens(mcus[i][j], dc[scan.membership[j]]));
    }
  }

  lemma FirstOfRest(scan: Scan, ts: TableSet, mcu: Mcu, dc: seq<int>, j: nat, before: BitString)
    requires ts.Shaped() && scan.Valid() && |mcu| == |scan.membership| && |dc| == |scan.dcTbl| && j < |mcu|
    ensures before + McuBits(scan, ts, mcu, dc, j)
            == before + ts.For(scan, scan.membership[j]).AllBits(BlockTokens(mcu[j], dc[scan.membership[j]]))
               + McuBits(scan, ts, mcu, dc[scan.membership[j] := mcu[j][0]], j + 1)
  {
  }

  lemma FirstOfSegment(scan: Scan, ts: TableSet, mcus: seq<Mcu>, dc: seq<int>, togo: nat, before: BitString)
    requires ts.Shaped() && scan.Valid() && Mcus(scan, mcus) && |dc| == |scan.dcTbl| && mcus != [] && !RestartDue(scan, togo)
    ensures before + SegmentBits(scan, ts, mcus, dc, togo)
            == before + McuBits(scan, ts, mcus[0], dc, 0)
               + SegmentBits(scan, ts, mcus[1..], DcAfter(scan, mcus[0], dc, 0), TogoAfter(scan, togo))
  {
  }

  lemma NextMcu(scan: Scan, ts: TableSet, mcus: seq<Mcu>, i: nat, dc: seq<int>)
    requires ts.Shaped() && scan.Valid() && Mcus(scan, mcus) && i < |mcus| && Predicts(scan, mcus, i, 0, dc)
    ensures RunBits(scan, ts, mcus, i + 1, 0) == RunBits(scan, ts, mcus, i, 0) + McuBits(scan, ts, mcus[i], dc, 0)
    ensures Predicts(scan, mcus, i + 1, 0, DcAfter(scan, mcus[i], dc, 0))
  {
    RestOfMcu(scan, ts, mcus, i, 0, dc);
  }

  lemma {:induction false} RestOfInterval(scan: Scan, ts: TableSet, mcus: seq<Mcu>, i: nat, dc: seq<int>, togo: nat)
    requires ts.Shaped() && scan.Valid() && Mcus(scan, mcus) && i <= |mcus| && Predicts(scan, mcus, i, 0, dc)
    requires scan.restartInterval > 0 ==> |mcus| - i <= togo
    ensures IntervalBits(scan, ts, mcus) == RunBits(scan, ts, mcus, i, 0) + SegmentBits(scan, ts, mcus[i..], dc, togo)
    decreases |mcus| - i
  {
    if i < |mcus| {
      var rest := mcus[i..];
      assert rest[0] == mcus[i] && rest[1..] == mcus[i + 1..];
      NextMcu(scan, ts, mcus, i, dc);
      FirstOfSegment(scan, ts, rest, dc, togo, RunBits(scan, ts, mcus, i, 0));
      RestOfInterval(scan, ts, mcus, i + 1, DcAfter(scan, mcus[i], dc, 0), TogoAfter(scan, togo));
    }
  }

  // ---------------------------------------------------------------- intervals

  /** The data from the start of an interval on; num is the number of the next restart marker. */
  function DataFrom(scan: Scan, ts: TableSet, mcus: seq<Mcu>, num: nat): seq<Byte>
    requires ts.Shaped() && scan.Valid() && Mcus(scan, mcus) && num < 8
  {
    Padded(SegmentBits(scan, ts, mcus, scan.Zeros(), scan.restartInterval))
    + AfterSegment(scan, ts, mcus, scan.restartInterval, num)
  }

  lemma {:induction false} SegmentEnds(scan: Scan, ts: TableSet, mcus: seq<Mcu>, dc: seq<int>, togo: nat)
    requires ts.Shaped() && scan.Valid() && Mcus(scan, mcus) && |dc| == |scan.dcTbl|
    requires scan.restartInterval > 0 && togo <= |mcus|
    ensures SegmentBits(scan, ts, mcus, dc, togo) == SegmentBits(scan, ts, mcus[..togo], dc, togo)
    decreases togo
  {
    if togo > 0 {
      SegmentEnds(scan, ts, mcus[1..], DcAfter(scan, mcus[0], dc, 0), togo - 1);
      assert mcus[..togo][0] == mcus[0] && mcus[..togo][1..] == mcus[1..][..togo - 1];
    }
  }

  lemma {:induction false} AfterFirst(scan: Scan, ts: TableSet, mcus: seq<Mcu>, togo: nat, num: nat)
    requires ts.Shaped() && scan.Valid() && Mcus(scan, mcus) && num < 8 && scan.restartInterval > 0
    ensures AfterSegment(scan, ts, mcus, togo, num) == if |mcus| <= togo then [] else AfterSegment(scan, ts, mcus[togo..], 0, num)
    decreases togo
  {
    if togo > 0 && mcus != [] {
      AfterFirst(scan, ts, mcus[1..], togo - 1, num);
      if togo < |mcus| { assert mcus[1..][togo - 1..] == mcus[togo..]; }
    }
  }

  lemma {:induction false} NothingAfter(scan: Scan, ts: TableSet, mcus: seq<Mcu>, togo: nat, num: nat)
    requires ts.Shaped() && scan.Valid() && Mcus(scan, mcus) && num < 8 && scan.restartInterval == 0
    ensures AfterSegment(scan, ts, mcus, togo, num) == []
    decreases |mcus|
  {
    if mcus != [] { NothingAfter(scan, ts, mcus[1..], togo, num); }
  }

  lemma IntervalIsSegment(scan: Scan, ts: TableSet, mcus: seq<Mcu>)
    requires ts.Shaped() && scan.Valid() && Mcus(scan, mcus)
    requires scan.restartInterval > 0 ==> |mcus| <= scan.restartInterval
    ensures SegmentBits(scan, ts, mcus, scan.Zeros(), scan.restartInterval) == IntervalBits(scan, ts, mcus)
  {
    RestOfInterval(scan, ts, mcus, 0, scan.Zeros(), scan.restartInterval);
    assert mcus[0..] == mcus;
  }

  /**
   The data is the padded intervals of as many MCUs as the restart interval says, each predicted afresh,
   with the markers RST0 to RST7 in turn between them.
   */
  lemma IntervalsInTurn(scan: Scan, ts: TableSet, mcus: seq<Mcu>, num: nat)
    requires ts.Shaped() && scan.Valid() && Mcus(scan, mcus) && num < 8
    ensures ScanBytes(scan, ts, mcus) == DataFrom(scan, ts, mcus, 0)
    ensures var r := scan.restartInterval;
            DataFrom(scan, ts, mcus, num) ==
            if r == 0 || |mcus| <= r then Padded(IntervalBits(scan, ts, mcus))
            else Padded(IntervalBits(scan, ts, mcus[..r])) + [0xFF, 0xD0 + num] + DataFrom(scan, ts, mcus[r..], (num + 1) % 8)
  {
    var r := scan.restartInterval;
    if r == 0 {
      NothingAfter(scan, ts, mcus, r, num);
      IntervalIsSegment(scan, ts, mcus);
    } else {
      AfterFirst(scan, ts, mcus, r, num);
      if |mcus| <= r {
        IntervalIsSegment(scan, ts, mcus);
      } else {
        SegmentEnds(scan, ts, mcus, scan.Zeros(), r);
        IntervalIsSegment(scan, ts, mcus[..r]);
      }
    }
  }
}
