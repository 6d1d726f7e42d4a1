/**
 What the counts of a statistics pass say about the data of the scan: how many bits it takes under any tables,
 and that no legal tables do noticeably better than the ones generated from the counts.
 */
module ScanCost {
  import opened Bits
  import opened DerivedTable
  import opened BlockCode
  import opened BlockCoder
  import opened ScanModel
  import opened ScanIntervals
  import opened HuffmanCost
  import opened OptimalTable
  import opened TableOrder
  import opened GatherPass
  import opened CountBound
  import opened TwoPass

  // ---------------------------------------------------------------- costs add up

  lemma {:induction false} CostSum(a: seq<nat>, b: seq<nat>, len: seq<nat>)
    requires |a| == |b| == |len|
    ensures Cost(Sum(a, b), len) == Cost(a, len) + Cost(b, len)
  {
    if a != [] {
      CostSum(a[1..], b[1..], len[1..]);
      assert Sum(a, b)[1..] == Sum(a[1..], b[1..]);
      MulSum(a[0], b[0], len[0]);
    }
  }

  /** One symbol counted once; none if k is not among them. */
  lemma {:induction false} CostOne(a: seq<nat>, len: seq<nat>, k: int)
    requires |a| == |len| && forall i :: 0 <= i < |a| ==> a[i] == if i == k then 1 else 0
    ensures Cost(a, len) == if 0 <= k < |a| then len[k] else 0
  {
    if a != [] { CostOne(a[1..], len[1..], k - 1); }
  }

  // ---------------------------------------------------------------- blocks

  /** The raw bits among some tokens. */
  function RawLength(ks: seq<Token>): nat
  {
    if ks == [] then 0 else |ks[0].raw| + RawLength(ks[1..])
  }

  function One(k: Token, isDC: bool): (r: seq<nat>)
    ensures |r| == 256
  {
    seq(256, s => if k.isDC == isDC && k.symbol == s then 1 else 0)
  }

  lemma TokenCountsNext(ks: seq<Token>, isDC: bool, len: seq<nat>)
    requires ks != [] && |len| == 256
    ensures Cost(TokenCounts(ks, isDC), len)
            == (if ks[0].isDC == isDC && ks[0].symbol < 256 then len[ks[0].symbol] else 0) + Cost(TokenCounts(ks[1..], isDC), len)
  {
    CostOne(One(ks[0], isDC), len, if ks[0].isDC == isDC then ks[0].symbol else -1);
    CostSum(One(ks[0], isDC), TokenCounts(ks[1..], isDC), len);
    assert TokenCounts(ks, isDC) == Sum(One(ks[0], isDC), TokenCounts(ks[1..], isDC));
  }

  /** A block takes its raw bits, and for each symbol its code as often as it is counted. */
  lemma {:induction false} TokensCost(t: Tables, ks: seq<Token>)
    requires t.Shaped()
    ensures |t.AllBits(ks)|
            == RawLength(ks) + Cost(TokenCounts(ks, true), t.dcCodes.ehufsi) + Cost(TokenCounts(ks, false), t.acCodes.ehufsi)
  {
    if ks == [] {
      CostOne(TokenCounts(ks, true), t.dcCodes.ehufsi, -1);
      CostOne(TokenCounts(ks, false), t.acCodes.ehufsi, -1);
    } else {
      TokensCost(t, ks[1..]);
      TokenCountsNext(ks, true, t.dcCodes.ehufsi);
      TokenCountsNext(ks, false, t.acCodes.ehufsi);
    }
  }

  // ---------------------------------------------------------------- MCUs

  /** For each of four tables, something for each of the 256 symbols. */
  predicate Four(a: seq<seq<nat>>)
  {
    |a| == 4 && |a[0]| == |a[1]| == |a[2]| == |a[3]| == 256
  }

  /** Code bits of the four tables of a class for the symbols counted in each. */
  function ClassCost(counts: seq<seq<nat>>, len: seq<seq<nat>>): nat
    requires Four(counts) && Four(len)
  {
    Cost(counts[0], len[0]) + Cost(counts[1], len[1]) + Cost(counts[2], len[2]) + Cost(counts[3], len[3])
  }

  /** The code lengths of the tables of a class. */
  function CodeLengths(ts: TableSet, isDC: bool): (r: seq<seq<nat>>)
    requires ts.Shaped()
    ensures Four(r) && forall n :: 0 <= n < 4 ==> r[n] == (if isDC then ts.dc else ts.ac)[n].codes.ehufsi
  {
    assert ts.dc[0].codes.Shaped() && ts.dc[1].codes.Shaped() && ts.dc[2].codes.Shaped() && ts.dc[3].codes.Shaped();
    assert ts.ac[0].codes.Shaped() && ts.ac[1].codes.Shaped() && ts.ac[2].codes.Shaped() && ts.ac[3].codes.Shaped();
    seq(4, n requires 0 <= n < 4 => (if isDC then ts.dc else ts.ac)[n].codes.ehufsi)
  }

  /** Counts of one class for the blocks of an MCU from the j-th on. */
  function McuClass(scan: Scan, mcu: Mcu, dc: seq<int>, j: nat, isDC: bool): (r: seq<seq<nat>>)
    requires scan.Valid() && |mcu| == |scan.membership| && |dc| == |scan.dcTbl| && j <= |mcu|
    ensures Four(r) && forall n :: 0 <= n < 4 ==> r[n] == McuCounts(scan, mcu, dc, j, isDC, n)
  {
    seq(4, n requires 0 <= n < 4 => McuCounts(scan, mcu, dc, j, isDC, n))
  }

  function ScanClass(scan: Scan, mcus: seq<Mcu>, dc: seq<int>, togo: nat, isDC: bool): (r: seq<seq<nat>>)
    requires scan.Valid() && Mcus(scan, mcus) && |dc| == |scan.dcTbl|
    ensures Four(r) && forall n :: 0 <= n < 4 ==> r[n] == ScanCounts(scan, mcus, dc, togo, isDC, n)
  {
    seq(4, n requires 0 <= n < 4 => ScanCounts(scan, mcus, dc, togo, isDC, n))
  }

  lemma ClassCostAdds(a: seq<seq<nat>>, b: seq<seq<nat>>, c: seq<seq<nat>>, len: seq<seq<nat>>)
    requires Four(a) && Four(b) && Four(c) && Four(len) && forall n :: 0 <= n < 4 ==> c[n] == Sum(a[n], b[n])
    ensures ClassCost(c, len) == ClassCost(a, len) + ClassCost(b, len)
  {
    CostSum(a[0], b[0], len[0]);
    CostSum(a[1], b[1], len[1]);
    CostSum(a[2], b[2], len[2]);
    CostSum(a[3], b[3], len[3]);
  }

  /** Counts that are zero but for the t-th table, if there is one. */
  lemma OneTableCost(counts: seq<seq<nat>>, len: seq<seq<nat>>, t: nat)
    requires Four(counts) && Four(len) && forall n, s :: 0 <= n < 4 && 0 <= s < 256 && n != t ==> counts[n][s] == 0
    ensures ClassCost(counts, len) == if t < 4 then Cost(counts[t], len[t]) else 0
  {
    if t != 0 { CostOne(counts[0], len[0], -1); }
    if t != 1 { CostOne(counts[1], len[1], -1); }
    if t != 2 { CostOne(counts[2], len[2], -1); }
    if t != 3 { CostOne(counts[3], len[3], -1); }
  }

  /** What the j-th block adds to the cost of a class. */
  lemma BlockClass(scan: Scan, mcu: Mcu, dc: seq<int>, j: nat, isDC: bool, len: seq<seq<nat>>)
    requires scan.Valid() && |mcu| == |scan.membership| && |dc| == |scan.dcTbl| && j < |mcu| && Four(len)
    ensures var ci := scan.membership[j];
            ClassCost(McuClass(scan, mcu, dc, j, isDC), len)
            == Cost(TokenCounts(BlockTokens(mcu[j], dc[ci]), isDC), len[if isDC then scan.dcTbl[ci] else scan.acTbl[ci]])
               + ClassCost(McuClass(scan, mcu, dc[ci := mcu[j][0]], j + 1, isDC), len)
  {
    var ci := scan.membership[j];
    var block := seq(4, n requires 0 <= n < 4 => BlockCounts(scan, mcu, dc, j, isDC, n));
    var others := McuClass(scan, mcu, dc[ci := mcu[j][0]], j + 1, isDC);
    forall n: nat | n < 4 ensures McuClass(scan, mcu, dc, j, isDC)[n] == Sum(block[n], others[n]) {
      McuCountsNext(scan, mcu, dc, j, isDC, n);
    }
    ClassCostAdds(block, others, McuClass(scan, mcu, dc, j, isDC), len);
    OneTableCost(block, len, if isDC then scan.dcTbl[ci] else scan.acTbl[ci]);
  }

  function McuRaw(scan: Scan, mcu: Mcu, dc: seq<int>, j: nat): nat
    requires scan.Valid() && |mcu| == |scan.membership| && |dc| == |scan.dcTbl| && j <= |mcu|
    decreases |mcu| - j
  {
    if j == |mcu| then 0
    else RawLength(BlockTokens(mcu[j], dc[scan.membership[j]])) + McuRaw(scan, mcu, dc[scan.membership[j] := mcu[j][0]], j + 1)
  }

  /** The code bits of the symbols counted in an MCU, under the tables' code lengths. */
  function McuCodes(scan: Scan, ts: TableSet, mcu: Mcu, dc: seq<int>, j: nat): nat
    requires ts.Shaped() && scan.Valid() && |mcu| == |scan.membership| && |dc| == |scan.dcTbl| && j <= |mcu|
  {
    ClassCost(McuClass(scan, mcu, dc, j, true), CodeLengths(ts, true)) + ClassCost(McuClass(scan, mcu, dc, j, false), CodeLengths(ts, false))
  }

  lemma McuCodesNext(scan: Scan, ts: TableSet, mcu: Mcu, dc: seq<int>, j: nat)
    requires ts.Shaped() && scan.Valid() && |mcu| == |scan.membership| && |dc| == |scan.dcTbl| && j < |mcu|
    ensures var ci := scan.membership[j];
            var ks := BlockTokens(mcu[j], dc[ci]);
            McuCodes(scan, ts, mcu, dc, j) + RawLength(ks)
            == |ts.For(scan, ci).AllBits(ks)| + McuCodes(scan, ts, mcu, dc[ci := mcu[j][0]], j + 1)
  {
    var ci := scan.membership[j];
    TokensCost(ts.For(scan, ci), BlockTokens(mcu[j], dc[ci]));
    BlockClass(scan, mcu, dc, j, true, CodeLengths(ts, true));
    BlockClass(scan, mcu, dc, j, false, CodeLengths(ts, false));
  }

  lemma NoMoreCodes(scan: Scan, ts: TableSet, mcu: Mcu, dc: seq<int>)
    requires ts.Shaped() && scan.Valid() && |mcu| == |scan.membership| && |dc| == |scan.dcTbl|
    ensures McuCodes(scan, ts, mcu, dc, |mcu|) == 0
  {
    OneTableCost(McuClass(scan, mcu, dc, |mcu|, true), CodeLengths(ts, true), 4);
    OneTableCost(McuClass(scan, mcu, dc, |mcu|, false), CodeLengths(ts, false), 4);
  }

  lemma McuBitsNext(scan: Scan, ts: TableSet, mcu: Mcu, dc: seq<int>, j: nat)
    requires ts.Shaped() && scan.Valid() && |mcu| == |scan.membership| && |dc| == |scan.dcTbl| && j < |mcu|
    ensures var ci := scan.membership[j];
            |McuBits(scan, ts, mcu, dc, j)| - McuRaw(scan, mcu, dc, j)
            == |ts.For(scan, ci).AllBits(BlockTokens(mcu[j], dc[ci]))| - RawLength(BlockTokens(mcu[j], dc[ci]))
               + (|McuBits(scan, ts, mcu, dc[ci := mcu[j][0]], j + 1)| - McuRaw(scan, mcu, dc[ci := mcu[j][0]], j + 1))
  {
  }

  /** The bits of an MCU: its raw bits and the codes of the symbols counted in it. */
  lemma {:induction false} McuCost(scan: Scan, ts: TableSet, mcu: Mcu, dc: seq<int>, j: nat)
    requires ts.Shaped() && scan.Valid() && |mcu| == |scan.membership| && |dc| == |scan.dcTbl| && j <= |mcu|
    ensures |McuBits(scan, ts, mcu, dc, j)| == McuRaw(scan, mcu, dc, j) + McuCodes(scan, ts, mcu, dc, j)
    decreases |mcu| - j
  {
    if j == |mcu| {
      NoMoreCodes(scan, ts, mcu, dc);
    } else {
      McuCost(scan, ts, mcu, dc[scan.membership[j] := mcu[j][0]], j + 1);
      McuCostNext(scan, ts, mcu, dc, j);
    }
  }

  lemma McuCostNext(scan: Scan, ts: TableSet, mcu: Mcu, dc: seq<int>, j: nat)
    requires ts.Shaped() && scan.Valid() && |mcu| == |scan.membership| && |dc| == |scan.dcTbl| && j < |mcu|
    ensures |McuBits(scan, ts, mcu, dc, j)| - McuRaw(scan, mcu, dc, j) - McuCodes(scan, ts, mcu, dc, j)
            == (var dc' := dc[scan.membership[j] := mcu[j][0]];
                |McuBits(scan, ts, mcu, dc', j + 1)| - McuRaw(scan, mcu, dc', j + 1) - McuCodes(scan, ts, mcu, dc', j + 1))
  {
    McuCodesNext(scan, ts, mcu, dc, j);
    McuBitsNext(scan, ts, mcu, dc, j);
  }

  // ---------------------------------------------------------------- the scan

  /** Bits of all the intervals before they are padded. */
  function DataBits(scan: Scan, ts: TableSet, mcus: seq<Mcu>, dc: seq<int>, togo: nat): nat
    requires ts.Shaped() && scan.Valid() && Mcus(scan, mcus) && |dc| == |scan.dcTbl|
    decreases |mcus|, if togo == 0 then 1 else 0
  {
    if mcus == [] then 0
    else if RestartDue(scan, togo) then DataBits(scan, ts, mcus, scan.Zeros(), scan.restartInterval)
    else |McuBits(scan, ts, mcus[0], dc, 0)| + DataBits(scan, ts, mcus[1..], DcAfter(scan, mcus[0], dc, 0), TogoAfter(scan, togo))
  }

  function RawBitsOf(scan: Scan, mcus: seq<Mcu>, dc: seq<int>, togo: nat): nat
    requires scan.Valid() && Mcus(scan, mcus) && |dc| == |scan.dcTbl|
    decreases |mcus|, if togo == 0 then 1 else 0
  {
    if mcus == [] then 0
    else if RestartDue(scan, togo) then RawBitsOf(scan, mcus, scan.Zeros(), scan.restartInterval)
    else McuRaw(scan, mcus[0], dc, 0) + RawBitsOf(scan, mcus[1..], DcAfter(scan, mcus[0], dc, 0), TogoAfter(scan, togo))
  }

  /** The code bits of the symbols counted in a scan, under the tables' code lengths. */
  function ScanCodes(scan: Scan, ts: TableSet, mcus: seq<Mcu>, dc: seq<int>, togo: nat): nat
    requires ts.Shaped() && scan.Valid() && Mcus(scan, mcus) && |dc| == |scan.dcTbl|
  {
    ClassCost(ScanClass(scan, mcus, dc, togo, true), CodeLengths(ts, true)) + ClassCost(ScanClass(scan, mcus, dc, togo, false), CodeLengths(ts, false))
  }

  lemma NextCounts(scan: Scan, mcus: seq<Mcu>, dc: seq<int>, togo: nat, isDC: bool, n: nat)
    requires scan.Valid() && Mcus(scan, mcus) && mcus != [] && |dc| == |scan.dcTbl| && !RestartDue(scan, togo)
    ensures ScanCounts(scan, mcus, dc, togo, isDC, n)
            == Sum(McuCounts(scan, mcus[0], dc, 0, isDC, n),
                   ScanCounts(scan, mcus[1..], DcAfter(scan, mcus[0], dc, 0), TogoAfter(scan, togo), isDC, n))
  {
  }

  lemma NextClass(scan: Scan, mcus: seq<Mcu>, dc: seq<int>, togo: nat, isDC: bool, len: seq<seq<nat>>)
    requires scan.Valid() && Mcus(scan, mcus) && mcus != [] && |dc| == |scan.dcTbl| && !RestartDue(scan, togo) && Four(len)
    ensures ClassCost(ScanClass(scan, mcus, dc, togo, isDC), len)
            == ClassCost(McuClass(scan, mcus[0], dc, 0, isDC), len)
               + ClassCost(ScanClass(scan, mcus[1..], DcAfter(scan, mcus[0], dc, 0), TogoAfter(scan, togo), isDC), len)
  {
    forall n: nat | n < 4
      ensures ScanClass(scan, mcus, dc, togo, isDC)[n]
              == Sum(McuClass(scan, mcus[0], dc, 0, isDC)[n],
                     ScanClass(scan, mcus[1..], DcAfter(scan, mcus[0], dc, 0), TogoAfter(scan, togo), isDC)[n])
    {
      NextCounts(scan, mcus, dc, togo, isDC, n);
    }
    ClassCostAdds(McuClass(scan, mcus[0], dc, 0, isDC), ScanClass(scan, mcus[1..], DcAfter(scan, mcus[0], dc, 0), TogoAfter(scan, togo), isDC),
                  ScanClass(scan, mcus, dc, togo, isDC), len);
  }

  lemma NoClass(scan: Scan, dc: seq<int>, togo: nat, isDC: bool, len: seq<seq<nat>>)
    requires scan.Valid() && |dc| == |scan.dcTbl| && Four(len)
    ensures ClassCost(ScanClass(scan, [], dc, togo, isDC), len) == 0
  {
    OneTableCost(ScanClass(scan, [], dc, togo, isDC), len, 4);
  }

  lemma RestartClass(scan: Scan, mcus: seq<Mcu>, dc: seq<int>, togo: nat, isDC: bool)
    requires scan.Valid() && Mcus(scan, mcus) && mcus != [] && |dc| == |scan.dcTbl| && RestartDue(scan, togo)
    ensures ScanClass(scan, mcus, dc, togo, isDC) == ScanClass(scan, mcus, scan.Zeros(), scan.restartInterval, isDC)
  {
    forall n: nat | n < 4
      ensures ScanCounts(scan, mcus, dc, togo, isDC, n) == ScanCounts(scan, mcus, scan.Zeros(), scan.restartInterval, isDC, n)
    {
    }
  }

  lemma ScanCodesNext(scan: Scan, ts: TableSet, mcus: seq<Mcu>, dc: seq<int>, togo: nat)
    requires ts.Shaped() && scan.Valid() && Mcus(scan, mcus) && mcus != [] && |dc| == |scan.dcTbl| && !RestartDue(scan, togo)
    ensures ScanCodes(scan, ts, mcus, dc, togo)
            == McuCodes(scan, ts, mcus[0], dc, 0) + ScanCodes(scan, ts, mcus[1..], DcAfter(scan, mcus[0], dc, 0), TogoAfter(scan, togo))
  {
    NextClass(scan, mcus, dc, togo, true, CodeLengths(ts, true));
    NextClass(scan, mcus, dc, togo, false, CodeLengths(ts, false));
  }

  /** The bits of a scan under any tables: raw bits that no table changes, and the counted symbols' codes. */
  lemma {:induction false} ScanTakes(scan: Scan, ts: TableSet, mcus: seq<Mcu>, dc: seq<int>, togo: nat)
    requires ts.Shaped() && scan.Valid() && Mcus(scan, mcus) && |dc| == |scan.dcTbl|
    ensures DataBits(scan, ts, mcus, dc, togo) == RawBitsOf(scan, mcus, dc, togo) + ScanCodes(scan, ts, mcus, dc, togo)
    decreases |mcus|, if togo == 0 then 1 else 0
  {
    if mcus == [] {
      NoClass(scan, dc, togo, true, CodeLengths(ts, true));
      NoClass(scan, dc, togo, false, CodeLengths(ts, false));
    } else if RestartDue(scan, togo) {
      ScanTakes(scan, ts, mcus, scan.Zeros(), scan.restartInterval);
      RestartClass(scan, mcus, dc, togo, true);
      RestartClass(scan, mcus, dc, togo, false);
    } else {
      ScanTakes(scan, ts, mcus[1..], DcAfter(scan, mcus[0], dc, 0), TogoAfter(scan, togo));
      McuCost(scan, ts, mcus[0], dc, 0);
      ScanCodesNext(scan, ts, mcus, dc, togo);
    }
  }

  /** These are the bits of the intervals one after the other. */
  lemma {:induction false} DataOfSegment(scan: Scan, ts: TableSet, mcus: seq<Mcu>, dc: seq<int>, togo: nat)
    requires ts.Shaped() && scan.Valid() && Mcus(scan, mcus) && |dc| == |scan.dcTbl|
    ensures DataBits(scan, ts, mcus, dc, togo)
            == |SegmentBits(scan, ts, mcus, dc, togo)|
               + (if scan.restartInterval > 0 && togo < |mcus| then DataBits(scan, ts, mcus[togo..], scan.Zeros(), scan.restartInterval) else 0)
    decreases |mcus|
  {
    if mcus != [] && !RestartDue(scan, togo) {
      DataOfSegment(scan, ts, mcus[1..], DcAfter(scan, mcus[0], dc, 0), TogoAfter(scan, togo));
      if scan.restartInterval > 0 && togo < |mcus| { assert mcus[1..][togo - 1..] == mcus[togo..]; }
    } else if mcus != [] {
      assert mcus[togo..] == mcus;
    }
  }

  lemma DataInIntervals(scan: Scan, ts: TableSet, mcus: seq<Mcu>)
    requires ts.Shaped() && scan.Valid() && Mcus(scan, mcus)
    ensures var r, zeros := scan.restartInterval, scan.Zeros();
            DataBits(scan, ts, mcus, zeros, r) ==
            if r == 0 || |mcus| <= r then |IntervalBits(scan, ts, mcus)|
            else |IntervalBits(scan, ts, mcus[..r])| + DataBits(scan, ts, mcus[r..], zeros, r)
  {
    var r := scan.restartInterval;
    DataOfSegment(scan, ts, mcus, scan.Zeros(), r);
    if r == 0 || |mcus| <= r {
      IntervalIsSegment(scan, ts, mcus);
    } else {
      SegmentEnds(scan, ts, mcus, scan.Zeros(), r);
      IntervalIsSegment(scan, ts, mcus[..r]);
    }
  }

  // ---------------------------------------------------------------- other tables

  lemma {:induction false} CountedToken(ks: seq<Token>, isDC: bool, s: nat) returns (i: nat)
    requires Tally(ks, isDC, s) > 0
    ensures i < |ks| && ks[i].isDC == isDC && ks[i].symbol == s
  {
    if ks[0].isDC == isDC && ks[0].symbol == s {
      i := 0;
    } else {
      i := CountedToken(ks[1..], isDC, s);
      i := i + 1;
    }
  }

  lemma {:induction false} McuCountedHasCode(scan: Scan, ts: TableSet, mcu: Mcu, dc: seq<int>, j: nat, isDC: bool, n: nat, s: nat)
    requires ts.Shaped() && scan.Valid() && |mcu| == |scan.membership| && |dc| == |scan.dcTbl| && j <= |mcu|
    requires n < 4 && McuEncodable(scan, ts, mcu, dc, j) && McuTally(scan, mcu, dc, j, isDC, n, s) > 0
    ensures HasCode(ts, isDC, n, s)
    decreases |mcu| - j
  {
    var ci := scan.membership[j];
    var ks := BlockTokens(mcu[j], dc[ci]);
    if McuTally(scan, mcu, dc[ci := mcu[j][0]], j + 1, isDC, n, s) > 0 {
      McuCountedHasCode(scan, ts, mcu, dc[ci := mcu[j][0]], j + 1, isDC, n, s);
    } else {
      var i := CountedToken(ks, isDC, s);
      assert ts.For(scan, ci).Has(ks[i]);
    }
  }

  /** Tables that let a scan be coded have codes for all symbols counted in it. */
  lemma {:induction false} CountedHasCode(scan: Scan, ts: TableSet, mcus: seq<Mcu>, dc: seq<int>, togo: nat, isDC: bool, n: nat, s: nat)
    requires ts.Shaped() && scan.Valid() && Mcus(scan, mcus) && |dc| == |scan.dcTbl|
    requires n < 4 && ScanEncodable(scan, ts, mcus, dc, togo) && ScanTally(scan, mcus, dc, togo, isDC, n, s) > 0
    ensures HasCode(ts, isDC, n, s)
    decreases |mcus|, if togo == 0 then 1 else 0
  {
    if RestartDue(scan, togo) {
      CountedHasCode(scan, ts, mcus, scan.Zeros(), scan.restartInterval, isDC, n, s);
    } else if McuTally(scan, mcus[0], dc, 0, isDC, n, s) > 0 {
      McuCountedHasCode(scan, ts, mcus[0], dc, 0, isDC, n, s);
    } else {
      CountedHasCode(scan, ts, mcus[1..], DcAfter(scan, mcus[0], dc, 0), TogoAfter(scan, togo), isDC, n, s);
    }
  }

  /** The codes of a table, with sixteen ones for the reserved symbol. */
  function WithOnes(d: Derived): (code: seq<BitString>)
    requires d.Shaped()
    ensures |code| == 257
  {
    seq(256, s requires 0 <= s < 256 => d.Code(s)) + [Ones(16)]
  }

  lemma WithOnesCost(d: Derived, given: seq<nat>)
    requires d.Shaped() && |given| == 257
    ensures Cost(WithReserved(given), Lengths(WithOnes(d))) == Cost(given[..256], d.ehufsi) + 16
  {
    var w, len := WithReserved(given), Lengths(WithOnes(d));
    CostLast(w, len, 256);
    assert w[..256] == given[..256] && len[..256] == d.ehufsi;
  }

  lemma OnesApart(t: HuffTable, d: Derived, isDC: bool, s: nat)
    requires t.Shaped() && Acceptable(t, isDC) && IsDerived(t, d) && d.Has(s)
    ensures !(d.Code(s) <= Ones(16)) && !(Ones(16) <= d.Code(s))
  {
    NeverAllOnes(t, d, isDC, s);
    if d.Code(s) <= Ones(16) || Ones(16) <= d.Code(s) { BesideOnes(d.Code(s), 16); }
  }

  lemma BesideOnes(x: BitString, n: nat)
    requires |x| <= n && (x <= Ones(n) || Ones(n) <= x)
    ensures x == Ones(|x|)
  {
  }

  lemma CodesApart(t: HuffTable, d: Derived, isDC: bool, i: nat, j: nat)
    requires t.Shaped() && Acceptable(t, isDC) && IsDerived(t, d) && i < 257 && j < 257 && i != j
    requires (i < 256 ==> d.Has(i)) && (j < 256 ==> d.Has(j))
    ensures !(WithOnes(d)[i] <= WithOnes(d)[j])
  {
    if i < 256 && j < 256 {
      PrefixFree(t, d, isDC, i, j);
    } else {
      OnesApart(t, d, isDC, if i < 256 then i else j);
    }
  }

  /** So the codes of a legal table are a prefix code with room for the reserved symbol. */
  lemma LegalIsPrefixCode(t: HuffTable, d: Derived, isDC: bool, given: seq<nat>)
    requires t.Shaped() && Acceptable(t, isDC) && IsDerived(t, d) && |given| == 257
    requires forall s: nat :: s < 256 && given[s] > 0 ==> d.Has(s)
    ensures PrefixCode(WithReserved(given), WithOnes(d))
  {
    var w := WithReserved(given);
    forall i: nat, j: nat | i < 257 && j < 257 && i != j && w[i] > 0 && w[j] > 0
      ensures !(WithOnes(d)[i] <= WithOnes(d)[j])
    {
      CodesApart(t, d, isDC, i, j);
    }
  }

  /** The tables of ts are those derived from legal tables. */
  ghost predicate Legal(ts: TableSet, tables: seq<HuffTable>, isDC: bool)
    requires ts.Shaped()
  {
    |tables| == 4 && forall n: nat {:trigger LegalAt(ts, tables, isDC, n)} :: n < 4 ==> LegalAt(ts, tables, isDC, n)
  }

  ghost predicate LegalAt(ts: TableSet, tables: seq<HuffTable>, isDC: bool, n: nat)
    requires ts.Shaped() && |tables| == 4 && n < 4
  {
    tables[n].Shaped() && Acceptable(tables[n], isDC) && IsDerived(tables[n], (if isDC then ts.dc else ts.ac)[n].codes)
  }

  /** No length had to be limited. */
  ghost predicate Unlimited(scan: Scan, mcus: seq<Mcu>)
    requires scan.Valid() && Mcus(scan, mcus)
  {
    forall isDC, c: nat :: c < |scan.dcTbl| ==> forall s :: 0 <= s < 257 ==> SizesOf(CountsOf(scan, mcus, isDC, c))[s] <= 16
  }

  /** One table: in use, it loses at most the reserved code's sixteen bits; not in use, it takes no bits. */
  lemma TableNoShorter(scan: Scan, mcus: seq<Mcu>, ts: TableSet, ts': TableSet, tables: seq<HuffTable>, isDC: bool, n: nat)
    requires scan.Valid() && Mcus(scan, mcus) && ts.Shaped() && ts'.Shaped() && n < 4
    requires AllEconomical(scan, mcus, ts) && Unlimited(scan, mcus) && Legal(ts', tables, isDC)
    requires ScanEncodable(scan, ts', mcus, scan.Zeros(), scan.restartInterval)
    ensures var counts, tbl := ScanCounts(scan, mcus, scan.Zeros(), scan.restartInterval, isDC, n), if isDC then scan.dcTbl else scan.acTbl;
            Cost(counts, CodeLengths(ts, isDC)[n]) <= Cost(counts, CodeLengths(ts', isDC)[n]) + if n in tbl then 16 else 0
  {
    var counts, tbl := ScanCounts(scan, mcus, scan.Zeros(), scan.restartInterval, isDC, n), if isDC then scan.dcTbl else scan.acTbl;
    if n in tbl {
      var c: nat :| c < |tbl| && tbl[c] == n;
      UsedNoShorter(scan, mcus, ts, ts', tables, isDC, c);
    } else {
      forall s: nat | s < 256 ensures counts[s] == 0 {
        if counts[s] > 0 { ScanTallyUsesTable(scan, mcus, scan.Zeros(), scan.restartInterval, isDC, n, s); }
      }
      CostOne(counts, CodeLengths(ts, isDC)[n], -1);
    }
  }

  lemma CountsAgree(scan: Scan, mcus: seq<Mcu>, isDC: bool, c: nat)
    requires scan.Valid() && Mcus(scan, mcus) && c < |scan.dcTbl|
    ensures CountsOf(scan, mcus, isDC, c)[..256]
            == ScanCounts(scan, mcus, scan.Zeros(), scan.restartInterval, isDC, if isDC then scan.dcTbl[c] else scan.acTbl[c])
  {
  }

  lemma CheapestInUse(scan: Scan, mcus: seq<Mcu>, ts: TableSet, isDC: bool, c: nat)
    requires scan.Valid() && Mcus(scan, mcus) && ts.Shaped() && c < |scan.dcTbl|
    requires AllEconomical(scan, mcus, ts) && Unlimited(scan, mcus)
    ensures Cheapest(if isDC then ts.dc[scan.dcTbl[c]].codes else ts.ac[scan.acTbl[c]].codes, CountsOf(scan, mcus, isDC, c))
  {
    var t := scan.dcTbl[c];
  }

  lemma UsedNoShorter(scan: Scan, mcus: seq<Mcu>, ts: TableSet, ts': TableSet, tables: seq<HuffTable>, isDC: bool, c: nat)
    requires scan.Valid() && Mcus(scan, mcus) && ts.Shaped() && ts'.Shaped() && c < |scan.dcTbl|
    requires AllEconomical(scan, mcus, ts) && Unlimited(scan, mcus) && Legal(ts', tables, isDC)
    requires ScanEncodable(scan, ts', mcus, scan.Zeros(), scan.restartInterval)
    ensures var n := if isDC then scan.dcTbl[c] else scan.acTbl[c];
            var counts := ScanCounts(scan, mcus, scan.Zeros(), scan.restartInterval, isDC, n);
            Cost(counts, CodeLengths(ts, isDC)[n]) <= Cost(counts, CodeLengths(ts', isDC)[n]) + 16
  {
    var n := if isDC then scan.dcTbl[c] else scan.acTbl[c];
    var given := CountsOf(scan, mcus, isDC, c);
    CountsAgree(scan, mcus, isDC, c);
    assert LegalAt(ts', tables, isDC, n);
    var d, d' := (if isDC then ts.dc else ts.ac)[n].codes, (if isDC then ts'.dc else ts'.ac)[n].codes;
    forall s: nat | s < 256 && given[s] > 0 ensures d'.Has(s) {
      CountedHasCode(scan, ts', mcus, scan.Zeros(), scan.restartInterval, isDC, n, s);
    }
    LegalIsPrefixCode(tables[n], d', isDC, given);
    WithOnesCost(d', given);
    CheapestInUse(scan, mcus, ts, isDC, c);
  }

  /** How many of the four tables of a class are in use. */
  function InUse(tbl: seq<nat>): nat
  {
    (if 0 in tbl then 1 else 0) + (if 1 in tbl then 1 else 0) + (if 2 in tbl then 1 else 0) + (if 3 in tbl then 1 else 0)
  }

  lemma ClassNoShorter(scan: Scan, mcus: seq<Mcu>, ts: TableSet, ts': TableSet, tables: seq<HuffTable>, isDC: bool)
    requires scan.Valid() && Mcus(scan, mcus) && ts.Shaped() && ts'.Shaped()
    requires AllEconomical(scan, mcus, ts) && Unlimited(scan, mcus) && Legal(ts', tables, isDC)
    requires ScanEncodable(scan, ts', mcus, scan.Zeros(), scan.restartInterval)
    ensures var counts := ScanClass(scan, mcus, scan.Zeros(), scan.restartInterval, isDC);
            ClassCost(counts, CodeLengths(ts, isDC))
            <= ClassCost(counts, CodeLengths(ts', isDC)) + 16 * InUse(if isDC then scan.dcTbl else scan.acTbl)
  {
    TableNoShorter(scan, mcus, ts, ts', tables, isDC, 0);
    TableNoShorter(scan, mcus, ts, ts', tables, isDC, 1);
    TableNoShorter(scan, mcus, ts, ts', tables, isDC, 2);
    TableNoShorter(scan, mcus, ts, ts', tables, isDC, 3);
  }

  /**
   What Huffman optimisation is for: unless a length had to be limited, no legal tables under which the scan can be
   coded at all make its data more than sixteen bits shorter for each table in use.
   */
  lemma NoTablesShorter(scan: Scan, mcus: seq<Mcu>, ts: TableSet, ts': TableSet, dcTables: seq<HuffTable>, acTables: seq<HuffTable>)
    requires scan.Valid() && Mcus(scan, mcus) && ts.Shaped() && ts'.Shaped()
    requires AllEconomical(scan, mcus, ts) && Unlimited(scan, mcus) && Legal(ts', dcTables, true) && Legal(ts', acTables, false)
    requires ScanEncodable(scan, ts', mcus, scan.Zeros(), scan.restartInterval)
    ensures DataBits(scan, ts, mcus, scan.Zeros(), scan.restartInterval)
            <= DataBits(scan, ts', mcus, scan.Zeros(), scan.restartInterval) + 16 * (InUse(scan.dcTbl) + InUse(scan.acTbl))
  {
    ScanTakes(scan, ts, mcus, scan.Zeros(), scan.restartInterval);
    ScanTakes(scan, ts', mcus, scan.Zeros(), scan.restartInterval);
    ClassNoShorter(scan, mcus, ts, ts', dcTables, true);
    ClassNoShorter(scan, mcus, ts, ts', acTables, false);
  }
}
