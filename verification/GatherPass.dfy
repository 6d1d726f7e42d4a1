/**
 The statistics pass (encode_mcu_gather, finish_pass_gather) and its agreement with the
 coding pass: the symbols counted are the symbols coded, so no code can be missing.
 */
module GatherPass {
  import opened Wrappers
  import opened Bits
  import opened BitWriter
  import opened DerivedTable
  import opened BlockCode
  import opened BlockCoder
  import opened ScanModel
  import opened HuffmanCost
  import opened OptimalTable
  import opened TableOrder

  // ---------------------------------------------------------------- what the coding pass emits

  /** How often the coding pass emits symbol s of table n for the blocks of an MCU from the j-th on. */
  function McuTally(scan: Scan, mcu: Mcu, dc: seq<int>, j: nat, isDC: bool, n: nat, s: nat): nat
    requires scan.Valid() && |mcu| == |scan.membership| && |dc| == |scan.dcTbl| && j <= |mcu|
    decreases |mcu| - j
  {
    if j == |mcu| then 0
    else
      var ci := scan.membership[j];
      (if (if isDC then scan.dcTbl[ci] else scan.acTbl[ci]) == n then Tally(BlockTokens(mcu[j], dc[ci]), isDC, s) else 0)
      + McuTally(scan, mcu, dc[ci := mcu[j][0]], j + 1, isDC, n, s)
  }

  function ScanTally(scan: Scan, mcus: seq<Mcu>, dc: seq<int>, togo: nat, isDC: bool, n: nat, s: nat): nat
    requires scan.Valid() && Mcus(scan, mcus) && |dc| == |scan.dcTbl|
    decreases |mcus|, if togo == 0 then 1 else 0
  {
    if mcus == [] then 0
    else if RestartDue(scan, togo) then ScanTally(scan, mcus, scan.Zeros(), scan.restartInterval, isDC, n, s)
    else McuTally(scan, mcus[0], dc, 0, isDC, n, s)
         + ScanTally(scan, mcus[1..], DcAfter(scan, mcus[0], dc, 0), TogoAfter(scan, togo), isDC, n, s)
  }

  predicate ScanInRange(scan: Scan, mcus: seq<Mcu>, dc: seq<int>, togo: nat)
    requires scan.Valid() && Mcus(scan, mcus) && |dc| == |scan.dcTbl|
    decreases |mcus|, if togo == 0 then 1 else 0
  {
    mcus == [] ||
    (if RestartDue(scan, togo) then ScanInRange(scan, mcus, scan.Zeros(), scan.restartInterval)
     else McuInRange(scan, mcus[0], dc, 0) &&
          ScanInRange(scan, mcus[1..], DcAfter(scan, mcus[0], dc, 0), TogoAfter(scan, togo)))
  }

  /** Table n of ts has a code for symbol s. */
  predicate HasCode(ts: TableSet, isDC: bool, n: nat, s: nat)
    requires ts.Shaped() && n < 4
  {
    (if isDC then ts.dc[n] else ts.ac[n]).codes.Has(s)
  }

  lemma {:induction false} TokenCounted(ks: seq<Token>, i: nat)
    requires i < |ks|
    ensures Tally(ks, ks[i].isDC, ks[i].symbol) >= 1
  {
    if i > 0 { TokenCounted(ks[1..], i - 1); }
  }

  lemma {:induction false} McuEncodableIfCounted(scan: Scan, ts: TableSet, mcu: Mcu, dc: seq<int>, j: nat)
    requires ts.Shaped() && scan.Valid() && |mcu| == |scan.membership| && |dc| == |scan.dcTbl| && j <= |mcu|
    requires McuInRange(scan, mcu, dc, j)
    requires forall isDC, n: nat, s :: n < 4 && McuTally(scan, mcu, dc, j, isDC, n, s) > 0 ==> HasCode(ts, isDC, n, s)
    ensures McuEncodable(scan, ts, mcu, dc, j)
    decreases |mcu| - j
  {
    if j < |mcu| {
      var ci := scan.membership[j];
      var ks := BlockTokens(mcu[j], dc[ci]);
      forall i | 0 <= i < |ks|
        ensures ts.For(scan, ci).Has(ks[i])
      {
        TokenCounted(ks, i);
        var n := if ks[i].isDC then scan.dcTbl[ci] else scan.acTbl[ci];
        assert McuTally(scan, mcu, dc, j, ks[i].isDC, n, ks[i].symbol) > 0;
        assert HasCode(ts, ks[i].isDC, n, ks[i].symbol);
      }
      McuEncodableIfCounted(scan, ts, mcu, dc[ci := mcu[j][0]], j + 1);
    }
  }

  /** If every symbol the coding pass will emit has a code, no MCU of the scan meets a missing code. */
  lemma {:induction false} EncodableIfCounted(scan: Scan, ts: TableSet, mcus: seq<Mcu>, dc: seq<int>, togo: nat)
    requires ts.Shaped() && scan.Valid() && Mcus(scan, mcus) && |dc| == |scan.dcTbl|
    requires ScanInRange(scan, mcus, dc, togo)
    requires forall isDC, n: nat, s :: n < 4 && ScanTally(scan, mcus, dc, togo, isDC, n, s) > 0 ==> HasCode(ts, isDC, n, s)
    ensures ScanEncodable(scan, ts, mcus, dc, togo)
    decreases |mcus|, if togo == 0 then 1 else 0
  {
    if mcus == [] {
    } else if RestartDue(scan, togo) {
      forall isDC, n: nat, s | n < 4 && ScanTally(scan, mcus, scan.Zeros(), scan.restartInterval, isDC, n, s) > 0
        ensures HasCode(ts, isDC, n, s)
      {
        assert ScanTally(scan, mcus, dc, togo, isDC, n, s) > 0;
      }
      EncodableIfCounted(scan, ts, mcus, scan.Zeros(), scan.restartInterval);
    } else {
      var dc', togo' := DcAfter(scan, mcus[0], dc, 0), TogoAfter(scan, togo);
      forall isDC, n: nat, s | n < 4 && McuTally(scan, mcus[0], dc, 0, isDC, n, s) > 0
        ensures HasCode(ts, isDC, n, s)
      {
        assert ScanTally(scan, mcus, dc, togo, isDC, n, s) > 0;
      }
      McuEncodableIfCounted(scan, ts, mcus[0], dc, 0);
      forall isDC, n: nat, s | n < 4 && ScanTally(scan, mcus[1..], dc', togo', isDC, n, s) > 0
        ensures HasCode(ts, isDC, n, s)
      {
        assert ScanTally(scan, mcus, dc, togo, isDC, n, s) > 0;
      }
      EncodableIfCounted(scan, ts, mcus[1..], dc', togo');
    }
  }

  // ---------------------------------------------------------------- only legal symbols are counted

  /** Symbols the encoder can produce: DC sizes up to 11; AC run and size nibbles, or the two special codes. */
  predicate PossibleSymbol(isDC: bool, s: nat)
  {
    if isDC then s <= MAX_COEF_BITS + 1
    else s == 0 || s == 0xF0 || (s < 256 && 1 <= s % 16 <= MAX_COEF_BITS)
  }

  lemma RunSizePossible(run: nat, n: nat)
    requires run < 16 && 1 <= n <= MAX_COEF_BITS
    ensures PossibleSymbol(false, run * 16 + n)
  {
  }

  lemma {:induction false} AcPossible(z: Block, k: nat, r: nat, s: nat)
    requires 1 <= k <= 64 && AcInRange(z, k) && Tally(AcTokens(z, k, r), false, s) > 0
    ensures PossibleSymbol(false, s)
    decreases |z| - k
  {
    if k < 64 {
      if z[k] == 0 {
        AcPossible(z, k + 1, r + 1, s);
      } else {
        TallyCoefficient(z, k, r, s);
        NBitsBounds(Abs(z[k]));
        RunSizePossible(r % 16, NBits(Abs(z[k])));
        if s != 0xF0 && s != r % 16 * 16 + NBits(Abs(z[k])) { AcPossible(z, k + 1, 0, s); }
      }
    } else if r > 0 {
      assert [EOB][1..] == [];
    }
  }

  lemma BlockPossible(b: Block, lastDc: int, isDC: bool, s: nat)
    requires InRange(b, lastDc) && Tally(BlockTokens(b, lastDc), isDC, s) > 0
    ensures PossibleSymbol(isDC, s)
  {
    TallyBlock(b, lastDc, s);
    if !isDC { AcPossible(ToZigzag(b), 1, 0, s); }
  }

  lemma {:induction false} McuPossible(scan: Scan, mcu: Mcu, dc: seq<int>, j: nat, isDC: bool, n: nat, s: nat)
    requires scan.Valid() && |mcu| == |scan.membership| && |dc| == |scan.dcTbl| && j <= |mcu|
    requires McuInRange(scan, mcu, dc, j) && McuTally(scan, mcu, dc, j, isDC, n, s) > 0
    ensures PossibleSymbol(isDC, s)
    decreases |mcu| - j
  {
    var ci := scan.membership[j];
    var dc' := dc[ci := mcu[j][0]];
    if McuTally(scan, mcu, dc', j + 1, isDC, n, s) > 0 {
      McuPossible(scan, mcu, dc', j + 1, isDC, n, s);
    } else {
      BlockPossible(mcu[j], dc[ci], isDC, s);
    }
  }

  lemma {:induction false} ScanPossible(scan: Scan, mcus: seq<Mcu>, dc: seq<int>, togo: nat, isDC: bool, n: nat, s: nat)
    requires scan.Valid() && Mcus(scan, mcus) && |dc| == |scan.dcTbl|
    requires ScanInRange(scan, mcus, dc, togo) && ScanTally(scan, mcus, dc, togo, isDC, n, s) > 0
    ensures PossibleSymbol(isDC, s)
    decreases |mcus|, if togo == 0 then 1 else 0
  {
    if RestartDue(scan, togo) {
      ScanPossible(scan, mcus, scan.Zeros(), scan.restartInterval, isDC, n, s);
    } else if McuTally(scan, mcus[0], dc, 0, isDC, n, s) > 0 {
      McuPossible(scan, mcus[0], dc, 0, isDC, n, s);
    } else {
      ScanPossible(scan, mcus[1..], DcAfter(scan, mcus[0], dc, 0), TogoAfter(scan, togo), isDC, n, s);
    }
  }

  // ---------------------------------------------------------------- encode_mcu_gather

  /** Four count arrays, all zero. */
  method NewCounts() returns (counts: seq<array<nat>>)
    ensures |counts| == 4 && fresh(counts) && forall n :: 0 <= n < 4 ==> counts[n].Length == 257
    ensures forall n, s :: 0 <= n < 4 && 0 <= s < 257 ==> counts[n][s] == 0
    ensures forall n, m :: 0 <= n < m < 4 ==> counts[n] != counts[m]
  {
    counts := [];
    for k := 0 to 4
      invariant |counts| == k && fresh(counts) && forall n :: 0 <= n < k ==> counts[n].Length == 257
      invariant forall n, s :: 0 <= n < k && 0 <= s < 257 ==> counts[n][s] == 0
      invariant forall n, m :: 0 <= n < m < k ==> counts[n] != counts[m]
    {
      var a := new nat[257](_ => 0);
      counts := counts + [a];
    }
  }

  class Gatherer {
    const scan: Scan
    const dcCounts: seq<array<nat>>
    const acCounts: seq<array<nat>>
    var lastDc: seq<int>
    var restartsToGo: nat

    ghost predicate Valid()
      reads this
    {
      scan.Valid() && |lastDc| == |scan.dcTbl| && |dcCounts| == |acCounts| == 4 &&
      (forall n :: 0 <= n < 4 ==> dcCounts[n].Length == acCounts[n].Length == 257) &&
      (forall n: nat, m: nat {:trigger Separate(n, m)} :: n < 4 && m < 4 ==> Separate(n, m))
    }

    /** No two tables share a count array. */
    ghost predicate Separate(n: nat, m: nat)
      requires |dcCounts| == |acCounts| == 4 && n < 4 && m < 4
    {
      dcCounts[n] != acCounts[m] && (n != m ==> dcCounts[n] != dcCounts[m] && acCounts[n] != acCounts[m])
    }

    /** The count of symbol s in table n. */
    ghost function CountOf(isDC: bool, n: nat, s: nat): nat
      requires Valid() && n < 4 && s < 257
      reads this, dcCounts, acCounts
    {
      if isDC then dcCounts[n][s] else acCounts[n][s]
    }

    constructor (scan: Scan)
      requires scan.Valid()
      ensures this.scan == scan && Valid() && fresh(dcCounts) && fresh(acCounts)
      ensures lastDc == scan.Zeros() && restartsToGo == scan.restartInterval
      ensures forall isDC, n: nat, s: nat :: n < 4 && s < 257 ==> CountOf(isDC, n, s) == 0
    {
      this.scan := scan;
      var dc := NewCounts();
      var ac := NewCounts();
      dcCounts := dc;
      acCounts := ac;
      lastDc := scan.Zeros();
      restartsToGo := scan.restartInterval;
    }

    /** One block of an MCU. */
    method GatherBlock(mcu: Mcu, blkn: nat) returns (r: Outcome)
      requires Valid() && |mcu| == |scan.membership| && blkn < |mcu|
      modifies this`lastDc, dcCounts, acCounts
      ensures Valid()
      ensures r == if InRange(mcu[blkn], old(lastDc)[scan.membership[blkn]]) then Done else Failed(BadDctCoef)
      ensures r.Done? ==> lastDc == old(lastDc)[scan.membership[blkn] := mcu[blkn][0]]
      ensures r.Done? ==> forall isDC, n: nat, s: nat :: n < 4 && s < 257 ==>
                CountOf(isDC, n, s) + McuTally(scan, mcu, lastDc, blkn + 1, isDC, n, s)
                == old(CountOf(isDC, n, s)) + McuTally(scan, mcu, old(lastDc), blkn, isDC, n, s)
    {
      var ci := scan.membership[blkn];
      var d, a := dcCounts[scan.dcTbl[ci]], acCounts[scan.acTbl[ci]];
      ghost var dc := lastDc;
      assert d in dcCounts && a in acCounts && Separate(scan.dcTbl[ci], scan.acTbl[ci]);
      r := HtestOneBlock(mcu[blkn], lastDc[ci], d, a);
      if r.Done? {
        lastDc := lastDc[ci := mcu[blkn][0]];
        forall isDC, n: nat, s: nat | n < 4 && s < 257
          ensures CountOf(isDC, n, s) + McuTally(scan, mcu, lastDc, blkn + 1, isDC, n, s)
                  == old(CountOf(isDC, n, s)) + McuTally(scan, mcu, dc, blkn, isDC, n, s)
        {
          assert Separate(scan.dcTbl[ci], n) && Separate(n, scan.acTbl[ci]);
          assert d[..][s] == d[s] && a[..][s] == a[s];
          assert old(d[..])[s] == old(d[s]) && old(a[..])[s] == old(a[s]);
        }
      }
    }

    /** Trial-encode one MCU. */
    method EncodeMcu(mcu: Mcu) returns (r: Outcome)
      requires Valid() && |mcu| == |scan.membership|
      modifies this, dcCounts, acCounts
      ensures Valid()
      ensures var dc := if RestartDue(scan, old(restartsToGo)) then scan.Zeros() else old(lastDc);
              && (r == if McuInRange(scan, mcu, dc, 0) then Done else Failed(BadDctCoef))
              && (r.Done? ==> lastDc == DcAfter(scan, mcu, dc, 0))
              && (r.Done? ==> forall isDC, n: nat, s: nat :: n < 4 && s < 257 ==>
                    CountOf(isDC, n, s) == old(CountOf(isDC, n, s)) + McuTally(scan, mcu, dc, 0, isDC, n, s))
      ensures restartsToGo == TogoAfter(scan, if RestartDue(scan, old(restartsToGo)) then scan.restartInterval else old(restartsToGo))
    {
      if scan.restartInterval != 0 {
        if restartsToGo == 0 {
          lastDc := scan.Zeros();
          restartsToGo := scan.restartInterval;
        }
        restartsToGo := restartsToGo - 1;
      }
      ghost var dc := lastDc;
      r := Done;
      var blkn := 0;
      while blkn < |scan.membership|
        invariant blkn <= |mcu| && r == Done && Valid()
        invariant restartsToGo == TogoAfter(scan, if RestartDue(scan, old(restartsToGo)) then scan.restartInterval else old(restartsToGo))
        invariant McuInRange(scan, mcu, dc, 0) <==> McuInRange(scan, mcu, lastDc, blkn)
        invariant DcAfter(scan, mcu, dc, 0) == DcAfter(scan, mcu, lastDc, blkn)
        invariant forall isDC, n: nat, s: nat :: n < 4 && s < 257 ==>
                    CountOf(isDC, n, s) + McuTally(scan, mcu, lastDc, blkn, isDC, n, s)
                    == old(CountOf(isDC, n, s)) + McuTally(scan, mcu, dc, 0, isDC, n, s)
      {
        r := GatherBlock(mcu, blkn);
        if !r.Done? {
          return;
        }
        blkn := blkn + 1;
      }
    }
  }

  /** With rest still to come, one count will be that of all. */
  ghost predicate CountingAt(g: Gatherer, all: seq<Mcu>, rest: seq<Mcu>, isDC: bool, n: nat, s: nat)
    requires g.Valid() && Mcus(g.scan, all) && Mcus(g.scan, rest) && n < 4 && s < 257
    reads g, g.dcCounts, g.acCounts
  {
    g.CountOf(isDC, n, s) + ScanTally(g.scan, rest, g.lastDc, g.restartsToGo, isDC, n, s)
    == ScanTally(g.scan, all, g.scan.Zeros(), g.scan.restartInterval, isDC, n, s)
  }

  /** With rest still to come, the counts will be those of all. */
  ghost predicate Counting(g: Gatherer, all: seq<Mcu>, rest: seq<Mcu>)
    reads g, g.dcCounts, g.acCounts
  {
    g.Valid() && Mcus(g.scan, all) && Mcus(g.scan, rest) &&
    var dc, togo := g.scan.Zeros(), g.scan.restartInterval;
    (ScanInRange(g.scan, all, dc, togo) <==> ScanInRange(g.scan, rest, g.lastDc, g.restartsToGo)) &&
    forall isDC, n: nat, s: nat {:trigger CountingAt(g, all, rest, isDC, n, s)} :: n < 4 && s < 257 ==> CountingAt(g, all, rest, isDC, n, s)
  }

  /** The counts are the number of times the coding pass emits each symbol. */
  ghost predicate CountedAll(g: Gatherer, all: seq<Mcu>)
    reads g, g.dcCounts, g.acCounts
  {
    g.Valid() && Mcus(g.scan, all) && forall isDC, n: nat, s: nat :: n < 4 && s < 257 ==>
      g.CountOf(isDC, n, s) == ScanTally(g.scan, all, g.scan.Zeros(), g.scan.restartInterval, isDC, n, s)
  }

  /** Predictions and counter at the next MCU, after the restart due before it, if any. */
  function DcNow(scan: Scan, dc: seq<int>, togo: nat): (r: seq<int>)
    requires |dc| == |scan.dcTbl|
    ensures |r| == |scan.dcTbl|
  {
    if RestartDue(scan, togo) then scan.Zeros() else dc
  }

  function TogoNow(scan: Scan, togo: nat): (r: nat)
    ensures !RestartDue(scan, r)
  {
    if RestartDue(scan, togo) then scan.restartInterval else togo
  }

  lemma RangeNext(scan: Scan, rest: seq<Mcu>, dc: seq<int>, togo: nat)
    requires scan.Valid() && Mcus(scan, rest) && rest != [] && |dc| == |scan.dcTbl|
    ensures var dc' := DcNow(scan, dc, togo);
            ScanInRange(scan, rest, dc, togo) <==>
            McuInRange(scan, rest[0], dc', 0) && ScanInRange(scan, rest[1..], DcAfter(scan, rest[0], dc', 0), TogoAfter(scan, TogoNow(scan, togo)))
  {
    if RestartDue(scan, togo) {
      assert ScanInRange(scan, rest, dc, togo) == ScanInRange(scan, rest, scan.Zeros(), scan.restartInterval);
    }
  }

  lemma TallyNext(scan: Scan, rest: seq<Mcu>, dc: seq<int>, togo: nat, isDC: bool, n: nat, s: nat)
    requires scan.Valid() && Mcus(scan, rest) && rest != [] && |dc| == |scan.dcTbl|
    ensures var dc' := DcNow(scan, dc, togo);
            ScanTally(scan, rest, dc, togo, isDC, n, s) ==
            McuTally(scan, rest[0], dc', 0, isDC, n, s)
            + ScanTally(scan, rest[1..], DcAfter(scan, rest[0], dc', 0), TogoAfter(scan, TogoNow(scan, togo)), isDC, n, s)
  {
    if RestartDue(scan, togo) {
      assert ScanTally(scan, rest, dc, togo, isDC, n, s) == ScanTally(scan, rest, scan.Zeros(), scan.restartInterval, isDC, n, s);
    }
  }

  /** The next MCU of a statistics pass. */
  method GatherNext(g: Gatherer, mcu: Mcu, ghost all: seq<Mcu>, ghost rest: seq<Mcu>) returns (r: Outcome)
    requires Counting(g, all, rest) && rest != [] && rest[0] == mcu
    modifies g, g.dcCounts, g.acCounts
    ensures g.Valid() && (r.Done? ==> Counting(g, all, rest[1..]))
    ensures !r.Done? ==> r == Failed(BadDctCoef) && !ScanInRange(g.scan, all, g.scan.Zeros(), g.scan.restartInterval)
  {
    ghost var scan, dc, togo := g.scan, g.lastDc, g.restartsToGo;
    RangeNext(scan, rest, dc, togo);
    r := g.EncodeMcu(mcu);
    if r.Done? {
      forall isDC, n: nat, s: nat | n < 4 && s < 257
        ensures CountingAt(g, all, rest[1..], isDC, n, s)
      {
        assert old(CountingAt(g, all, rest, isDC, n, s));
        TallyNext(scan, rest, dc, togo, isDC, n, s);
      }
    }
  }

  lemma StartsCounting(g: Gatherer, all: seq<Mcu>)
    requires g.Valid() && Mcus(g.scan, all) && g.lastDc == g.scan.Zeros() && g.restartsToGo == g.scan.restartInterval
    requires forall isDC, n: nat, s: nat :: n < 4 && s < 257 ==> g.CountOf(isDC, n, s) == 0
    ensures Counting(g, all, all)
  {
    forall isDC, n: nat, s: nat | n < 4 && s < 257 ensures CountingAt(g, all, all, isDC, n, s) {}
  }

  lemma EndsCounting(g: Gatherer, all: seq<Mcu>)
    requires Counting(g, all, [])
    ensures CountedAll(g, all) && ScanInRange(g.scan, all, g.scan.Zeros(), g.scan.restartInterval)
  {
    forall isDC, n: nat, s: nat | n < 4 && s < 257
      ensures g.CountOf(isDC, n, s) == ScanTally(g.scan, all, g.scan.Zeros(), g.scan.restartInterval, isDC, n, s)
    {
      assert CountingAt(g, all, [], isDC, n, s);
    }
  }

  /** A whole statistics pass counts exactly what the coding pass will emit. */
  method Gather(scan: Scan, mcus: seq<Mcu>) returns (r: Outcome, g: Gatherer)
    requires scan.Valid() && Mcus(scan, mcus)
    ensures r == if ScanInRange(scan, mcus, scan.Zeros(), scan.restartInterval) then Done else Failed(BadDctCoef)
    ensures fresh(g) && fresh(g.dcCounts) && fresh(g.acCounts) && g.Valid() && g.scan == scan && (r.Done? ==> CountedAll(g, mcus))
  {
    g := new Gatherer(scan);
    r := Done;
    assert mcus[0..] == mcus;
    StartsCounting(g, mcus);
    for i := 0 to |mcus|
      invariant r == Done && g.scan == scan && fresh(g) && fresh(g.dcCounts) && fresh(g.acCounts) && Counting(g, mcus, mcus[i..])
    {
      assert mcus[i..][1..] == mcus[i + 1..];
      r := GatherNext(g, mcus[i], mcus, mcus[i..]);
      if !r.Done? {
        return;
      }
    }
    EndsCounting(g, mcus);
  }

  // ---------------------------------------------------------------- finish_pass_gather and start_pass_huff

  lemma {:induction false} UsedWithGaps(w: seq<nat>, i: nat, j: nat)
    requires i < j < |w| && w[i] == 0 && w[j] == 0
    ensures CountUsed(w) <= |w| - 2
  {
    if i == 0 { UsedWithGap(w[1..], j - 1); } else { UsedWithGaps(w[1..], i - 1, j - 1); }
  }

  lemma {:induction false} UsedWithGap(w: seq<nat>, j: nat)
    requires j < |w| && w[j] == 0
    ensures CountUsed(w) <= |w| - 1
  {
    if j == 0 { UsedAtMostLength(w[1..]); } else { UsedWithGap(w[1..], j - 1); }
  }

  lemma {:induction false} UsedSome(w: seq<nat>, i: nat)
    requires i < |w| && w[i] > 0
    ensures CountUsed(w) >= 1
  {
    if i > 0 { UsedSome(w[1..], i - 1); }
  }

  /** Counts a statistics pass can leave in a table: some symbol, and only possible ones; none of them too frequent to be merged. */
  ghost predicate Plausible(isDC: bool, counts: seq<nat>)
  {
    |counts| == 257 && (exists s: nat :: s < 256 && counts[s] > 0) &&
    (forall s: nat :: s < 257 && counts[s] > 0 ==> PossibleSymbol(isDC, s)) &&
    OneTree(WithReserved(counts))
  }

  lemma PlausibleFits(isDC: bool, counts: seq<nat>)
    requires Plausible(isDC, counts)
    ensures 1 <= CountUsed(counts[..256]) <= 254
    ensures isDC ==> forall s :: 16 <= s < 256 ==> counts[s] == 0
  {
    var w := counts[..256];
    var s: nat :| s < 256 && counts[s] > 0;
    UsedSome(w, s);
    assert !PossibleSymbol(isDC, 0x0E) && !PossibleSymbol(isDC, 0x0F);
    assert w[0x0E] == 0 && w[0x0F] == 0;
    UsedWithGaps(w, 0x0E, 0x0F);
  }

  /** A usable table for the counted symbols: with a code for each of them, short ones where they are needed. */
  ghost predicate Serves(c: Coder, counts: seq<nat>)
  {
    c.codes.Shaped() && |counts| == 257 && (forall s: nat :: s < 256 && counts[s] > 0 ==> c.codes.Has(s)) &&
    Economical(c.codes, counts)
  }

  ghost predicate Reads(c: Coder)
  {
    c.codes.Shaped() && forall s: nat, rest: BitString :: ReadsOne(c, s, rest)
  }

  ghost predicate ReadsOne(c: Coder, s: nat, rest: BitString)
    requires c.codes.Shaped()
  {
    c.codes.Has(s) ==> c.read(c.codes.Code(s) + rest) == Some((s, rest))
  }

  lemma CoversServes(t: HuffTable, d: Derived, isDC: bool, counts: seq<nat>)
    requires t.Shaped() && Acceptable(t, isDC) && IsDerived(t, d) && |counts| == 257 && TableOf(t, counts, SizesOf(counts))
    ensures Serves(Coder(d, DecodeWith(t)), counts) && Reads(Coder(d, DecodeWith(t)))
  {
    var c := Coder(d, DecodeWith(t));
    TableEconomical(t, counts, d);
    forall s: nat | s < 256 && counts[s] > 0
      ensures d.Has(s)
    {
      var q :| 0 <= q < Count(t.bits, 16) && t.huffval[q] == s;
    }
    forall s: nat, rest: BitString
      ensures ReadsOne(c, s, rest)
    {
      if d.Has(s) { DecodeCode(t, d, isDC, s, rest); }
    }
  }

  /** Generate one table from its counts, and derive its codes. */
  method BuildTable(freq: array<nat>, isDC: bool) returns (r: Result<Coder>)
    requires Plausible(isDC, freq[..]) && freq.Length == 257
    modifies freq
    ensures r == Err(CodeLengthOverflow) <==> Overlong(old(freq[..]))
    ensures r.Err? ==> r.error == CodeLengthOverflow
    ensures r.Ok? ==> Serves(r.value, old(freq[..])) && Reads(r.value)
  {
    ghost var counts := freq[..];
    PlausibleFits(isDC, counts);
    FewSymbols(counts);
    var res := GenOptimalTable(freq);
    match res {
      case TooLong =>
        return Err(CodeLengthOverflow);
      case Lost =>
        assert false;
      case Table(table) =>
        var d := MakeDerived(table, isDC);
        if d.Err? {
          assert false;
        } else {
          CoversServes(table, d.value, isDC, counts);
          r := Ok(Coder(d.value, DecodeWith(table)));
        }
    }
  }

  const NO_CODES := Derived(seq(256, _ => 0), seq(256, _ => 0))

  /** A table slot no component uses. */
  const UNUSED := Coder(NO_CODES, (s: BitString) => None)

  /** The tables of the components in a scan, each generated once from its counts. */
  method BuildTables(tblNo: seq<nat>, counts: seq<array<nat>>, isDC: bool) returns (r: Result<seq<Coder>>)
    requires |counts| == 4 && forall n :: 0 <= n < 4 ==> counts[n].Length == 257
    requires forall n, m :: 0 <= n < m < 4 ==> counts[n] != counts[m]
    requires forall c :: 0 <= c < |tblNo| ==> tblNo[c] < 4 && Plausible(isDC, counts[tblNo[c]][..])
    modifies counts
    ensures r.Err? ==> r.error == CodeLengthOverflow
    ensures r.Err? <==> exists c :: 0 <= c < |tblNo| && Overlong(old(counts[tblNo[c]][..]))
    ensures r.Ok? ==> |r.value| == 4 && (forall n :: 0 <= n < 4 ==> r.value[n].codes.Shaped())
    ensures r.Ok? ==> forall c :: 0 <= c < |tblNo| ==>
              Serves(r.value[tblNo[c]], old(counts[tblNo[c]][..])) && Reads(r.value[tblNo[c]])
  {
    var tables := [UNUSED, UNUSED, UNUSED, UNUSED];
    var did := [false, false, false, false];
    for c := 0 to |tblNo|
      invariant |tables| == |did| == 4
      invariant forall n :: 0 <= n < 4 ==> tables[n].codes.Shaped()
      invariant forall n :: 0 <= n < 4 ==> if did[n] then Serves(tables[n], old(counts[n][..])) && Reads(tables[n]) && !Overlong(old(counts[n][..]))
                                           else counts[n][..] == old(counts[n][..])
      invariant forall k :: 0 <= k < c ==> did[tblNo[k]]
    {
      var n := tblNo[c];
      if !did[n] {
        assert counts[n] in counts;
        var t := BuildTable(counts[n], isDC);
        if t.Err? {
          return Err(t.error);
        }
        tables, did := tables[n := t.value], did[n := true];
      }
    }
    r := Ok(tables);
  }
}
