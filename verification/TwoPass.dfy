/**
 Huffman optimisation end to end: gather statistics over the MCUs of a scan, generate the
 tables, and code the same MCUs with them.
 */
module TwoPass {
  import opened Wrappers
  import opened Bits
  import opened BitWriter
  import opened DerivedTable
  import opened BlockCode
  import opened BlockCoder
  import opened ScanModel
  import opened HuffmanCost
  import opened MergeTree
  import opened OptimalTable
  import opened TableOrder
  import opened GatherPass
  import opened CountBound

  /** The counts of table n after a statistics pass; entry 256 is never counted. */
  function TableCounts(scan: Scan, mcus: seq<Mcu>, isDC: bool, n: nat): (r: seq<nat>)
    requires scan.Valid() && Mcus(scan, mcus)
    ensures |r| == 257
  {
    seq(257, s requires 0 <= s < 257 => ScanTally(scan, mcus, scan.Zeros(), scan.restartInterval, isDC, n, s))
  }

  /** The counts of the table that component c uses. */
  function CountsOf(scan: Scan, mcus: seq<Mcu>, isDC: bool, c: nat): (r: seq<nat>)
    requires scan.Valid() && Mcus(scan, mcus) && c < |scan.dcTbl|
    ensures |r| == 257
  {
    TableCounts(scan, mcus, isDC, if isDC then scan.dcTbl[c] else scan.acTbl[c])
  }

  /** Every component has a block in each MCU, and its symbols merge into one tree. */
  ghost predicate Countable(scan: Scan, mcus: seq<Mcu>)
    requires scan.Valid() && Mcus(scan, mcus)
  {
    mcus != [] &&
    (forall c :: 0 <= c < |scan.dcTbl| ==> c in scan.membership) &&
    forall isDC, c: nat :: c < |scan.dcTbl| ==> OneTree(WithReserved(CountsOf(scan, mcus, isDC, c)))
  }

  lemma {:induction false} AcTokensExist(z: Block, k: nat, r: nat)
    requires k <= 64 && (k < 64 || r > 0)
    ensures AcTokens(z, k, r) != [] && !AcTokens(z, k, r)[0].isDC
    decreases |z| - k
  {
    if k < 64 && z[k] == 0 {
      AcTokensExist(z, k + 1, r + 1);
    } else if k < 64 {
      var head := ZeroRuns(r / 16) + [AcToken(r % 16, z[k])];
      assert AcTokens(z, k, r)[0] == head[0];
    }
  }

  /** A block always uses one symbol of each class. */
  lemma BlockUses(b: Block, lastDc: int, isDC: bool) returns (s: nat)
    ensures Tally(BlockTokens(b, lastDc), isDC, s) >= 1
  {
    var dc, ac := DcToken(b[0] - lastDc), AcTokens(ToZigzag(b), 1, 0);
    var ks := BlockTokens(b, lastDc);
    AcTokensExist(ToZigzag(b), 1, 0);
    assert ks[0] == dc && ks[1] == ac[0];
    if isDC {
      s := ks[0].symbol;
      TokenCounted(ks, 0);
    } else {
      s := ks[1].symbol;
      TokenCounted(ks, 1);
    }
  }

  lemma {:induction false} McuUses(scan: Scan, mcu: Mcu, dc: seq<int>, j: nat, k: nat, isDC: bool) returns (s: nat)
    requires scan.Valid() && |mcu| == |scan.membership| && |dc| == |scan.dcTbl| && j <= k < |mcu|
    ensures var c := scan.membership[k];
            McuTally(scan, mcu, dc, j, isDC, if isDC then scan.dcTbl[c] else scan.acTbl[c], s) >= 1
    decreases |mcu| - j
  {
    if j == k {
      s := BlockUses(mcu[j], dc[scan.membership[j]], isDC);
    } else {
      s := McuUses(scan, mcu, dc[scan.membership[j] := mcu[j][0]], j + 1, k, isDC);
    }
  }

  /** So does the table of every component of a scan. */
  lemma ScanUses(scan: Scan, mcus: seq<Mcu>, c: nat, isDC: bool) returns (s: nat)
    requires scan.Valid() && Mcus(scan, mcus) && mcus != [] && c < |scan.dcTbl| && c in scan.membership
    ensures ScanTally(scan, mcus, scan.Zeros(), scan.restartInterval, isDC, if isDC then scan.dcTbl[c] else scan.acTbl[c], s) >= 1
  {
    var k :| 0 <= k < |scan.membership| && scan.membership[k] == c;
    s := McuUses(scan, mcus[0], scan.Zeros(), 0, k, isDC);
  }

  lemma CountsPlausible(scan: Scan, mcus: seq<Mcu>, c: nat, isDC: bool)
    requires scan.Valid() && Mcus(scan, mcus) && Countable(scan, mcus) && c < |scan.dcTbl|
    requires ScanInRange(scan, mcus, scan.Zeros(), scan.restartInterval)
    ensures Plausible(isDC, CountsOf(scan, mcus, isDC, c))
  {
    var n := if isDC then scan.dcTbl[c] else scan.acTbl[c];
    var counts := TableCounts(scan, mcus, isDC, n);
    var s := ScanUses(scan, mcus, c, isDC);
    ScanPossible(scan, mcus, scan.Zeros(), scan.restartInterval, isDC, n, s);
    assert counts[s] > 0;
    forall s': nat | s' < 257 && counts[s'] > 0
      ensures PossibleSymbol(isDC, s')
    {
      ScanPossible(scan, mcus, scan.Zeros(), scan.restartInterval, isDC, n, s');
    }
  }

  /** What the two passes promise each other, table by table. */
  ghost predicate Agreed(scan: Scan, mcus: seq<Mcu>, tables: seq<Coder>, isDC: bool)
    requires scan.Valid() && Mcus(scan, mcus)
  {
    |tables| == 4 && (forall n :: 0 <= n < 4 ==> tables[n].codes.Shaped()) &&
    forall c :: 0 <= c < |scan.dcTbl| ==>
      var n := if isDC then scan.dcTbl[c] else scan.acTbl[c];
      Serves(tables[n], CountsOf(scan, mcus, isDC, c)) && Reads(tables[n])
  }

  /** The tables of a scan take as few code bits for its symbols as they can. */
  ghost predicate AllEconomical(scan: Scan, mcus: seq<Mcu>, ts: TableSet)
    requires scan.Valid() && Mcus(scan, mcus) && ts.Shaped()
  {
    forall c: nat {:trigger scan.dcTbl[c]} :: c < |scan.dcTbl| ==>
      Economical(ts.dc[scan.dcTbl[c]].codes, CountsOf(scan, mcus, true, c)) && Economical(ts.ac[scan.acTbl[c]].codes, CountsOf(scan, mcus, false, c))
  }

  lemma AgreedReadable(scan: Scan, mcus: seq<Mcu>, ts: TableSet)
    requires scan.Valid() && Mcus(scan, mcus)
    requires Agreed(scan, mcus, ts.dc, true) && Agreed(scan, mcus, ts.ac, false)
    ensures ts.Shaped() && ts.Readable(scan) && AllEconomical(scan, mcus, ts)
  {
    forall ci | 0 <= ci < |scan.dcTbl|
      ensures ts.For(scan, ci).Readable()
    {
      var t := ts.For(scan, ci);
      forall isDC: bool, n: nat, rest: BitString
        ensures t.Finds(isDC, n, rest)
      {
        assert ReadsOne(ts.dc[scan.dcTbl[ci]], n, rest);
        assert ReadsOne(ts.ac[scan.acTbl[ci]], n, rest);
      }
    }
  }

  /** Tables outside the scan are never counted. */
  lemma {:induction false} McuTallyUsesTable(scan: Scan, mcu: Mcu, dc: seq<int>, j: nat, isDC: bool, n: nat, s: nat)
    requires scan.Valid() && |mcu| == |scan.membership| && |dc| == |scan.dcTbl| && j <= |mcu|
    requires McuTally(scan, mcu, dc, j, isDC, n, s) > 0
    ensures exists c :: 0 <= c < |scan.dcTbl| && (if isDC then scan.dcTbl[c] else scan.acTbl[c]) == n
    decreases |mcu| - j
  {
    var ci := scan.membership[j];
    if (if isDC then scan.dcTbl[ci] else scan.acTbl[ci]) != n {
      McuTallyUsesTable(scan, mcu, dc[ci := mcu[j][0]], j + 1, isDC, n, s);
    }
  }

  lemma {:induction false} ScanTallyUsesTable(scan: Scan, mcus: seq<Mcu>, dc: seq<int>, togo: nat, isDC: bool, n: nat, s: nat)
    requires scan.Valid() && Mcus(scan, mcus) && |dc| == |scan.dcTbl|
    requires ScanTally(scan, mcus, dc, togo, isDC, n, s) > 0
    ensures exists c :: 0 <= c < |scan.dcTbl| && (if isDC then scan.dcTbl[c] else scan.acTbl[c]) == n
    decreases |mcus|, if togo == 0 then 1 else 0
  {
    if RestartDue(scan, togo) {
      ScanTallyUsesTable(scan, mcus, scan.Zeros(), scan.restartInterval, isDC, n, s);
    } else if McuTally(scan, mcus[0], dc, 0, isDC, n, s) > 0 {
      McuTallyUsesTable(scan, mcus[0], dc, 0, isDC, n, s);
    } else {
      ScanTallyUsesTable(scan, mcus[1..], DcAfter(scan, mcus[0], dc, 0), TogoAfter(scan, togo), isDC, n, s);
    }
  }

  /** Tables generated from the statistics of a scan never miss a code in coding it. */
  lemma NoMissingCode(scan: Scan, mcus: seq<Mcu>, ts: TableSet)
    requires scan.Valid() && Mcus(scan, mcus) && ScanInRange(scan, mcus, scan.Zeros(), scan.restartInterval)
    requires Agreed(scan, mcus, ts.dc, true) && Agreed(scan, mcus, ts.ac, false)
    ensures ts.Shaped() && ScanEncodable(scan, ts, mcus, scan.Zeros(), scan.restartInterval)
  {
    var dc, togo := scan.Zeros(), scan.restartInterval;
    forall isDC, n: nat, s: nat | n < 4 && ScanTally(scan, mcus, dc, togo, isDC, n, s) > 0
      ensures HasCode(ts, isDC, n, s)
    {
      ScanPossible(scan, mcus, dc, togo, isDC, n, s);
      ScanTallyUsesTable(scan, mcus, dc, togo, isDC, n, s);
      assert TableCounts(scan, mcus, isDC, n)[s] > 0;
    }
    EncodableIfCounted(scan, ts, mcus, dc, togo);
  }

  /** Some table of the scan would need a code of more than 32 bits. */
  ghost predicate SomeOverlong(scan: Scan, mcus: seq<Mcu>)
    requires scan.Valid() && Mcus(scan, mcus)
  {
    exists isDC, c: nat :: c < |scan.dcTbl| && Overlong(CountsOf(scan, mcus, isDC, c))
  }

  /** No table of a scan of up to 144179 blocks is counted so often. */
  lemma FewBlocks(scan: Scan, mcus: seq<Mcu>)
    requires scan.Valid() && Mcus(scan, mcus) && 64 * Blocks(mcus) < HEAVY - 1
    ensures !SomeOverlong(scan, mcus)
    ensures mcus != [] && (forall c :: 0 <= c < |scan.dcTbl| ==> c in scan.membership) ==> Countable(scan, mcus)
  {
    forall isDC, c: nat | c < |scan.dcTbl|
      ensures OneTree(WithReserved(CountsOf(scan, mcus, isDC, c))) && !Overlong(CountsOf(scan, mcus, isDC, c))
    {
      var counts, n := CountsOf(scan, mcus, isDC, c), if isDC then scan.dcTbl[c] else scan.acTbl[c];
      ScanBound(scan, mcus, scan.Zeros(), scan.restartInterval, isDC, n);
      assert counts[..256] == ScanCounts(scan, mcus, scan.Zeros(), scan.restartInterval, isDC, n);
      ReservedTotals(counts);
      LightEnough(WithReserved(counts));
      if Overlong(counts) { OverlongIsHeavy(counts); }
    }
  }

  /** The tables of one class, from the counts of a statistics pass. */
  method BuildClass(scan: Scan, ghost mcus: seq<Mcu>, tblNo: seq<nat>, counts: seq<array<nat>>, isDC: bool) returns (r: Result<seq<Coder>>)
    requires scan.Valid() && Mcus(scan, mcus) && Countable(scan, mcus)
    requires ScanInRange(scan, mcus, scan.Zeros(), scan.restartInterval)
    requires tblNo == (if isDC then scan.dcTbl else scan.acTbl) && CountsAre(scan, mcus, counts, isDC)
    requires forall n, m :: 0 <= n < m < 4 ==> counts[n] != counts[m]
    modifies counts
    ensures r.Err? ==> r.error == CodeLengthOverflow
    ensures r.Err? <==> exists c: nat :: c < |tblNo| && Overlong(CountsOf(scan, mcus, isDC, c))
    ensures r.Ok? ==> Agreed(scan, mcus, r.value, isDC)
  {
    forall c: nat | c < |tblNo|
      ensures Plausible(isDC, counts[tblNo[c]][..]) && old(counts[tblNo[c]][..]) == CountsOf(scan, mcus, isDC, c)
    {
      CountsPlausible(scan, mcus, c, isDC);
    }
    r := BuildTables(tblNo, counts, isDC);
    if r.Err? {
      ghost var c: nat :| c < |tblNo| && Overlong(old(counts[tblNo[c]][..]));
      assert Overlong(CountsOf(scan, mcus, isDC, c));
    }
  }

  /** The DC and AC tables, from the counts of a statistics pass. */
  method BuildBoth(g: Gatherer, ghost mcus: seq<Mcu>) returns (r: Result<TableSet>)
    requires CountedAll(g, mcus) && Countable(g.scan, mcus)
    requires ScanInRange(g.scan, mcus, g.scan.Zeros(), g.scan.restartInterval)
    modifies g.dcCounts, g.acCounts
    ensures r.Err? ==> r.error == CodeLengthOverflow
    ensures r.Err? <==> SomeOverlong(g.scan, mcus)
    ensures r.Ok? ==> Agreed(g.scan, mcus, r.value.dc, true) && Agreed(g.scan, mcus, r.value.ac, false)
  {
    var scan := g.scan;
    CountsMatch(scan, mcus, g, true);
    CountsMatch(scan, mcus, g, false);
    forall n: nat, m: nat | n < 4 && m < 4
      ensures g.dcCounts[n] != g.acCounts[m] && (n != m ==> g.dcCounts[n] != g.dcCounts[m] && g.acCounts[n] != g.acCounts[m])
    {
      assert g.Separate(n, m);
    }
    var dc := BuildClass(scan, mcus, scan.dcTbl, g.dcCounts, true);
    if dc.Err? {
      return Err(dc.error);
    }
    var ac := BuildClass(scan, mcus, scan.acTbl, g.acCounts, false);
    if ac.Err? {
      return Err(ac.error);
    }
    r := Ok(TableSet(dc.value, ac.value));
  }

  /** The arrays hold the counts of the scan's symbols of one class. */
  ghost predicate CountsAre(scan: Scan, mcus: seq<Mcu>, counts: seq<array<nat>>, isDC: bool)
    requires scan.Valid() && Mcus(scan, mcus)
    reads counts
  {
    |counts| == 4 && forall n: nat :: n < 4 ==> counts[n].Length == 257 && counts[n][..] == TableCounts(scan, mcus, isDC, n)
  }

  lemma CountsMatch(scan: Scan, mcus: seq<Mcu>, g: Gatherer, isDC: bool)
    requires scan.Valid() && Mcus(scan, mcus) && g.Valid()
    requires forall isDC, n: nat, s: nat :: n < 4 && s < 257 ==>
              g.CountOf(isDC, n, s) == ScanTally(scan, mcus, scan.Zeros(), scan.restartInterval, isDC, n, s)
    ensures CountsAre(scan, mcus, if isDC then g.dcCounts else g.acCounts, isDC)
  {
    forall n: nat | n < 4
      ensures (if isDC then g.dcCounts else g.acCounts)[n][..] == TableCounts(scan, mcus, isDC, n)
    {
      forall s: nat | s < 257
        ensures (if isDC then g.dcCounts else g.acCounts)[n][s] == TableCounts(scan, mcus, isDC, n)[s]
      {
        assert g.CountOf(isDC, n, s) == TableCounts(scan, mcus, isDC, n)[s];
      }
    }
  }

  /**
   finish_pass_gather for a scan in range: tables that let the coding pass write every MCU, after
   which the bytes of the scan decode to the MCUs it was made from.  The only way to fail is a code
   of more than 32 bits, which a scan of few blocks cannot need.
   */
  method TablesFrom(g: Gatherer, ghost mcus: seq<Mcu>) returns (r: Result<TableSet>)
    requires CountedAll(g, mcus) && Countable(g.scan, mcus)
    requires ScanInRange(g.scan, mcus, g.scan.Zeros(), g.scan.restartInterval)
    modifies g.dcCounts, g.acCounts
    ensures r.Err? ==> r.error == CodeLengthOverflow
    ensures r.Err? <==> SomeOverlong(g.scan, mcus)
    ensures 64 * Blocks(mcus) < HEAVY - 1 ==> r.Ok?
    ensures r.Ok? ==> r.value.Shaped() && r.value.Readable(g.scan) && AllEconomical(g.scan, mcus, r.value)
    ensures r.Ok? ==> ScanEncodable(g.scan, r.value, mcus, g.scan.Zeros(), g.scan.restartInterval)
  {
    if 64 * Blocks(mcus) < HEAVY - 1 {
      FewBlocks(g.scan, mcus);
    }
    r := BuildBoth(g, mcus);
    if r.Ok? {
      AgreedReadable(g.scan, mcus, r.value);
      NoMissingCode(g.scan, mcus, r.value);
    }
  }

  /** Both passes over a sequence of MCUs. */
  method OptimizeScan(scan: Scan, mcus: seq<Mcu>) returns (r: Result<TableSet>)
    requires scan.Valid() && Mcus(scan, mcus) && Countable(scan, mcus)
    ensures r.Err? ==> r.error == BadDctCoef || r.error == CodeLengthOverflow
    ensures r == Err(BadDctCoef) <==> !ScanInRange(scan, mcus, scan.Zeros(), scan.restartInterval)
    ensures r == Err(CodeLengthOverflow) <==> ScanInRange(scan, mcus, scan.Zeros(), scan.restartInterval) && SomeOverlong(scan, mcus)
    ensures 64 * Blocks(mcus) < HEAVY - 1 && ScanInRange(scan, mcus, scan.Zeros(), scan.restartInterval) ==> r.Ok?
    ensures r.Ok? ==> r.value.Shaped() && r.value.Readable(scan) && AllEconomical(scan, mcus, r.value)
    ensures r.Ok? ==> ScanEncodable(scan, r.value, mcus, scan.Zeros(), scan.restartInterval)
    ensures r.Ok? ==> DecodeScan(scan, r.value, ScanBytes(scan, r.value, mcus), |mcus|) == Some(mcus)
  {
    var ok, g := Gather(scan, mcus);
    if !ok.Done? {
      return Err(BadDctCoef);
    }
    r := TablesFrom(g, mcus);
    if r.Ok? {
      ScanRoundTrip(scan, r.value, mcus);
    }
  }
}
