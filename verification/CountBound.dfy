/**
 How large the counts of a statistics pass can get: a block has at most 64 symbols, so an image of
 moderate size can neither overrun the search limit nor need a code of more than 32 bits.
 */
module CountBound {
  import opened BlockCode
  import opened BlockCoder
  import opened ScanModel
  import opened HuffmanCost
  import opened GatherPass

  /** Elementwise sum. */
  function Sum(a: seq<nat>, b: seq<nat>): (r: seq<nat>)
    requires |a| == |b|
    ensures |r| == |a|
  {
    seq(|a|, i requires 0 <= i < |a| => a[i] + b[i])
  }

  lemma {:induction false} TotalSum(a: seq<nat>, b: seq<nat>)
    requires |a| == |b|
    ensures Total(Sum(a, b)) == Total(a) + Total(b)
  {
    if a != [] {
      TotalSum(a[1..], b[1..]);
      assert Sum(a, b)[1..] == Sum(a[1..], b[1..]);
    }
  }

  lemma {:induction false} TotalZero(a: seq<nat>)
    requires forall i :: 0 <= i < |a| ==> a[i] == 0
    ensures Total(a) == 0
  {
    if a != [] { TotalZero(a[1..]); }
  }

  lemma {:induction false} TotalUnit(a: seq<nat>, k: nat)
    requires forall i :: 0 <= i < |a| ==> a[i] <= if i == k then 1 else 0
    ensures Total(a) <= 1
  {
    if a != [] {
      if k == 0 {
        TotalZero(a[1..]);
      } else {
        TotalUnit(a[1..], k - 1);
      }
    }
  }

  lemma {:induction false} AcTokensBound(z: Block, k: nat, r: nat)
    requires k <= 64
    ensures |AcTokens(z, k, r)| <= 64 - k + r
    decreases 64 - k
  {
    if k < 64 {
      if z[k] == 0 { AcTokensBound(z, k + 1, r + 1); } else { AcTokensBound(z, k + 1, 0); }
    }
  }

  function TokenCounts(ks: seq<Token>, isDC: bool): (r: seq<nat>)
    ensures |r| == 256
  {
    seq(256, s requires 0 <= s < 256 => Tally(ks, isDC, s))
  }

  /** Each token is counted at most once. */
  lemma {:induction false} TokensBound(ks: seq<Token>, isDC: bool)
    ensures Total(TokenCounts(ks, isDC)) <= |ks|
  {
    if ks == [] {
      TotalZero(TokenCounts(ks, isDC));
    } else {
      TokensBound(ks[1..], isDC);
      var one: seq<nat> := seq(256, s => if ks[0].isDC == isDC && ks[0].symbol == s then 1 else 0);
      TotalUnit(one, ks[0].symbol);
      TotalSum(one, TokenCounts(ks[1..], isDC));
      assert TokenCounts(ks, isDC) == Sum(one, TokenCounts(ks[1..], isDC));
    }
  }

  function McuCounts(scan: Scan, mcu: Mcu, dc: seq<int>, j: nat, isDC: bool, n: nat): (r: seq<nat>)
    requires scan.Valid() && |mcu| == |scan.membership| && |dc| == |scan.dcTbl| && j <= |mcu|
    ensures |r| == 256
  {
    seq(256, s requires 0 <= s < 256 => McuTally(scan, mcu, dc, j, isDC, n, s))
  }

  /** What the j-th block of an MCU adds to table n. */
  function BlockCounts(scan: Scan, mcu: Mcu, dc: seq<int>, j: nat, isDC: bool, n: nat): (r: seq<nat>)
    requires scan.Valid() && |mcu| == |scan.membership| && |dc| == |scan.dcTbl| && j < |mcu|
    ensures |r| == 256
  {
    var ci := scan.membership[j];
    if (if isDC then scan.dcTbl[ci] else scan.acTbl[ci]) == n then TokenCounts(BlockTokens(mcu[j], dc[ci]), isDC) else seq(256, _ => 0)
  }

  lemma BlockBound(scan: Scan, mcu: Mcu, dc: seq<int>, j: nat, isDC: bool, n: nat)
    requires scan.Valid() && |mcu| == |scan.membership| && |dc| == |scan.dcTbl| && j < |mcu|
    ensures Total(BlockCounts(scan, mcu, dc, j, isDC, n)) <= 64
  {
    var ci := scan.membership[j];
    AcTokensBound(ToZigzag(mcu[j]), 1, 0);
    TokensBound(BlockTokens(mcu[j], dc[ci]), isDC);
    TotalZero(seq(256, _ => 0));
  }

  lemma McuCountsNext(scan: Scan, mcu: Mcu, dc: seq<int>, j: nat, isDC: bool, n: nat)
    requires scan.Valid() && |mcu| == |scan.membership| && |dc| == |scan.dcTbl| && j < |mcu|
    ensures McuCounts(scan, mcu, dc, j, isDC, n)
            == Sum(BlockCounts(scan, mcu, dc, j, isDC, n), McuCounts(scan, mcu, dc[scan.membership[j] := mcu[j][0]], j + 1, isDC, n))
  {
  }

  lemma {:induction false} McuBound(scan: Scan, mcu: Mcu, dc: seq<int>, j: nat, isDC: bool, n: nat)
    requires scan.Valid() && |mcu| == |scan.membership| && |dc| == |scan.dcTbl| && j <= |mcu|
    ensures Total(McuCounts(scan, mcu, dc, j, isDC, n)) <= 64 * (|mcu| - j)
    decreases |mcu| - j
  {
    if j == |mcu| {
      TotalZero(McuCounts(scan, mcu, dc, j, isDC, n));
    } else {
      var dc' := dc[scan.membership[j] := mcu[j][0]];
      BlockBound(scan, mcu, dc, j, isDC, n);
      McuBound(scan, mcu, dc', j + 1, isDC, n);
      McuCountsNext(scan, mcu, dc, j, isDC, n);
      TotalSum(BlockCounts(scan, mcu, dc, j, isDC, n), McuCounts(scan, mcu, dc', j + 1, isDC, n));
    }
  }

  function ScanCounts(scan: Scan, mcus: seq<Mcu>, dc: seq<int>, togo: nat, isDC: bool, n: nat): (r: seq<nat>)
    requires scan.Valid() && Mcus(scan, mcus) && |dc| == |scan.dcTbl|
    ensures |r| == 256
  {
    seq(256, s requires 0 <= s < 256 => ScanTally(scan, mcus, dc, togo, isDC, n, s))
  }

  /** Blocks in a run of MCUs. */
  function Blocks(mcus: seq<Mcu>): nat
  {
    if mcus == [] then 0 else |mcus[0]| + Blocks(mcus[1..])
  }

  /** A table's counts total at most 64 for each block of the scan. */
  lemma {:induction false} ScanBound(scan: Scan, mcus: seq<Mcu>, dc: seq<int>, togo: nat, isDC: bool, n: nat)
    requires scan.Valid() && Mcus(scan, mcus) && |dc| == |scan.dcTbl|
    ensures Total(ScanCounts(scan, mcus, dc, togo, isDC, n)) <= 64 * Blocks(mcus)
    decreases |mcus|, if togo == 0 then 1 else 0
  {
    if mcus == [] {
      TotalZero(ScanCounts(scan, mcus, dc, togo, isDC, n));
    } else if RestartDue(scan, togo) {
      ScanBound(scan, mcus, scan.Zeros(), scan.restartInterval, isDC, n);
      assert ScanCounts(scan, mcus, dc, togo, isDC, n) == ScanCounts(scan, mcus, scan.Zeros(), scan.restartInterval, isDC, n);
    } else {
      var dc', togo' := DcAfter(scan, mcus[0], dc, 0), TogoAfter(scan, togo);
      var first, others := McuCounts(scan, mcus[0], dc, 0, isDC, n), ScanCounts(scan, mcus[1..], dc', togo', isDC, n);
      McuBound(scan, mcus[0], dc, 0, isDC, n);
      ScanBound(scan, mcus[1..], dc', togo', isDC, n);
      TotalSum(first, others);
      assert ScanCounts(scan, mcus, dc, togo, isDC, n) == Sum(first, others);
    }
  }
}
