/**
 The middle of jpeg_gen_optimal_table: count the symbols of each depth, bring all depths
 down to 16 (section K.2 of ITU-T T.81, figure K.3), and drop the reserved code.
 The Kraft equality is what keeps every step of it defined.
 */
module LengthLimit {
  import opened Bits
  import opened DerivedTable
  import opened HuffmanCost
  import opened MergeTree

  const MAX_CLEN: nat := 32

  /** A Kraft sum of one, in units of 2^-MAX_CLEN. */
  const WHOLE: nat := 0x1_0000_0000

  lemma WholeIsPow2(i: nat)
    requires i <= MAX_CLEN
    ensures WHOLE == Pow2(i) * Pow2(MAX_CLEN - i)
  {
    Pow2Add(i, MAX_CLEN - i);
    Pow2Constants();
  }

  /** Adding to an unsigned 8-bit counter. */
  function AddU8(b: Byte, d: int): Byte { (b as int + d) % 256 }

  // ---------------------------------------------------------------- changing one count

  lemma {:induction false} CountSet(bits: seq<Byte>, k: nat, v: Byte, l: nat)
    requires 1 <= k < |bits| && l < |bits|
    ensures Count(bits[k := v], l) == Count(bits, l) + if k <= l then v - bits[k] else 0
  {
    if l > 0 { CountSet(bits, k, v, l - 1); }
  }

  lemma {:induction false} KraftSetCount(bits: seq<Byte>, k: nat, v: Byte, l: nat)
    requires 1 <= k < |bits| && l < |bits|
    ensures Kraft(bits[k := v], l) == Kraft(bits, l) + if k <= l then (v - bits[k]) * Pow2(l - k) else 0
  {
    if l > 0 {
      KraftSetCount(bits, k, v, l - 1);
      if k < l {
        TwiceInt(v - bits[k], Pow2(l - 1 - k));
      }
    }
  }

  lemma TwiceInt(a: int, b: int)
    ensures 2 * (a * b) == a * (2 * b)
  {
  }

  lemma {:induction false} EachBelowCount(bits: seq<Byte>, k: nat, l: nat)
    requires 1 <= k <= l < |bits|
    ensures bits[k] <= Count(bits, l)
  {
    if k < l { EachBelowCount(bits, k, l - 1); }
  }

  lemma {:induction false} TwoBelowCount(bits: seq<Byte>, j: nat, k: nat, l: nat)
    requires 1 <= j < k <= l < |bits|
    ensures bits[j] + bits[k] <= Count(bits, l)
  {
    if k < l { TwoBelowCount(bits, j, k, l - 1); } else { EachBelowCount(bits, j, l - 1); }
  }

  // ---------------------------------------------------------------- the Kraft equality at work

  /** The counts of n codes, none longer than i, with a Kraft sum of m. */
  ghost predicate Complete(bits: seq<Byte>, m: nat, n: nat, i: nat)
  {
    |bits| == MAX_CLEN + 1 && i <= MAX_CLEN && bits[0] == 0 &&
    Count(bits, MAX_CLEN) == n && Kraft(bits, MAX_CLEN) == m * WHOLE &&
    forall k :: i < k <= MAX_CLEN ==> bits[k] == 0
  }

  lemma {:induction false} NothingAbove(bits: seq<Byte>, i: nat, l: nat)
    requires i <= l < |bits| && forall k :: i < k <= l ==> bits[k] == 0
    ensures Kraft(bits, l) == Kraft(bits, i) * Pow2(l - i)
    ensures Count(bits, l) == Count(bits, i)
  {
    if i < l {
      NothingAbove(bits, i, l - 1);
      TwiceInt(Kraft(bits, i), Pow2(l - 1 - i));
    }
  }

  /** With nothing longer than i, the codes up to length i already fill the Kraft sum. */
  lemma KraftAt(bits: seq<Byte>, m: nat, n: nat, i: nat)
    requires Complete(bits, m, n, i)
    ensures Kraft(bits, i) == m * Pow2(i) && Count(bits, i) == n
  {
    NothingAbove(bits, i, MAX_CLEN);
    WholeIsPow2(i);
    MulAssoc(m, Pow2(i), Pow2(MAX_CLEN - i));
    CancelFactor(Kraft(bits, i), m * Pow2(i), Pow2(MAX_CLEN - i));
  }

  lemma CancelFactor(a: nat, b: nat, c: nat)
    requires c >= 1 && a * c == b * c
    ensures a == b
  {
    MulAtLeast(c, a - b);
    assert c * (a - b) == a * c - b * c;
  }

  /** The longest codes come in pairs. */
  lemma LongestPaired(bits: seq<Byte>, m: nat, n: nat, i: nat)
    requires Complete(bits, m, n, i) && i >= 1
    ensures bits[i] % 2 == 0
  {
    KraftAt(bits, m, n, i);
    EvenRest(Kraft(bits, i - 1), bits[i], m, Pow2(i - 1));
  }

  lemma EvenRest(a: int, b: int, m: int, p: int)
    requires 2 * a + b == m * (2 * p)
    ensures b % 2 == 0
  {
    TwiceInt(m, p);
  }

  lemma {:induction false} ZeroKraft(bits: seq<Byte>, l: nat)
    requires l < |bits| && forall k :: 1 <= k <= l ==> bits[k] == 0
    ensures Kraft(bits, l) == 0
  {
    if l > 0 { ZeroKraft(bits, l - 1); }
  }

  /** Some code is at least two bits shorter than i > 16: too few symbols could fill the sum otherwise. */
  lemma DonorExists(bits: seq<Byte>, m: nat, n: nat, i: nat)
    requires Complete(bits, m, n, i) && m >= 1 && 16 < i && n <= N
    ensures exists k :: 1 <= k <= i - 2 && bits[k] > 0
  {
    KraftAt(bits, m, n, i);
    LargeSum(m, i);
    if forall k :: 1 <= k <= i - 2 ==> bits[k] == 0 {
      ZeroKraft(bits, i - 2);
    }
  }

  lemma LargeSum(m: nat, i: nat)
    requires m >= 1 && i > 16
    ensures m * Pow2(i) >= Pow2(i) == 2 * Pow2(i - 1) && Pow2(i - 1) >= 0x1_0000
  {
    Pow2Mono(16, i - 1);
    Pow2Constants();
    MulAtLeast(Pow2(i), m);
  }

  /** One adjustment of figure K.3: two codes of length i make way for a code of length i-1 and a split at j. */
  function Adjusted(bits: seq<Byte>, i: nat, j: nat): seq<Byte>
    requires 1 <= j && j + 2 <= i < |bits|
  {
    var b1 := bits[i := AddU8(bits[i], -2)];
    var b2 := b1[i - 1 := AddU8(b1[i - 1], 1)];
    var b3 := b2[j + 1 := AddU8(b2[j + 1], 2)];
    b3[j := AddU8(b3[j], -1)]
  }

  lemma Change(bits: seq<Byte>, k: nat, d: int)
    requires |bits| == MAX_CLEN + 1 && 1 <= k <= MAX_CLEN && 0 <= bits[k] as int + d <= 255
    ensures AddU8(bits[k], d) == bits[k] as int + d
    ensures var b := bits[k := AddU8(bits[k], d)];
            Count(b, MAX_CLEN) == Count(bits, MAX_CLEN) + d && Kraft(b, MAX_CLEN) == Kraft(bits, MAX_CLEN) + d * Pow2(MAX_CLEN - k)
  {
    var v := AddU8(bits[k], d);
    CountSet(bits, k, v, MAX_CLEN);
    KraftSetCount(bits, k, v, MAX_CLEN);
  }

  /** A code takes at most half of the sum. */
  lemma {:induction false} KraftByCount(bits: seq<Byte>, l: nat)
    requires 1 <= l < |bits|
    ensures Kraft(bits, l) <= Count(bits, l) * Pow2(l - 1)
  {
    if l > 1 {
      KraftByCount(bits, l - 1);
      TwiceInt(Count(bits, l - 1), Pow2(l - 2));
      MulAtLeast(bits[l], Pow2(l - 1));
      MulSum(Count(bits, l - 1), bits[l], Pow2(l - 1));
    } else {
      assert Kraft(bits, 0) == 0 && Count(bits, 0) == 0 && Pow2(0) == 1;
    }
  }

  /** j is the greatest length in use among those at least two shorter than i. */
  ghost predicate Donor(bits: seq<Byte>, i: nat, j: nat)
  {
    1 <= j && j + 2 <= i < |bits| && bits[j] > 0 && forall k :: j < k <= i - 2 ==> bits[k] == 0
  }

  /** There is room for the counters that grow, and something to take from those that shrink. */
  lemma AdjustFits(bits: seq<Byte>, m: nat, n: nat, i: nat, j: nat)
    requires Complete(bits, m, n, i) && m >= 1 && n <= N && 16 < i && bits[i] > 0 && Donor(bits, i, j)
    ensures bits[i] >= 2 && bits[i - 1] <= 254 && bits[j + 1] <= 252
  {
    LongestPaired(bits, m, n, i);
    KraftAt(bits, m, n, i);
    ThreeBelowCount(bits, j, i - 1, i, i);
    if j + 2 == i && bits[i - 1] > 252 {
      SmallSum(bits, i);
      LargeSum(m, i);
    }
  }

  /** With almost all codes as long as this, the sum is not even one. */
  lemma SmallSum(bits: seq<Byte>, i: nat)
    requires 16 < i < |bits| && Count(bits, i) <= N && bits[i] >= 2 && bits[i - 1] > 252 && bits[i - 2] > 0
    ensures Kraft(bits, i) < Pow2(i)
  {
    LargeSum(1, i);
    TopThree(bits, i);
    KraftByCount(bits, i - 3);
    AtMostFactor(Count(bits, i - 3), Pow2(i - 4));
    assert Pow2(i - 1) == 2 * Pow2(i - 2) == 4 * Pow2(i - 3) == 8 * Pow2(i - 4);
  }

  lemma AtMostFactor(a: nat, b: nat)
    requires a <= 1
    ensures a * b <= b
  {
  }

  lemma TopThree(bits: seq<Byte>, i: nat)
    requires 4 <= i < |bits|
    ensures Kraft(bits, i) == bits[i] + 2 * bits[i - 1] + 4 * bits[i - 2] + 8 * Kraft(bits, i - 3)
    ensures Count(bits, i) == bits[i] + bits[i - 1] + bits[i - 2] + Count(bits, i - 3)
  {
    assert Kraft(bits, i - 1) == 2 * Kraft(bits, i - 2) + bits[i - 1];
    assert Kraft(bits, i - 2) == 2 * Kraft(bits, i - 3) + bits[i - 2];
    assert Count(bits, i - 1) == Count(bits, i - 2) + bits[i - 1];
    assert Count(bits, i - 2) == Count(bits, i - 3) + bits[i - 2];
  }

  /** It keeps number of codes and Kraft sum, and no counter wraps. */
  lemma AdjustKeeps(bits: seq<Byte>, m: nat, n: nat, i: nat, j: nat)
    requires Complete(bits, m, n, i) && m >= 1 && n <= N && 16 < i && bits[i] > 0 && Donor(bits, i, j)
    ensures Complete(Adjusted(bits, i, j), m, n, i)
    ensures Adjusted(bits, i, j)[i] as int == bits[i] as int - 2
  {
    AdjustFits(bits, m, n, i, j);
    AdjustSums(bits, i, j);
  }

  lemma AdjustSums(bits: seq<Byte>, i: nat, j: nat)
    requires |bits| == MAX_CLEN + 1 && 1 <= j && j + 2 <= i <= MAX_CLEN
    requires bits[i] >= 2 && bits[i - 1] <= 254 && bits[j + 1] <= 252 && bits[j] > 0
    ensures var b := Adjusted(bits, i, j);
            Count(b, MAX_CLEN) == Count(bits, MAX_CLEN) && Kraft(b, MAX_CLEN) == Kraft(bits, MAX_CLEN) && b[i] == bits[i] - 2
  {
    var b1 := bits[i := AddU8(bits[i], -2)];
    var b2 := b1[i - 1 := AddU8(b1[i - 1], 1)];
    var b3 := b2[j + 1 := AddU8(b2[j + 1], 2)];
    Change(bits, i, -2);
    Change(b1, i - 1, 1);
    Change(b2, j + 1, 2);
    Change(b3, j, -1);
    assert Pow2(MAX_CLEN - (i - 1)) == 2 * Pow2(MAX_CLEN - i);
    assert Pow2(MAX_CLEN - j) == 2 * Pow2(MAX_CLEN - (j + 1));
  }

  lemma {:induction false} ThreeBelowCount(bits: seq<Byte>, a: nat, b: nat, c: nat, l: nat)
    requires 1 <= a < b < c <= l < |bits|
    ensures bits[a] + bits[b] + bits[c] <= Count(bits, l)
  {
    if c < l { ThreeBelowCount(bits, a, b, c, l - 1); } else { TwoBelowCount(bits, a, b, l - 1); }
  }

  /** The longest length that is at least two shorter than i and in use. */
  method FindDonor(bits: array<Byte>, i: nat, ghost m: nat, ghost n: nat) returns (j: nat)
    requires Complete(bits[..], m, n, i) && m >= 1 && 16 < i && n <= N
    ensures Donor(bits[..], i, j)
  {
    DonorExists(bits[..], m, n, i);
    ghost var d :| 1 <= d <= i - 2 && bits[d] > 0;
    j := i - 2;
    while bits[j] == 0
      invariant d <= j <= i - 2 && forall k :: j < k <= i - 2 ==> bits[k] == 0
      decreases j
    {
      j := j - 1;
    }
  }

  /**
   One step of figure K.3: two codes of the longest length i go, their prefix becomes a code, and a code
   of the longest length j among those at least two shorter makes way for two that are a bit longer.
   */
  ghost predicate Step(b: seq<Byte>, b': seq<Byte>)
  {
    exists i: nat, j: nat :: StepAt(b, b', i, j)
  }

  ghost predicate StepAt(b: seq<Byte>, b': seq<Byte>, i: nat, j: nat)
  {
    16 < i < |b| == |b'| && b[i] > 0 && NoneAbove(b, i) && Donor(b, i, j) &&
    forall k :: 0 <= k < |b| ==>
      b'[k] as int == b[k] as int - (if k == i then 2 else 0) + (if k == i - 1 then 1 else 0) + (if k == j + 1 then 2 else 0) - (if k == j then 1 else 0)
  }

  /** n such steps. */
  ghost predicate Steps(b: seq<Byte>, b': seq<Byte>, n: nat)
    decreases n
  {
    if n == 0 then b == b' else exists mid :: Steps(b, mid, n - 1) && Step(mid, b')
  }

  /** The figure as a whole: as many steps as it takes. */
  ghost predicate Limits(b: seq<Byte>, b': seq<Byte>)
  {
    exists n: nat :: Steps(b, b', n)
  }

  lemma NoSteps(b: seq<Byte>)
    ensures Limits(b, b)
  {
    assert Steps(b, b, 0);
  }

  lemma OneMoreStep(b: seq<Byte>, mid: seq<Byte>, b': seq<Byte>)
    requires Limits(b, mid) && Step(mid, b')
    ensures Limits(b, b')
  {
    var n: nat :| Steps(b, mid, n);
    assert Steps(b, b', n + 1);
  }

  /** One adjustment, as long as there are codes of length i. */
  method Adjust(bits: array<Byte>, i: nat, ghost m: nat, ghost n: nat)
    requires Complete(bits[..], m, n, i) && m >= 1 && 16 < i && n <= N && bits[i] > 0
    modifies bits
    ensures Complete(bits[..], m, n, i) && bits[i] < old(bits[i])
    ensures Step(old(bits[..]), bits[..])
  {
    ghost var now := bits[..];
    var j := FindDonor(bits, i, m, n);
    AdjustKeeps(now, m, n, i, j);
    bits[i] := AddU8(bits[i], -2);
    bits[i - 1] := AddU8(bits[i - 1], 1);
    bits[j + 1] := AddU8(bits[j + 1], 2);
    bits[j] := AddU8(bits[j], -1);
    assert bits[..] == Adjusted(now, i, j);
    AdjustedIsStep(now, m, n, i, j);
  }

  lemma AdjustedIsStep(bits: seq<Byte>, m: nat, n: nat, i: nat, j: nat)
    requires Complete(bits, m, n, i) && m >= 1 && 16 < i && n <= N && bits[i] > 0 && Donor(bits, i, j)
    ensures Step(bits, Adjusted(bits, i, j))
  {
    AdjustFits(bits, m, n, i, j);
    assert StepAt(bits, Adjusted(bits, i, j), i, j);
  }

  predicate NoneAbove(bits: seq<Byte>, i: nat)
  {
    forall k :: i < k < |bits| ==> bits[k] == 0
  }

  /** Bring all code lengths down to 16, if there are longer ones; returns the value the loop counter is left with. */
  method LimitLengths(bits: array<Byte>, ghost m: nat, ghost n: nat) returns (i: nat)
    requires bits.Length == MAX_CLEN + 1
    requires NoneAbove(bits[..], 16) || (Complete(bits[..], m, n, MAX_CLEN) && m >= 1 && n <= N)
    modifies bits
    ensures i == 16 && Limits(old(bits[..]), bits[..]) && NoneAbove(bits[..], 16)
    ensures if NoneAbove(old(bits[..]), 16) then bits[..] == old(bits[..]) else Complete(bits[..], m, n, 16)
  {
    ghost var start, done := bits[..], NoneAbove(bits[..], 16);
    NoSteps(start);
    i := MAX_CLEN;
    while i > 16
      invariant 16 <= i <= MAX_CLEN && Limits(start, bits[..])
      invariant if done then bits[..] == start else Complete(bits[..], m, n, i)
    {
      assert done ==> bits[i] == start[i];
      while bits[i] > 0
        invariant if done then bits[..] == start else Complete(bits[..], m, n, i)
        invariant (done ==> bits[i] == 0) && Limits(start, bits[..])
        decreases bits[i]
      {
        ghost var before := bits[..];
        Adjust(bits, i, m, n);
        OneMoreStep(start, before, bits[..]);
      }
      i := i - 1;
    }
  }

  /** Remove the code reserved for the pseudo-symbol from the longest length in use; -1 if the search for it runs below bits[0]. */
  method DropReserved(bits: array<Byte>, i0: nat) returns (i: int)
    requires i0 < bits.Length
    modifies bits
    ensures -1 <= i <= i0 && forall k :: i < k <= i0 ==> old(bits[k]) == 0
    ensures i == -1 ==> bits[..] == old(bits[..])
    ensures i >= 0 ==> old(bits[i]) > 0 && bits[..] == old(bits[..])[i := old(bits[i]) - 1]
  {
    i := i0;
    while i >= 0 && bits[i] == 0
      invariant -1 <= i <= i0 && bits[..] == old(bits[..])
      invariant forall k :: i < k <= i0 ==> bits[k] == 0
    {
      i := i - 1;
    }
    if i >= 0 {
      bits[i] := AddU8(bits[i], -1);
    }
  }

  lemma SomeInUse(bits: seq<Byte>, m: nat, n: nat, i: nat)
    requires Complete(bits, m, n, i) && m >= 1
    ensures exists d :: 1 <= d <= i && bits[d] > 0
  {
    KraftAt(bits, m, n, i);
    if forall k :: 1 <= k <= i ==> bits[k] == 0 {
      ZeroKraft(bits, i);
      MulAtLeast(Pow2(i), m);
    }
  }

  lemma OneLess(v: int, b: int, p: int)
    requires v == b - 1
    ensures (v - b) * p == -p
  {
  }

  /** The dropped code leaves the sum short of a whole number by at most a half. */
  lemma OneDropped(bits: seq<Byte>, m: nat, n: nat, i0: nat, i: nat)
    requires Complete(bits, m, n, i0) && 1 <= i <= i0 && bits[i] > 0
    ensures var b := bits[i := bits[i] - 1];
            Count(b, i0) == n - 1 && Kraft(b, i0) == m * Pow2(i0) - Pow2(i0 - i) && 1 <= Pow2(i0 - i) <= Pow2(i0 - 1)
  {
    KraftAt(bits, m, n, i0);
    var v := bits[i] - 1;
    CountSet(bits, i, v, i0);
    KraftSetCount(bits, i, v, i0);
    OneLess(v, bits[i], Pow2(i0 - i));
    Pow2Mono(i0 - i, i0 - 1);
  }

  // ---------------------------------------------------------------- counting the depths

  /** How many symbols have depth k. */
  function LengthCount(cs: seq<nat>, k: nat): nat
  {
    if cs == [] then 0 else (if cs[0] == k then 1 else 0) + LengthCount(cs[1..], k)
  }

  /** The Kraft sum of the nonzero depths, in units of 2^-32. */
  function DepthKraft(cs: seq<nat>): nat
  {
    if cs == [] then 0
    else (if 0 < cs[0] <= MAX_CLEN then Pow2(MAX_CLEN - cs[0]) else 0) + DepthKraft(cs[1..])
  }

  lemma {:induction false} LengthCountBound(cs: seq<nat>, k: nat)
    requires k > 0
    ensures LengthCount(cs, k) <= CountUsed(cs)
  {
    if cs != [] { LengthCountBound(cs[1..], k); }
  }

  lemma Rest(cs: seq<nat>, i: nat)
    requires i < |cs|
    ensures cs[i..][0] == cs[i] && cs[i..][1..] == cs[i + 1..]
  {
  }

  /** bits holds the counts of what is not among the depths in rest, in bytes. */
  ghost predicate CountedTo(bits: seq<Byte>, cs: seq<nat>, rest: seq<nat>)
  {
    |bits| == MAX_CLEN + 1 && bits[0] == 0 &&
    forall k :: 1 <= k <= MAX_CLEN ==> LengthCount(cs, k) >= LengthCount(rest, k) && bits[k] == (LengthCount(cs, k) - LengthCount(rest, k)) % 256
  }

  /** bits holds the counts of the depths, in bytes. */
  ghost predicate Tallied(bits: seq<Byte>, cs: seq<nat>)
  {
    CountedTo(bits, cs, [])
  }

  lemma CountOne(bits: seq<Byte>, cs: seq<nat>, rest: seq<nat>)
    requires CountedTo(bits, cs, rest) && rest != [] && rest[0] <= MAX_CLEN
    ensures CountedTo(if rest[0] == 0 then bits else bits[rest[0] := AddU8(bits[rest[0]], 1)], cs, rest[1..])
  {
  }

  /** How many codes have each length, as far as a byte can tell; fails exactly on a length above MAX_CLEN. */
  method CountLengths(codesize: array<nat>) returns (ok: bool, bits: array<Byte>)
    requires codesize.Length == N
    ensures fresh(bits)
    ensures ok <==> forall s :: 0 <= s < N ==> codesize[s] <= MAX_CLEN
    ensures ok ==> bits.Length == MAX_CLEN + 1 && Tallied(bits[..], codesize[..])
  {
    ghost var cs := codesize[..];
    bits := new Byte[MAX_CLEN + 1](_ => 0);
    assert cs[0..] == cs;
    for i := 0 to N
      invariant forall s :: 0 <= s < i ==> codesize[s] <= MAX_CLEN
      invariant fresh(bits) && bits.Length == MAX_CLEN + 1 && codesize[..] == cs
      invariant CountedTo(bits[..], cs, cs[i..])
    {
      Rest(cs, i);
      if codesize[i] > MAX_CLEN {
        return false, bits;
      }
      ghost var before := bits[..];
      CountOne(before, cs, cs[i..]);
      if codesize[i] != 0 {
        bits[codesize[i]] := AddU8(bits[codesize[i]], 1);
        assert bits[..] == before[cs[i] := AddU8(before[cs[i]], 1)];
      }
    }
    ok := true;
  }

  // ---------------------------------------------------------------- from the tree to the counts

  lemma {:induction false} HalfPowIsPow2(k: nat)
    requires k <= MAX_CLEN
    ensures HalfPow(k) == Pow2(MAX_CLEN - k) as real
  {
    if k > 0 {
      HalfPowIsPow2(k - 1);
      assert Pow2(MAX_CLEN - (k - 1)) == 2 * Pow2(MAX_CLEN - k);
    } else {
      Pow2Constants();
    }
  }

  /** How many used symbols have no size: roots that were never merged. */
  function Alone(f: seq<nat>, cs: seq<nat>): nat
    requires |f| == |cs|
  {
    if f == [] then 0 else (if f[0] > 0 && cs[0] == 0 then 1 else 0) + Alone(f[1..], cs[1..])
  }

  lemma {:induction false} AloneZero(f: seq<nat>, cs: seq<nat>)
    requires |f| == |cs|
    ensures Alone(f, cs) == 0 <==> forall s :: 0 <= s < |f| && f[s] > 0 ==> cs[s] > 0
  {
    if f != [] {
      AloneZero(f[1..], cs[1..]);
      assert (forall s :: 0 <= s < |f[1..]| && f[1..][s] > 0 ==> cs[1..][s] > 0) <==> forall s :: 1 <= s < |f| && f[s] > 0 ==> cs[s] > 0 by {
        assert forall s :: 1 <= s < |f| ==> f[s] == f[1..][s - 1] && cs[s] == cs[1..][s - 1];
      }
    }
  }

  /** The Kraft sum of the sizes is that of the roots that have been merged. */
  lemma {:induction false} DepthKraftIs(f: seq<nat>, cs: seq<nat>)
    requires |f| == |cs| && forall s :: 0 <= s < |f| ==> cs[s] <= MAX_CLEN && (f[s] == 0 ==> cs[s] == 0)
    ensures DepthKraft(cs) as real + Alone(f, cs) as real * UNIT == KraftUsed(f, cs)
  {
    if f != [] {
      assert forall s :: 0 <= s < |f[1..]| ==> f[1..][s] == f[s + 1] && cs[1..][s] == cs[s + 1];
      DepthKraftIs(f[1..], cs[1..]);
      if f[0] > 0 { HalfPowIsPow2(cs[0]); }
    }
  }

  /** So it is a whole number, at most that of the roots left. */
  lemma WholeKraft(f: seq<nat>) returns (m: nat)
    requires forall s :: 0 <= s < |f| ==> CodeSizes(f)[s] <= MAX_CLEN
    ensures DepthKraft(CodeSizes(f)) == m * WHOLE
    ensures m + Alone(f, CodeSizes(f)) == CountUsed(MergeEnd(f))
  {
    var cs, roots := CodeSizes(f), CountUsed(MergeEnd(f));
    RootsKraft(f);
    DepthKraftIs(f, cs);
    Pow2Constants();
    assert DepthKraft(cs) as real == (roots - Alone(f, cs)) as real * UNIT;
    assert DepthKraft(cs) == (roots - Alone(f, cs)) * 0x1_0000_0000;
    m := roots - Alone(f, cs);
  }

  lemma {:induction false} EmptyCounts(bits: seq<Byte>, l: nat)
    requires l < |bits| && forall k :: 0 <= k < |bits| ==> bits[k] == 0
    ensures Count(bits, l) == 0 && Kraft(bits, l) == 0
  {
    if l > 0 { EmptyCounts(bits, l - 1); }
  }

  /** If no byte wraps, numbers and sums are right. */
  lemma {:induction false} TallyRight(bits: seq<Byte>, cs: seq<nat>)
    requires |bits| == MAX_CLEN + 1 && bits[0] == 0 && forall k :: 1 <= k <= MAX_CLEN ==> bits[k] == LengthCount(cs, k)
    requires forall s :: 0 <= s < |cs| ==> cs[s] <= MAX_CLEN
    ensures Count(bits, MAX_CLEN) == CountUsed(cs) && Kraft(bits, MAX_CLEN) == DepthKraft(cs)
    decreases |cs|
  {
    if cs == [] {
      EmptyCounts(bits, MAX_CLEN);
    } else {
      assert forall s :: 0 <= s < |cs[1..]| ==> cs[1..][s] == cs[s + 1];
      var k := cs[0];
      if k == 0 {
        TallyRight(bits, cs[1..]);
      } else {
        var b := bits[k := bits[k] - 1];
        TallyRight(b, cs[1..]);
        CountSet(b, k, bits[k], MAX_CLEN);
        KraftSetCount(b, k, bits[k], MAX_CLEN);
        assert b[k := bits[k]] == bits;
        OneMore(bits[k], Pow2(MAX_CLEN - k));
      }
    }
  }

  lemma OneMore(v: int, p: int)
    ensures (v - (v - 1)) * p == p
  {
  }
}
