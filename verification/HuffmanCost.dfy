/**
 Weighted code lengths: total cost, the Kraft sum, and the cost of merging the two
 lightest weights again and again, which no assignment of code lengths can beat.
 A weight of zero means the symbol takes no part.
 */
module HuffmanCost {
  import opened Bits

  /** The sum of weight times length. */
  function Cost(w: seq<nat>, len: seq<nat>): nat
    requires |w| == |len|
  {
    if w == [] then 0 else w[0] * len[0] + Cost(w[1..], len[1..])
  }

  function Term(w: nat, len: nat, h: nat): nat
  {
    if w == 0 || len > h then 0 else Pow2(h - len)
  }

  /** The Kraft sum in units of 2^-h. */
  function KraftSum(w: seq<nat>, len: seq<nat>, h: nat): nat
    requires |w| == |len|
  {
    if w == [] then 0 else Term(w[0], len[0], h) + KraftSum(w[1..], len[1..], h)
  }

  /** Lengths, at most h, of some prefix code for the symbols with a weight. */
  ghost predicate Feasible(w: seq<nat>, len: seq<nat>, h: nat)
  {
    |w| == |len| && (forall i :: 0 <= i < |w| && w[i] > 0 ==> len[i] <= h) && KraftSum(w, len, h) <= Pow2(h)
  }

  function CountUsed(w: seq<nat>): nat
  {
    if w == [] then 0 else (if w[0] > 0 then 1 else 0) + CountUsed(w[1..])
  }

  function Total(w: seq<nat>): nat
  {
    if w == [] then 0 else w[0] + Total(w[1..])
  }

  // ---------------------------------------------------------------- point updates

  lemma {:induction false} CostSet(w: seq<nat>, len: seq<nat>, i: nat, v: nat)
    requires |w| == |len| && i < |w|
    ensures Cost(w, len[i := v]) + w[i] * len[i] == Cost(w, len) + w[i] * v
  {
    if i == 0 {
      assert len[0 := v][1..] == len[1..];
    } else {
      CostSet(w[1..], len[1..], i - 1, v);
      assert len[i := v][1..] == len[1..][i - 1 := v];
    }
  }

  lemma {:induction false} CostSetWeight(w: seq<nat>, len: seq<nat>, i: nat, v: nat)
    requires |w| == |len| && i < |w|
    ensures Cost(w[i := v], len) + w[i] * len[i] == Cost(w, len) + v * len[i]
  {
    if i == 0 {
      assert w[0 := v][1..] == w[1..];
    } else {
      CostSetWeight(w[1..], len[1..], i - 1, v);
      assert w[i := v][1..] == w[1..][i - 1 := v];
    }
  }

  lemma {:induction false} KraftSet(w: seq<nat>, len: seq<nat>, h: nat, i: nat, v: nat, x: nat)
    requires |w| == |len| && i < |w|
    ensures KraftSum(w[i := x], len[i := v], h) + Term(w[i], len[i], h) == KraftSum(w, len, h) + Term(x, v, h)
  {
    if i == 0 {
      assert len[0 := v][1..] == len[1..] && w[0 := x][1..] == w[1..];
    } else {
      KraftSet(w[1..], len[1..], h, i - 1, v, x);
      assert len[i := v][1..] == len[1..][i - 1 := v] && w[i := x][1..] == w[1..][i - 1 := x];
    }
  }

  lemma {:induction false} TotalSet(w: seq<nat>, i: nat, v: nat)
    requires i < |w|
    ensures Total(w[i := v]) + w[i] == Total(w) + v
    ensures CountUsed(w[i := v]) + (if w[i] > 0 then 1 else 0) == CountUsed(w) + (if v > 0 then 1 else 0)
  {
    if i == 0 {
      assert w[0 := v][1..] == w[1..];
    } else {
      TotalSet(w[1..], i - 1, v);
      assert w[i := v][1..] == w[1..][i - 1 := v];
    }
  }

  lemma {:induction false} TotalAtLeast(w: seq<nat>, i: nat)
    requires i < |w|
    ensures w[i] <= Total(w)
    ensures w[i] > 0 ==> CountUsed(w) >= 1
  {
    if i > 0 { TotalAtLeast(w[1..], i - 1); }
  }

  /** Two terms are no more than the whole sum. */
  lemma {:induction false} TwoTerms(w: seq<nat>, len: seq<nat>, h: nat, i: nat, j: nat)
    requires |w| == |len| && i < j < |w|
    ensures Term(w[i], len[i], h) + Term(w[j], len[j], h) <= KraftSum(w, len, h)
  {
    if i == 0 {
      OneTerm(w[1..], len[1..], h, j - 1);
    } else {
      TwoTerms(w[1..], len[1..], h, i - 1, j - 1);
    }
  }

  lemma {:induction false} OneTerm(w: seq<nat>, len: seq<nat>, h: nat, i: nat)
    requires |w| == |len| && i < |w|
    ensures Term(w[i], len[i], h) <= KraftSum(w, len, h)
  {
    if i > 0 { OneTerm(w[1..], len[1..], h, i - 1); }
  }

  // ---------------------------------------------------------------- merging

  /** i is not heavier than any other symbol in use, apart from ex. */
  ghost predicate Lightest(w: seq<nat>, i: nat, ex: int)
  {
    i < |w| && w[i] > 0 && i != ex && forall j :: 0 <= j < |w| && j != ex && w[j] > 0 ==> w[i] <= w[j]
  }

  /** a and b are the two lightest symbols. */
  ghost predicate TwoLightest(w: seq<nat>, a: nat, b: nat)
  {
    Lightest(w, a, -1) && Lightest(w, b, a)
  }

  function Merge(w: seq<nat>, a: nat, b: nat): (r: seq<nat>)
    requires a < |w| && b < |w| && a != b
    ensures |r| == |w|
  {
    w[a := w[a] + w[b]][b := 0]
  }

  lemma MergeTotals(w: seq<nat>, a: nat, b: nat)
    requires a < |w| && b < |w| && a != b && w[a] > 0 && w[b] > 0
    ensures Total(Merge(w, a, b)) == Total(w)
    ensures CountUsed(Merge(w, a, b)) == CountUsed(w) - 1
  {
    TotalSet(w, a, w[a] + w[b]);
    TotalSet(w[a := w[a] + w[b]], b, 0);
  }

  // ---------------------------------------------------------------- the exchange argument

  /** m has the greatest length of all symbols in use. */
  ghost predicate Longest(w: seq<nat>, len: seq<nat>, m: nat)
    requires |w| == |len|
  {
    m < |w| && w[m] > 0 && forall j :: 0 <= j < |w| && w[j] > 0 ==> len[j] <= len[m]
  }

  lemma {:induction false} FindLongest(w: seq<nat>, len: seq<nat>, i: nat) returns (m: nat)
    requires |w| == |len| && i < |w| && w[i] > 0
    ensures Longest(w, len, m)
  {
    m := i;
    var k := 0;
    while k < |w|
      invariant k <= |w| && m < |w| && w[m] > 0
      invariant forall j :: 0 <= j < k && w[j] > 0 ==> len[j] <= len[m]
    {
      if w[k] > 0 && len[k] > len[m] { m := k; }
      k := k + 1;
    }
  }

  /** Giving the lighter symbol the longer code costs no more and uses the same Kraft sum. */
  lemma Swap(w: seq<nat>, len: seq<nat>, h: nat, c: nat, m: nat) returns (r: seq<nat>)
    requires Feasible(w, len, h) && c < |w| && m < |w| && c != m
    requires 0 < w[c] <= w[m] && len[c] <= len[m]
    ensures r == len[c := len[m]][m := len[c]]
    ensures Feasible(w, r, h) && Cost(w, r) <= Cost(w, len)
  {
    var mid := len[c := len[m]];
    r := mid[m := len[c]];
    CostSet(w, len, c, len[m]);
    CostSet(w, mid, m, len[c]);
    assert w[c := w[c]] == w && w[m := w[m]] == w;
    KraftSet(w, len, h, c, len[m], w[c]);
    KraftSet(w, mid, h, m, len[c], w[m]);
    Rearrange(w[c], w[m], len[c], len[m]);
  }

  lemma Rearrange(a: nat, b: nat, p: nat, q: nat)
    requires a <= b && p <= q
    ensures a * q + b * p <= a * p + b * q
  {
    assert (b - a) * (q - p) >= 0;
    assert (b - a) * (q - p) == b * q - b * p - a * q + a * p;
  }

  /** Every term but those of length l is a multiple of 2^(h-l+1), when l is the greatest length. */
  lemma {:induction false} ShorterTermsEven(w: seq<nat>, len: seq<nat>, h: nat, l: nat, m: nat) returns (q: nat)
    requires |w| == |len| && 1 <= l <= h && m < |w| && w[m] > 0 && len[m] == l
    requires forall j :: 0 <= j < |w| && w[j] > 0 && j != m ==> len[j] < l
    ensures KraftSum(w, len, h) == q * Pow2(h - l + 1) + Pow2(h - l)
  {
    if m == 0 {
      q := AllEven(w[1..], len[1..], h, l);
    } else {
      var q' := ShorterTermsEven(w[1..], len[1..], h, l, m - 1);
      var e := TermEven(w[0], len[0], h, l);
      q := q' + e;
      MulSum(q', e, Pow2(h - l + 1));
    }
  }

  lemma TermEven(w: nat, len: nat, h: nat, l: nat) returns (e: nat)
    requires 1 <= l <= h && (w > 0 ==> len < l)
    ensures Term(w, len, h) == e * Pow2(h - l + 1)
  {
    if w > 0 {
      Pow2Add(l - 1 - len, h - l + 1);
      e := Pow2(l - 1 - len);
    } else {
      e := 0;
    }
  }

  lemma {:induction false} AllEven(w: seq<nat>, len: seq<nat>, h: nat, l: nat) returns (q: nat)
    requires |w| == |len| && 1 <= l <= h
    requires forall j :: 0 <= j < |w| && w[j] > 0 ==> len[j] < l
    ensures KraftSum(w, len, h) == q * Pow2(h - l + 1)
  {
    if w == [] {
      q := 0;
    } else {
      var q' := AllEven(w[1..], len[1..], h, l);
      var e := TermEven(w[0], len[0], h, l);
      q := q' + e;
      MulSum(q', e, Pow2(h - l + 1));
    }
  }

  lemma EvenRoom(q: nat, p: nat, n: nat)
    requires p >= 1 && q * (2 * p) + p <= n * (2 * p)
    ensures q * (2 * p) + 2 * p <= n * (2 * p)
  {
    MulAtLeast(2 * p, q - n);
    MulAtLeast(2 * p, n - q - 1);
    assert q * (2 * p) - n * (2 * p) == (2 * p) * (q - n);
    assert n * (2 * p) - q * (2 * p) - 2 * p == (2 * p) * (n - q - 1);
  }

  /** A symbol alone on the longest length can be given one bit less. */
  lemma Shorten(w: seq<nat>, len: seq<nat>, h: nat, m: nat) returns (r: seq<nat>)
    requires Feasible(w, len, h) && m < |w| && w[m] > 0 && len[m] >= 1
    requires forall j :: 0 <= j < |w| && w[j] > 0 && j != m ==> len[j] < len[m]
    ensures r == len[m := len[m] - 1]
    ensures Feasible(w, r, h) && Cost(w, r) < Cost(w, len)
  {
    var l := len[m];
    r := len[m := l - 1];
    CostSet(w, len, m, l - 1);
    assert w[m] * l == w[m] * (l - 1) + w[m];
    assert w[m := w[m]] == w;
    KraftSet(w, len, h, m, l - 1, w[m]);
    RoomToShorten(w, len, h, m);
  }

  lemma RoomToShorten(w: seq<nat>, len: seq<nat>, h: nat, m: nat)
    requires Feasible(w, len, h) && m < |w| && w[m] > 0 && len[m] >= 1
    requires forall j :: 0 <= j < |w| && w[j] > 0 && j != m ==> len[j] < len[m]
    ensures KraftSum(w, len, h) + Pow2(h - len[m]) <= Pow2(h)
  {
    var l := len[m];
    var q := ShorterTermsEven(w, len, h, l, m);
    Pow2Add(l - 1, h - l + 1);
    assert Pow2(h - l + 1) == 2 * Pow2(h - l);
    EvenRoom(q, Pow2(h - l), Pow2(l - 1));
  }

  /** Two symbols of equal length join into one that is a bit shorter. */
  lemma Join(w: seq<nat>, len: seq<nat>, h: nat, a: nat, b: nat) returns (r: seq<nat>)
    requires Feasible(w, len, h) && a < |w| && b < |w| && a != b && w[a] > 0 && w[b] > 0
    requires len[a] == len[b] >= 1
    ensures Feasible(Merge(w, a, b), r, h)
    ensures Cost(Merge(w, a, b), r) + w[a] + w[b] == Cost(w, len)
  {
    var l := len[a];
    r := len[a := l - 1];
    var w1 := w[a := w[a] + w[b]];
    JoinKraft(w, len, h, a, b);
    CostSet(w, len, a, l - 1);
    CostSetWeight(w, r, a, w[a] + w[b]);
    CostSetWeight(w1, r, b, 0);
    JoinCost(w[a], w[b], l, Cost(w, len), Cost(w, r), Cost(w1, r), Cost(Merge(w, a, b), r));
  }

  lemma JoinKraft(w: seq<nat>, len: seq<nat>, h: nat, a: nat, b: nat)
    requires |w| == |len| && a < |w| && b < |w| && a != b && w[a] > 0 && w[b] > 0
    requires 1 <= len[a] == len[b] <= h
    ensures KraftSum(Merge(w, a, b), len[a := len[a] - 1], h) == KraftSum(w, len, h)
  {
    var l := len[a];
    var r := len[a := l - 1];
    var w1 := w[a := w[a] + w[b]];
    KraftSet(w, len, h, a, l - 1, w[a] + w[b]);
    KraftSet(w1, r, h, b, r[b], 0);
    assert r[b := r[b]] == r;
    assert Pow2(h - (l - 1)) == 2 * Pow2(h - l);
  }

  lemma JoinCost(x: nat, y: nat, l: nat, c0: nat, c1: nat, c2: nat, c3: nat)
    requires l >= 1
    requires c1 + x * l == c0 + x * (l - 1)
    requires c2 + x * (l - 1) == c1 + (x + y) * (l - 1)
    requires c3 + y * l == c2 + 0 * l
    ensures c3 + x + y == c0
  {
    assert (x + y) * (l - 1) == x * (l - 1) + y * (l - 1);
    assert x * l == x * (l - 1) + x;
    assert y * l == y * (l - 1) + y;
  }

  /** With two symbols in use, no length can be zero at both, so the longest is at least one. */
  lemma LongestPositive(w: seq<nat>, len: seq<nat>, h: nat, a: nat, b: nat, m: nat)
    requires Feasible(w, len, h) && a < |w| && b < |w| && a != b && w[a] > 0 && w[b] > 0 && Longest(w, len, m)
    ensures len[m] >= 1
  {
    if len[m] == 0 {
      TwoTerms(w, len, h, if a < b then a else b, if a < b then b else a);
    }
  }

  /**
   One merge of the two lightest loses nothing: from any code lengths there are code
   lengths for the merged symbols that are cheaper by the sum of the two weights.
   */
  lemma {:induction false} MergeStep(w: seq<nat>, len: seq<nat>, h: nat, a: nat, b: nat) returns (r: seq<nat>)
    requires Feasible(w, len, h) && TwoLightest(w, a, b)
    ensures Feasible(Merge(w, a, b), r, h)
    ensures Cost(Merge(w, a, b), r) + w[a] + w[b] <= Cost(w, len)
    decreases Cost(w, len)
  {
    var m := FindLongest(w, len, a);
    LongestPositive(w, len, h, a, b, m);
    if forall j :: 0 <= j < |w| && w[j] > 0 && j != m ==> len[j] < len[m] {
      var len' := Shorten(w, len, h, m);
      r := MergeStep(w, len', h, a, b);
    } else {
      var m2 :| 0 <= m2 < |w| && w[m2] > 0 && m2 != m && len[m2] == len[m];
      var len1 := BringToLongest(w, len, h, a, if m == b then m2 else m);
      var len2 := len1;
      if len1[b] != len[m] {
        len2 := SecondToLongest(w, len, len1, h, a, b, m, m2);
      }
      r := Join(w, len2, h, a, b);
    }
  }

  /** Give a the length of m, which is a longest one. */
  lemma BringToLongest(w: seq<nat>, len: seq<nat>, h: nat, a: nat, m: nat) returns (r: seq<nat>)
    requires Feasible(w, len, h) && Lightest(w, a, -1) && Longest(w, len, m)
    ensures Feasible(w, r, h) && Cost(w, r) <= Cost(w, len)
    ensures r == len[a := len[m]][m := len[a]] && r[a] == len[m]
  {
    if a == m {
      r := len;
      assert len[a := len[m]][m := len[a]] == len;
    } else {
      r := Swap(w, len, h, a, m);
    }
  }

  lemma SecondToLongest(w: seq<nat>, len: seq<nat>, len1: seq<nat>, h: nat, a: nat, b: nat, m: nat, m2: nat) returns (r: seq<nat>)
    requires |w| == |len| && TwoLightest(w, a, b) && Longest(w, len, m) && m2 < |w| && w[m2] > 0 && m2 != m && len[m2] == len[m]
    requires var x := if m == b then m2 else m; len1 == len[a := len[x]][x := len[a]]
    requires Feasible(w, len1, h) && len1[a] == len[m] && len1[b] != len[m]
    ensures Feasible(w, r, h) && Cost(w, r) <= Cost(w, len1)
    ensures r[a] == r[b] == len[m]
  {
    var x := if m == b then m2 else m;
    var y := if x == m then m2 else m;
    // y kept its length unless it is a, and then x did
    var z := if y == a then x else y;
    r := Swap(w, len1, h, b, z);
  }

  // ---------------------------------------------------------------- the merging procedure

  /** The search starts from this count: larger ones are never found. */
  const LIMIT: nat := 1_000_000_000

  /** The index found by looking for a smallest nonzero weight among the first n; the last one in case of ties. */
  function Select(w: seq<nat>, ex: int, n: nat): (c: int)
    requires n <= |w|
    ensures -1 <= c < n && (c >= 0 ==> w[c] > 0 && c != ex)
  {
    if n == 0 then -1
    else
      var c := Select(w, ex, n - 1);
      if 0 < w[n - 1] <= (if c < 0 then LIMIT else w[c]) && n - 1 != ex then n - 1 else c
  }

  /** A count within the limit is found if there is one, and none found or left out is lighter. */
  lemma {:induction false} SelectLeast(w: seq<nat>, ex: int, n: nat)
    requires n <= |w|
    ensures var c := Select(w, ex, n);
            (c >= 0 ==> w[c] <= LIMIT) &&
            forall j :: 0 <= j < n && j != ex && w[j] > 0 ==> if c < 0 then w[j] > LIMIT else w[c] <= w[j] && (j > c ==> w[c] < w[j])
  {
    if n > 0 { SelectLeast(w, ex, n - 1); }
  }

  /** The two searches find the two lightest symbols; or there are not two within the limit. */
  lemma SelectTwo(w: seq<nat>)
    ensures var a := Select(w, -1, |w|); var b := Select(w, a, |w|);
            if b >= 0 then a >= 0 && TwoLightest(w, a, b) && w[a] <= LIMIT && w[b] <= LIMIT
            else forall j :: 0 <= j < |w| && w[j] > 0 && j != a ==> w[j] > LIMIT
  {
    SelectLeast(w, -1, |w|);
    SelectLeast(w, Select(w, -1, |w|), |w|);
  }

  /** The cost of merging the two lightest until one is left. */
  function MergeCost(w: seq<nat>): nat
    decreases CountUsed(w)
  {
    var a := Select(w, -1, |w|);
    var b := Select(w, a, |w|);
    if a < 0 || b < 0 then 0
    else
      MergeTotals(w, a, b);
      w[a] + w[b] + MergeCost(Merge(w, a, b))
  }

  /** The roots that are left when no two within the search limit can be found. */
  function MergeEnd(w: seq<nat>): (r: seq<nat>)
    ensures |r| == |w|
    decreases CountUsed(w)
  {
    var a := Select(w, -1, |w|);
    var b := Select(w, a, |w|);
    if a < 0 || b < 0 then w
    else
      MergeTotals(w, a, b);
      MergeEnd(Merge(w, a, b))
  }

  /** Merging goes on until one root is left. */
  predicate OneTree(w: seq<nat>)
  {
    CountUsed(MergeEnd(w)) == 1
  }

  lemma {:induction false} MergeEndTotals(w: seq<nat>)
    ensures Total(MergeEnd(w)) == Total(w)
    ensures CountUsed(w) >= 1 ==> CountUsed(MergeEnd(w)) >= 1
    decreases CountUsed(w)
  {
    var a := Select(w, -1, |w|);
    var b := Select(w, a, |w|);
    if a >= 0 && b >= 0 {
      MergeTotals(w, a, b);
      TotalAtLeast(Merge(w, a, b), a);
      MergeEndTotals(Merge(w, a, b));
    }
  }

  lemma {:induction false} EndCost(w: seq<nat>)
    ensures MergeCost(MergeEnd(w)) == 0
    decreases CountUsed(w)
  {
    var a := Select(w, -1, |w|);
    var b := Select(w, a, |w|);
    if a >= 0 && b >= 0 {
      MergeTotals(w, a, b);
      EndCost(Merge(w, a, b));
    }
  }

  /** A count above the limit is never merged. */
  lemma {:induction false} HeavyStays(w: seq<nat>, s: nat)
    requires s < |w| && w[s] > LIMIT
    ensures MergeEnd(w)[s] == w[s]
    decreases CountUsed(w)
  {
    var a := Select(w, -1, |w|);
    var b := Select(w, a, |w|);
    SelectTwo(w);
    if a >= 0 && b >= 0 {
      MergeTotals(w, a, b);
      HeavyStays(Merge(w, a, b), s);
    }
  }

  lemma {:induction false} NoneUsed(w: seq<nat>)
    requires forall j :: 0 <= j < |w| ==> w[j] == 0
    ensures CountUsed(w) == 0
  {
    if w != [] { NoneUsed(w[1..]); }
  }

  lemma {:induction false} OneUsed(w: seq<nat>, a: int)
    requires forall j :: 0 <= j < |w| && w[j] > 0 ==> j == a
    ensures CountUsed(w) <= 1
  {
    if w != [] {
      if a == 0 { NoneUsed(w[1..]); } else { OneUsed(w[1..], a - 1); }
    }
  }

  /** A total within the limit is enough for a single tree. */
  lemma {:induction false} LightEnough(w: seq<nat>)
    requires 0 < Total(w) <= LIMIT
    ensures OneTree(w)
    decreases CountUsed(w)
  {
    var a := Select(w, -1, |w|);
    var b := Select(w, a, |w|);
    SelectTwo(w);
    if a >= 0 && b >= 0 {
      MergeTotals(w, a, b);
      LightEnough(Merge(w, a, b));
    } else {
      forall j | 0 <= j < |w| && w[j] > 0 ensures j == a { TotalAtLeast(w, j); }
      OneUsed(w, a);
      if CountUsed(w) == 0 { UnusedTotal(w); }
    }
  }

  lemma {:induction false} UnusedTotal(w: seq<nat>)
    requires CountUsed(w) == 0
    ensures Total(w) == 0
  {
    if w != [] { UnusedTotal(w[1..]); }
  }

  lemma {:induction false} SingleTotal(w: seq<nat>, i: nat)
    requires i < |w| && w[i] > 0 && CountUsed(w) == 1
    ensures Total(w) == w[i]
  {
    if i > 0 {
      TotalAtLeast(w[1..], i - 1);
      SingleTotal(w[1..], i - 1);
    } else {
      UnusedTotal(w[1..]);
    }
  }

  /** Twice the limit is too much: the last two roots to be merged are both within it. */
  lemma {:induction false} OneTreeTotal(w: seq<nat>)
    requires OneTree(w) && CountUsed(w) >= 2
    ensures Total(w) <= 2 * LIMIT
    decreases CountUsed(w)
  {
    var a := Select(w, -1, |w|);
    var b := Select(w, a, |w|);
    SelectTwo(w);
    var r := Merge(w, a, b);
    MergeTotals(w, a, b);
    if CountUsed(r) >= 2 {
      OneTreeTotal(r);
    } else {
      SingleTotal(r, a);
    }
  }

  /** No code lengths within the Kraft bound cost less than the merging procedure. */
  lemma {:induction false} MergeCostLeast(w: seq<nat>, len: seq<nat>, h: nat)
    requires Feasible(w, len, h)
    ensures MergeCost(w) <= Cost(w, len)
    decreases CountUsed(w)
  {
    var a := Select(w, -1, |w|);
    var b := Select(w, a, |w|);
    SelectTwo(w);
    if a >= 0 && b >= 0 {
      MergeTotals(w, a, b);
      var r := MergeStep(w, len, h, a, b);
      MergeCostLeast(Merge(w, a, b), r, h);
    }
  }

  // ---------------------------------------------------------------- prefix codes

  /** No used symbol's code is a prefix of another's. */
  ghost predicate PrefixCode(w: seq<nat>, code: seq<BitString>)
  {
    |code| == |w| && forall i, j :: 0 <= i < |w| && 0 <= j < |w| && i != j && w[i] > 0 && w[j] > 0 ==> !(code[i] <= code[j])
  }

  function Lengths(code: seq<BitString>): (len: seq<nat>)
    ensures |len| == |code|
  {
    seq(|code|, i requires 0 <= i < |code| => |code[i]|)
  }

  /** The weights of the symbols whose code starts with bit b. */
  function Side(w: seq<nat>, code: seq<BitString>, b: bool): (r: seq<nat>)
    requires |code| == |w|
    ensures |r| == |w|
  {
    seq(|w|, i requires 0 <= i < |w| => if code[i] != [] && code[i][0] == b then w[i] else 0)
  }

  function Tails(code: seq<BitString>): (r: seq<BitString>)
    ensures |r| == |code|
  {
    seq(|code|, i requires 0 <= i < |code| => if code[i] == [] then [] else code[i][1..])
  }

  lemma SidesPrefix(w: seq<nat>, code: seq<BitString>, b: bool)
    requires PrefixCode(w, code)
    ensures PrefixCode(Side(w, code, b), Tails(code))
  {
    var w', code' := Side(w, code, b), Tails(code);
    forall i, j | 0 <= i < |w| && 0 <= j < |w| && i != j && w'[i] > 0 && w'[j] > 0
      ensures !(code'[i] <= code'[j])
    {
      SameHeadPrefix(b, code[i], code[j]);
    }
  }

  lemma SameHeadPrefix(b: bool, x: BitString, y: BitString)
    requires x != [] && y != [] && x[0] == y[0] == b
    ensures x[1..] <= y[1..] <==> x <= y
  {
    assert x == [b] + x[1..] && y == [b] + y[1..];
    assert x[1..] <= y[1..] ==> [b] + x[1..] <= [b] + y[1..];
    assert x <= y ==> x[1..] <= y[1..];
  }

  lemma {:induction false} SplitSum(w: seq<nat>, len: seq<nat>, w0: seq<nat>, w1: seq<nat>, len': seq<nat>, h: nat)
    requires |w| == |len| == |w0| == |w1| == |len'| && h > 0
    requires forall i :: 0 <= i < |w| ==> Term(w[i], len[i], h) == Term(w0[i], len'[i], h - 1) + Term(w1[i], len'[i], h - 1)
    ensures KraftSum(w, len, h) == KraftSum(w0, len', h - 1) + KraftSum(w1, len', h - 1)
  {
    if w != [] {
      forall i | 0 <= i < |w[1..]|
        ensures Term(w[1..][i], len[1..][i], h) == Term(w0[1..][i], len'[1..][i], h - 1) + Term(w1[1..][i], len'[1..][i], h - 1)
      {
        assert w[1..][i] == w[i + 1];
      }
      SplitSum(w[1..], len[1..], w0[1..], w1[1..], len'[1..], h);
    }
  }

  lemma {:induction false} OnlyTerm(w: seq<nat>, len: seq<nat>, h: nat, i: int)
    requires |w| == |len|
    requires forall j :: 0 <= j < |w| && w[j] > 0 ==> j == i
    ensures KraftSum(w, len, h) == if 0 <= i < |w| then Term(w[i], len[i], h) else 0
  {
    if w != [] {
      OnlyTerm(w[1..], len[1..], h, i - 1);
    }
  }

  /** The Kraft inequality: a prefix code's lengths are feasible. */
  lemma {:induction false} KraftInequality(w: seq<nat>, code: seq<BitString>, h: nat)
    requires PrefixCode(w, code) && forall i :: 0 <= i < |w| && w[i] > 0 ==> |code[i]| <= h
    ensures Feasible(w, Lengths(code), h)
    decreases h
  {
    var len := Lengths(code);
    if i :| 0 <= i < |w| && w[i] > 0 && code[i] == [] {
      forall j | 0 <= j < |w| && w[j] > 0 ensures j == i {
        assert code[i] <= code[j];
      }
      OnlyTerm(w, len, h, i);
    } else if h == 0 {
      OnlyTerm(w, len, h, -1);
    } else {
      var w0, w1, code' := Side(w, code, false), Side(w, code, true), Tails(code);
      SidesPrefix(w, code, false);
      SidesPrefix(w, code, true);
      KraftInequality(w0, code', h - 1);
      KraftInequality(w1, code', h - 1);
      SideTerms(w, code, h);
      SplitSum(w, len, w0, w1, Lengths(code'), h);
    }
  }

  /** A code of at least one bit is on one of the two sides, and one bit shorter there. */
  lemma SideTerms(w: seq<nat>, code: seq<BitString>, h: nat)
    requires |code| == |w| && h > 0 && forall i :: 0 <= i < |w| && w[i] > 0 ==> code[i] != []
    ensures var len' := Lengths(Tails(code));
            forall i :: 0 <= i < |w| ==>
              (Term(w[i], Lengths(code)[i], h) == Term(Side(w, code, false)[i], len'[i], h - 1) + Term(Side(w, code, true)[i], len'[i], h - 1))
  {
  }

  lemma {:induction false} LongestCode(code: seq<BitString>) returns (h: nat)
    ensures forall i :: 0 <= i < |code| ==> |code[i]| <= h
  {
    if code == [] {
      h := 0;
    } else {
      var h' := LongestCode(code[1..]);
      h := if |code[0]| > h' then |code[0]| else h';
      forall i | 0 <= i < |code| ensures |code[i]| <= h {
        if i > 0 { assert code[i] == code[1..][i - 1]; }
      }
    }
  }

  /** No prefix code for the used symbols is cheaper than the merging procedure. */
  lemma NoPrefixCodeCheaper(w: seq<nat>, code: seq<BitString>)
    requires PrefixCode(w, code)
    ensures MergeCost(w) <= Cost(w, Lengths(code))
  {
    var h := LongestCode(code);
    KraftInequality(w, code, h);
    MergeCostLeast(w, Lengths(code), h);
  }
}
