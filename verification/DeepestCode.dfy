/**
 Counts that reach the error for a code of more than 32 bits, with the least total that can:
 Fibonacci numbers, in an order that makes every tie go to the tree.
 */
module DeepestCode {
  import opened HuffmanCost
  import opened MergeTree
  import opened OptimalTable

  /** The symbols from 255 down are counted F(1), F(2), F(3), ... times, depth of them. */
  predicate Fibonacci(given: seq<nat>, depth: nat)
    requires depth <= 256
  {
    |given| == N && forall s :: 0 <= s < N ==> given[s] == if 256 - depth <= s <= 255 then Fib(256 - s) else 0
  }

  /** The only tree after k merges has its root here. */
  function Root(k: nat): nat
    requires 1 <= k <= 256
  {
    if k == 1 then 256 else 256 - k
  }

  /** After k merges one tree has grown, with the reserved symbol k levels down; the other symbols are untouched. */
  ghost predicate Stage(freq: seq<nat>, owner: seq<int>, cs: seq<nat>, k: nat, depth: nat)
  {
    1 <= k <= depth <= 256 && |freq| == |owner| == |cs| == N && owner[256] == Root(k) && cs[256] == k &&
    forall s: nat {:trigger CountAt(freq, k, depth, s)} :: s < N ==> CountAt(freq, k, depth, s)
  }

  predicate CountAt(freq: seq<nat>, k: nat, depth: nat, s: nat)
    requires |freq| == N && 1 <= k <= depth <= 256 && s < N
  {
    freq[s] == if s == Root(k) then Fib(k + 2) else if 256 - depth <= s < 256 - k then Fib(256 - s) else 0
  }

  lemma {:induction false} FibPositive(n: nat)
    requires n >= 1
    ensures Fib(n) >= 1
  {
    if n >= 2 { FibPositive(n - 1); }
  }

  /** The next symbol is the lightest, and of those that follow the tree comes last. */
  lemma NextTwo(freq: seq<nat>, owner: seq<int>, cs: seq<nat>, k: nat, depth: nat)
    requires Stage(freq, owner, cs, k, depth) && k < depth && Fib(depth + 2) <= LIMIT
    ensures Select(freq, -1, N) == 255 - k && Select(freq, 255 - k, N) == Root(k)
  {
    var leaf, r := 255 - k, Root(k);
    assert CountAt(freq, k, depth, leaf) && CountAt(freq, k, depth, r);
    FibNext(k);
    FibPositive(k);
    FibPositive(k + 1);
    FibMono(k + 2, depth + 2);
    forall j: nat | j < N && freq[j] > 0
      ensures freq[leaf] <= freq[j] && (j > leaf ==> freq[leaf] < freq[j])
      ensures j != leaf ==> freq[r] <= freq[j] && j <= r
    {
      assert CountAt(freq, k, depth, j);
      if j < leaf { FibMono(k + 2, 256 - j); }
    }
    SelectIs(freq, -1, N, leaf);
    SelectIs(freq, leaf, N, r);
  }

  lemma NextStage(freq: seq<nat>, owner: seq<int>, cs: seq<nat>, k: nat, k': nat, depth: nat)
    requires Stage(freq, owner, cs, k, depth) && k' == k + 1 <= depth
    ensures Stage(Merge(freq, 255 - k, Root(k)), Joined(owner, 255 - k, Root(k)), Deeper(cs, owner, 255 - k, Root(k)), k', depth)
  {
    var freq' := Merge(freq, 255 - k, Root(k));
    FibNext(k + 1);
    assert CountAt(freq, k, depth, 255 - k) && CountAt(freq, k, depth, Root(k));
    forall s: nat | s < N ensures CountAt(freq', k', depth, s) {
      assert CountAt(freq, k, depth, s);
    }
  }

  lemma LastStage(freq: seq<nat>, owner: seq<int>, cs: seq<nat>, k: nat)
    requires Stage(freq, owner, cs, k, k) && Fib(k + 2) <= LIMIT
    ensures SizesEnd(freq, owner, cs) == cs && Total(freq) == Fib(k + 2)
  {
    assert CountAt(freq, k, k, Root(k));
    FibPositive(k + 2);
    forall j: nat | j < N && freq[j] > 0 ensures j == Root(k) { assert CountAt(freq, k, k, j); }
    OnlyRoot(freq, owner, cs, Root(k));
  }

  lemma {:induction false} Climb(freq: seq<nat>, owner: seq<int>, cs: seq<nat>, k: nat, depth: nat)
    requires Stage(freq, owner, cs, k, depth) && Fib(depth + 2) <= LIMIT
    ensures SizesEnd(freq, owner, cs)[256] == depth && Total(freq) == Fib(depth + 2)
    decreases depth - k
  {
    if k < depth {
      var leaf, r := 255 - k, Root(k);
      NextTwo(freq, owner, cs, k, depth);
      MergeTotals(freq, leaf, r);
      NextStage(freq, owner, cs, k, k + 1, depth);
      Climb(Merge(freq, leaf, r), Joined(owner, leaf, r), Deeper(cs, owner, leaf, r), k + 1, depth);
    } else {
      LastStage(freq, owner, cs, k);
    }
  }

  lemma OnlyRoot(freq: seq<nat>, owner: seq<int>, cs: seq<nat>, r: nat)
    requires |freq| == |owner| == |cs| && r < |freq| && 0 < freq[r] <= LIMIT && forall j: nat :: j < |freq| && freq[j] > 0 ==> j == r
    ensures SizesEnd(freq, owner, cs) == cs && Total(freq) == freq[r]
  {
    SelectIs(freq, -1, |freq|, r);
    SelectLeast(freq, r, |freq|);
    OneUsed(freq, r);
    TotalAtLeast(freq, r);
    SingleTotal(freq, r);
  }

  /** Fibonacci counts give the reserved symbol one bit for each of them. */
  lemma FibonacciDepth(given: seq<nat>, depth: nat)
    requires 1 <= depth <= 256 && Fibonacci(given, depth) && Fib(depth + 2) <= LIMIT
    ensures SizesOf(given)[256] == depth && Total(given[..256]) == Fib(depth + 2) - 1
  {
    var f := WithReserved(given);
    ReservedTotals(given);
    assert Fib(1) == 1 && Fib(2) == 1 && Fib(3) == 2;
    SelectIs(f, -1, N, 256);
    SelectIs(f, 256, N, 255);
    MergeTotals(f, 256, 255);
    var freq, owner, cs := Merge(f, 256, 255), Joined(SelfOwner(f), 256, 255), Deeper(NoSizes(N), SelfOwner(f), 256, 255);
    forall s: nat | s < N ensures CountAt(freq, 1, depth, s) {}
    Climb(freq, owner, cs, 1, depth);
    assert SizesOf(given) == SizesEnd(freq, owner, cs);
  }

  /** 33 of them are too deep; their total is the bound of OverlongIsHeavy, so no smaller total is. */
  lemma FibonacciOverlong(given: seq<nat>)
    requires Fibonacci(given, 33)
    ensures SizesOf(given)[256] == 33 && Overlong(given)
    ensures Total(given[..256]) == HEAVY - 1
  {
    assert Fib(10) == 55 && Fib(11) == 89;
    assert Fib(20) == 6765 && Fib(21) == 10946;
    assert Fib(30) == 832040 && Fib(31) == 1346269;
    FibonacciDepth(given, 33);
  }
}
