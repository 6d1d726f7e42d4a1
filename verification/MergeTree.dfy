/**
 The merging phase of jpeg_gen_optimal_table: trees kept as chains threaded through the
 array `others`, a root's count in freq, and every symbol's depth in codesize.
 */
module MergeTree {
  import opened Bits
  import opened HuffmanCost

  const N: nat := 257

  // ---------------------------------------------------------------- sums over the symbols of a tree

  /** Kraft sums are measured in units of 2^-32. */
  const UNIT: real := 4294967296.0

  /** The share of the Kraft sum a code of length n takes, 2^-n. */
  function HalfPow(n: nat): (r: real)
    ensures r > 0.0
  {
    if n == 0 then UNIT else HalfPow(n - 1) / 2.0
  }

  /** The total count of the symbols owned by c. */
  function Weight(f: seq<nat>, owner: seq<int>, c: int): nat
    requires |f| == |owner|
  {
    if f == [] then 0 else (if owner[0] == c then f[0] else 0) + Weight(f[1..], owner[1..], c)
  }

  /** The Kraft sum of the symbols owned by c. */
  function KraftOf(cs: seq<nat>, owner: seq<int>, c: int): real
    requires |cs| == |owner|
  {
    if cs == [] then 0.0 else (if owner[0] == c then HalfPow(cs[0]) else 0.0) + KraftOf(cs[1..], owner[1..], c)
  }

  /** The Kraft sum of all used symbols. */
  function KraftUsed(f: seq<nat>, cs: seq<nat>): real
    requires |f| == |cs|
  {
    if f == [] then 0.0 else (if f[0] > 0 then HalfPow(cs[0]) else 0.0) + KraftUsed(f[1..], cs[1..])
  }

  /** a takes over everything b owns. */
  function Joined(owner: seq<int>, a: int, b: int): (r: seq<int>)
    ensures |r| == |owner|
  {
    seq(|owner|, i requires 0 <= i < |owner| => if owner[i] == b then a else owner[i])
  }

  /** Everything a or b owns is one level deeper. */
  function Deeper(cs: seq<nat>, owner: seq<int>, a: int, b: int): (r: seq<nat>)
    requires |cs| == |owner|
    ensures |r| == |cs|
  {
    seq(|cs|, i requires 0 <= i < |cs| => if owner[i] == a || owner[i] == b then cs[i] + 1 else cs[i])
  }

  lemma JoinedTail(cs: seq<nat>, owner: seq<int>, a: int, b: int)
    requires |cs| == |owner| && cs != []
    ensures Joined(owner, a, b)[1..] == Joined(owner[1..], a, b)
    ensures Deeper(cs, owner, a, b)[1..] == Deeper(cs[1..], owner[1..], a, b)
  {
  }

  lemma {:induction false} JoinWeight(f: seq<nat>, owner: seq<int>, a: int, b: int, c: int)
    requires |f| == |owner| && a != b && c != b
    ensures Weight(f, Joined(owner, a, b), c) == Weight(f, owner, c) + (if c == a then Weight(f, owner, b) else 0)
  {
    if f != [] {
      JoinedTail(f, owner, a, b);
      JoinWeight(f[1..], owner[1..], a, b, c);
    }
  }

  lemma {:induction false} JoinKraftOf(cs: seq<nat>, owner: seq<int>, a: int, b: int, c: int)
    requires |cs| == |owner| && a != b && c != b
    ensures KraftOf(Deeper(cs, owner, a, b), Joined(owner, a, b), c)
            == if c == a then (KraftOf(cs, owner, a) + KraftOf(cs, owner, b)) / 2.0 else KraftOf(cs, owner, c)
  {
    if cs != [] {
      JoinedTail(cs, owner, a, b);
      JoinKraftOf(cs[1..], owner[1..], a, b, c);
    }
  }

  lemma {:induction false} DeeperCost(f: seq<nat>, cs: seq<nat>, owner: seq<int>, a: int, b: int)
    requires |f| == |cs| == |owner| && a != b
    ensures Cost(f, Deeper(cs, owner, a, b)) == Cost(f, cs) + Weight(f, owner, a) + Weight(f, owner, b)
  {
    if f != [] {
      JoinedTail(cs, owner, a, b);
      DeeperCost(f[1..], cs[1..], owner[1..], a, b);
      assert f[0] * (cs[0] + 1) == f[0] * cs[0] + f[0];
    }
  }

  /** Going down one level halves the share of what a or b owns. */
  lemma {:induction false} DeeperKraft(f: seq<nat>, cs: seq<nat>, owner: seq<int>, a: int, b: int)
    requires |f| == |cs| == |owner| && a != b && a >= 0 && b >= 0
    requires forall s :: 0 <= s < |f| ==> (f[s] == 0 ==> owner[s] == -1)
    ensures KraftUsed(f, Deeper(cs, owner, a, b)) == KraftUsed(f, cs) - (KraftOf(cs, owner, a) + KraftOf(cs, owner, b)) / 2.0
  {
    if f != [] {
      JoinedTail(cs, owner, a, b);
      assert forall s :: 0 <= s < |f[1..]| ==> f[1..][s] == f[s + 1] && owner[1..][s] == owner[s + 1];
      DeeperKraft(f[1..], cs[1..], owner[1..], a, b);
    }
  }

  // ---------------------------------------------------------------- chains

  /** ch lists the symbols reached from c through others, each once. */
  ghost predicate Chain(others: seq<int>, c: int, ch: seq<int>)
  {
    |ch| > 0 && ch[0] == c && (forall i :: 0 <= i < |ch| ==> 0 <= ch[i] < |others|) &&
    (forall i :: 0 <= i < |ch| - 1 ==> others[ch[i]] == ch[i + 1]) && others[ch[|ch| - 1]] < 0 &&
    (forall i, j :: 0 <= i < j < |ch| ==> ch[i] != ch[j])
  }

  /** Which root owns each symbol (-1: unused), and the chain of each root. */
  datatype Forest = Forest(owner: seq<int>, chains: seq<seq<int>>)

  /** Every used symbol belongs to a root. */
  ghost predicate Rooted(f: seq<nat>, freq: seq<nat>, owner: seq<int>)
  {
    |f| == |freq| == |owner| &&
    forall s :: 0 <= s < |f| ==> if f[s] == 0 then owner[s] == -1 else 0 <= owner[s] < |f| && freq[owner[s]] > 0
  }

  /** The chains of the roots partition the used symbols. */
  ghost predicate Threaded(f: seq<nat>, freq: seq<nat>, others: seq<int>, t: Forest)
  {
    Rooted(f, freq, t.owner) && |f| == |others| == |t.chains| &&
    (forall c :: 0 <= c < |f| && freq[c] > 0 ==> Chain(others, c, t.chains[c])) &&
    (forall c, s :: 0 <= c < |f| && freq[c] > 0 && 0 <= s < |f| ==> (s in t.chains[c] <==> t.owner[s] == c))
  }

  /** A root's count is that of its symbols, and its depths fill the Kraft sum exactly. */
  ghost predicate Balanced(f: seq<nat>, freq: seq<nat>, cs: seq<nat>, owner: seq<int>)
  {
    |f| == |freq| == |cs| == |owner| &&
    (forall c :: 0 <= c < |f| && freq[c] > 0 ==> freq[c] == Weight(f, owner, c) && KraftOf(cs, owner, c) == UNIT) &&
    (forall s :: 0 <= s < |f| && f[s] == 0 ==> cs[s] == 0)
  }

  /** Two codes of which neither begins the other. */
  predicate Diverge(code: seq<BitString>, i: nat, j: nat)
    requires i < |code| && j < |code|
  {
    !(code[i] <= code[j]) && !(code[j] <= code[i])
  }

  /** A symbol's depth is the length of the way to it, and the ways within a tree end at different leaves. */
  ghost predicate Coded(cs: seq<nat>, owner: seq<int>, code: seq<BitString>)
  {
    |cs| == |owner| == |code| &&
    (forall s :: 0 <= s < |cs| ==> |code[s]| == cs[s]) &&
    (forall i: nat, j: nat {:trigger Diverge(code, i, j)} :: i < j < |cs| && owner[i] == owner[j] >= 0 ==> Diverge(code, i, j))
  }

  /** No root is so light, nor was any when a symbol last went down, that the symbol can be deeper. */
  ghost predicate Slender(freq: seq<nat>, cs: seq<nat>, owner: seq<int>)
  {
    |freq| == |cs| == |owner| &&
    forall s: nat {:trigger SlenderAt(freq, cs, owner, s)} :: s < |owner| && 0 <= owner[s] < |freq| ==> SlenderAt(freq, cs, owner, s)
  }

  ghost predicate SlenderAt(freq: seq<nat>, cs: seq<nat>, owner: seq<int>, s: nat)
    requires |freq| == |cs| == |owner| && s < |owner| && 0 <= owner[s] < |freq|
  {
    freq[owner[s]] >= Fib(cs[s] + 2) && forall d :: 0 <= d < |freq| && freq[d] > 0 && d != owner[s] ==> freq[d] >= Fib(cs[s] + 1)
  }

  /** The Fibonacci numbers. */
  function Fib(n: nat): nat
  {
    if n < 2 then n else Fib(n - 2) + Fib(n - 1)
  }

  lemma {:induction false} SingleSums(f: seq<nat>, cs: seq<nat>, owner: seq<int>, c: int, k: int)
    requires |f| == |cs| == |owner|
    requires forall s :: 0 <= s < |f| ==> (owner[s] == c <==> s == k)
    requires forall s :: 0 <= s < |cs| ==> cs[s] == 0
    ensures Weight(f, owner, c) == if 0 <= k < |f| then f[k] else 0
    ensures KraftOf(cs, owner, c) == if 0 <= k < |f| then UNIT else 0.0
  {
    if f != [] {
      SingleSums(f[1..], cs[1..], owner[1..], c, k - 1);
    }
  }

  function SelfOwner(f: seq<nat>): (r: seq<int>)
    ensures |r| == |f|
  {
    seq(|f|, i requires 0 <= i < |f| => if f[i] == 0 then -1 else i)
  }

  function SelfForest(f: seq<nat>): (t: Forest)
    ensures |t.owner| == |t.chains| == |f|
  {
    Forest(SelfOwner(f), seq(|f|, i => [i]))
  }

  lemma SelfThreaded(f: seq<nat>, others: seq<int>)
    requires |f| == |others| && forall s :: 0 <= s < |f| ==> others[s] == -1
    ensures Threaded(f, f, others, SelfForest(f))
  {
    var t := SelfForest(f);
    forall c | 0 <= c < |f| && f[c] > 0
      ensures Chain(others, c, t.chains[c])
    {
      assert t.chains[c] == [c];
    }
    forall c, s | 0 <= c < |f| && f[c] > 0 && 0 <= s < |f|
      ensures s in t.chains[c] <==> t.owner[s] == c
    {
      assert t.chains[c] == [c];
    }
  }

  lemma SelfBalanced(f: seq<nat>, cs: seq<nat>)
    requires |f| == |cs| && forall s :: 0 <= s < |f| ==> cs[s] == 0
    ensures Balanced(f, f, cs, SelfOwner(f))
  {
    var owner := SelfOwner(f);
    forall c | 0 <= c < |f| && f[c] > 0
      ensures f[c] == Weight(f, owner, c) && KraftOf(cs, owner, c) == UNIT
    {
      SingleSums(f, cs, owner, c, c);
    }
  }

  function JoinTrees(t: Forest, a: nat, b: nat): (r: Forest)
    requires a < |t.chains| && b < |t.chains|
    ensures |r.owner| == |t.owner| && |r.chains| == |t.chains|
  {
    Forest(Joined(t.owner, a, b), t.chains[a := t.chains[a] + t.chains[b]])
  }

  /** The new root is one step above: to the left to what a owned, to the right to what b owned. */
  function Prefixed(code: seq<BitString>, owner: seq<int>, a: int, b: int): (r: seq<BitString>)
    requires |code| == |owner|
    ensures |r| == |code|
  {
    seq(|code|, i requires 0 <= i < |code| => if owner[i] == a then [false] + code[i] else if owner[i] == b then [true] + code[i] else code[i])
  }

  lemma JoinCoded(cs: seq<nat>, owner: seq<int>, code: seq<BitString>, a: nat, b: nat)
    requires Coded(cs, owner, code) && a != b
    ensures Coded(Deeper(cs, owner, a, b), Joined(owner, a, b), Prefixed(code, owner, a, b))
  {
    var owner', code' := Joined(owner, a, b), Prefixed(code, owner, a, b);
    forall i: nat, j: nat | i < j < |cs| && owner'[i] == owner'[j] >= 0
      ensures Diverge(code', i, j)
    {
      if owner[i] == owner[j] {
        assert Diverge(code, i, j);
        Longer(code[i], code[j]);
      } else {
        assert code'[i][0] != code'[j][0];
      }
    }
  }

  /** A common first step changes nothing. */
  lemma Longer(x: BitString, y: BitString)
    ensures forall b :: [b] + x <= [b] + y <==> x <= y
    ensures forall b :: [b] + y <= [b] + x <==> y <= x
  {
    forall b ensures ([b] + x <= [b] + y <==> x <= y) && ([b] + y <= [b] + x <==> y <= x) {
      assert ([b] + x)[1..] == x && ([b] + y)[1..] == y;
    }
  }

  lemma FibNext(n: nat)
    ensures Fib(n + 2) == Fib(n) + Fib(n + 1)
  {
  }

  /** Merging the two lightest roots keeps every tree slender. */
  lemma JoinSlender(freq: seq<nat>, cs: seq<nat>, owner: seq<int>, a: nat, b: nat)
    requires Slender(freq, cs, owner) && TwoLightest(freq, a, b)
    ensures Slender(Merge(freq, a, b), Deeper(cs, owner, a, b), Joined(owner, a, b))
  {
    var freq', cs', owner' := Merge(freq, a, b), Deeper(cs, owner, a, b), Joined(owner, a, b);
    forall s: nat | s < |owner'| && 0 <= owner'[s] < |freq'|
      ensures SlenderAt(freq', cs', owner', s)
    {
      assert SlenderAt(freq, cs, owner, s);
      FibNext(cs[s] + 1);
    }
  }

  /** Linking the end of a's chain to b makes one tree of the two. */
  lemma JoinThreaded(f: seq<nat>, freq: seq<nat>, others: seq<int>, t: Forest, a: nat, b: nat)
    requires Threaded(f, freq, others, t) && a < |f| && b < |f| && a != b && freq[a] > 0 && freq[b] > 0
    ensures var last := t.chains[a][|t.chains[a]| - 1];
            0 <= last < |f| && Threaded(f, Merge(freq, a, b), others[last := b], JoinTrees(t, a, b))
  {
    var ca, cb := t.chains[a], t.chains[b];
    var last := ca[|ca| - 1];
    assert last in ca && t.owner[last] == a;
    var others', t', freq' := others[last := b], JoinTrees(t, a, b), Merge(freq, a, b);
    forall s | s in ca ensures s !in cb { assert 0 <= s < |f| && t.owner[s] == a; }
    JoinedChain(others, a, b, ca, cb);
    forall c | 0 <= c < |f| && freq'[c] > 0 && c != a
      ensures Chain(others', c, t'.chains[c])
    {
      assert last !in t.chains[c];
      UntouchedChain(others, last, b, c, t.chains[c]);
    }
    forall c, s | 0 <= c < |f| && freq'[c] > 0 && 0 <= s < |f|
      ensures s in t'.chains[c] <==> t'.owner[s] == c
    {
      if c == a { assert s in ca + cb <==> s in ca || s in cb; }
    }
  }

  lemma JoinedChain(others: seq<int>, a: int, b: int, ca: seq<int>, cb: seq<int>)
    requires Chain(others, a, ca) && Chain(others, b, cb)
    requires forall s :: s in ca ==> s !in cb
    ensures Chain(others[ca[|ca| - 1] := b], a, ca + cb)
  {
    var last := ca[|ca| - 1];
    var others', ch := others[last := b], ca + cb;
    assert last !in cb;
    forall i | 0 <= i < |ch| - 1
      ensures others'[ch[i]] == ch[i + 1]
    {
      if i < |ca| - 1 { assert ch[i] == ca[i] != last; }
      if i >= |ca| { assert ch[i] == cb[i - |ca|]; }
    }
    forall i, j | 0 <= i < j < |ch|
      ensures ch[i] != ch[j]
    {
      if i < |ca| <= j { assert ch[i] in ca && ch[j] in cb; }
    }
    assert ch[|ch| - 1] == cb[|cb| - 1];
  }

  lemma UntouchedChain(others: seq<int>, last: nat, b: int, c: int, ch: seq<int>)
    requires Chain(others, c, ch) && last < |others| && last !in ch
    ensures Chain(others[last := b], c, ch)
  {
    forall i | 0 <= i < |ch| ensures ch[i] != last { assert ch[i] in ch; }
  }

  lemma JoinBalanced(f: seq<nat>, freq: seq<nat>, cs: seq<nat>, owner: seq<int>, a: nat, b: nat)
    requires Balanced(f, freq, cs, owner) && a < |f| && b < |f| && a != b && freq[a] > 0 && freq[b] > 0
    requires forall s :: 0 <= s < |f| && f[s] == 0 ==> owner[s] == -1
    ensures Balanced(f, Merge(freq, a, b), Deeper(cs, owner, a, b), Joined(owner, a, b))
  {
    forall c | 0 <= c < |f| && Merge(freq, a, b)[c] > 0
      ensures Merge(freq, a, b)[c] == Weight(f, Joined(owner, a, b), c)
      ensures KraftOf(Deeper(cs, owner, a, b), Joined(owner, a, b), c) == UNIT
    {
      JoinWeight(f, owner, a, b, c);
      JoinKraftOf(cs, owner, a, b, c);
    }
  }

  // ---------------------------------------------------------------- the code sizes

  /** The depths when no two roots within the search limit can be found any more. */
  function SizesEnd(freq: seq<nat>, owner: seq<int>, cs: seq<nat>): (r: seq<nat>)
    requires |freq| == |owner| == |cs|
    ensures |r| == |cs|
    decreases CountUsed(freq)
  {
    var a := Select(freq, -1, |freq|);
    var b := Select(freq, a, |freq|);
    if a < 0 || b < 0 then cs
    else
      MergeTotals(freq, a, b);
      SizesEnd(Merge(freq, a, b), Joined(owner, a, b), Deeper(cs, owner, a, b))
  }

  /** The code sizes the merging phase finds, whatever the counts. */
  function CodeSizes(f: seq<nat>): (r: seq<nat>)
    ensures |r| == |f|
  {
    SizesEnd(f, SelfOwner(f), NoSizes(|f|))
  }

  function NoSizes(n: nat): (r: seq<nat>)
    ensures |r| == n && forall s :: 0 <= s < n ==> r[s] == 0
  {
    seq(n, _ => 0)
  }

  /** What holds of roots, depths and ways at every stage of the merging of f. */
  ghost predicate Grown(f: seq<nat>, freq: seq<nat>, cs: seq<nat>, owner: seq<int>, code: seq<BitString>)
  {
    Rooted(f, freq, owner) && Balanced(f, freq, cs, owner) && Coded(cs, owner, code) && Slender(freq, cs, owner) &&
    Total(freq) == Total(f) && Cost(f, cs) + MergeCost(freq) == MergeCost(f) &&
    KraftUsed(f, cs) == CountUsed(freq) as real * UNIT
  }

  lemma GrowOnce(f: seq<nat>, freq: seq<nat>, cs: seq<nat>, owner: seq<int>, code: seq<BitString>, a: nat, b: nat)
    requires Grown(f, freq, cs, owner, code) && a == Select(freq, -1, |freq|) && b == Select(freq, a, |freq|)
    ensures Grown(f, Merge(freq, a, b), Deeper(cs, owner, a, b), Joined(owner, a, b), Prefixed(code, owner, a, b))
    ensures CountUsed(Merge(freq, a, b)) < CountUsed(freq)
  {
    SelectTwo(freq);
    JoinRooted(f, freq, owner, a, b);
    JoinBalanced(f, freq, cs, owner, a, b);
    JoinCoded(cs, owner, code, a, b);
    JoinSlender(freq, cs, owner, a, b);
    GrowSums(f, freq, cs, owner, a, b);
  }

  lemma JoinRooted(f: seq<nat>, freq: seq<nat>, owner: seq<int>, a: nat, b: nat)
    requires Rooted(f, freq, owner) && a < |f| && b < |f| && a != b && freq[a] > 0
    ensures Rooted(f, Merge(freq, a, b), Joined(owner, a, b))
  {
  }

  lemma GrowSums(f: seq<nat>, freq: seq<nat>, cs: seq<nat>, owner: seq<int>, a: nat, b: nat)
    requires Rooted(f, freq, owner) && Balanced(f, freq, cs, owner) && Total(freq) == Total(f)
    requires Cost(f, cs) + MergeCost(freq) == MergeCost(f) && KraftUsed(f, cs) == CountUsed(freq) as real * UNIT
    requires a == Select(freq, -1, |freq|) && b == Select(freq, a, |freq|)
    ensures var freq', cs' := Merge(freq, a, b), Deeper(cs, owner, a, b);
            Total(freq') == Total(f) && Cost(f, cs') + MergeCost(freq') == MergeCost(f) &&
            KraftUsed(f, cs') == CountUsed(freq') as real * UNIT && CountUsed(freq') < CountUsed(freq)
  {
    MergeTotals(freq, a, b);
    DeeperCost(f, cs, owner, a, b);
    DeeperKraft(f, cs, owner, a, b);
  }

  lemma {:induction false} GrowAll(f: seq<nat>, freq: seq<nat>, cs: seq<nat>, owner: seq<int>, code: seq<BitString>)
    returns (owner': seq<int>, code': seq<BitString>)
    requires Grown(f, freq, cs, owner, code)
    ensures Grown(f, MergeEnd(freq), SizesEnd(freq, owner, cs), owner', code')
    decreases CountUsed(freq)
  {
    var a := Select(freq, -1, |freq|);
    var b := Select(freq, a, |freq|);
    if a < 0 || b < 0 {
      owner', code' := owner, code;
    } else {
      GrowOnce(f, freq, cs, owner, code, a, b);
      owner', code' := GrowAll(f, Merge(freq, a, b), Deeper(cs, owner, a, b), Joined(owner, a, b), Prefixed(code, owner, a, b));
    }
  }

  /** At the end everything that holds at every stage holds of the code sizes. */
  lemma SizesGrown(f: seq<nat>) returns (owner: seq<int>, code: seq<BitString>)
    ensures Grown(f, MergeEnd(f), CodeSizes(f), owner, code)
  {
    var cs: seq<nat>, ways: seq<BitString> := NoSizes(|f|), seq(|f|, _ => []);
    SelfBalanced(f, cs);
    SelfSlender(f, cs);
    ZeroCost(f, cs);
    ZeroKraft(f, cs);
    owner, code := GrowAll(f, f, cs, SelfOwner(f), ways);
  }

  lemma SelfSlender(f: seq<nat>, cs: seq<nat>)
    requires |f| == |cs| && forall s :: 0 <= s < |cs| ==> cs[s] == 0
    ensures Slender(f, cs, SelfOwner(f)) && Coded(cs, SelfOwner(f), seq(|f|, _ => []))
  {
    assert Fib(2) == Fib(1) == 1;
    var owner := SelfOwner(f);
    forall s: nat | s < |f| && 0 <= owner[s] < |f| ensures SlenderAt(f, cs, owner, s) {}
  }

  lemma {:induction false} ZeroCost(f: seq<nat>, cs: seq<nat>)
    requires |f| == |cs| && forall s :: 0 <= s < |cs| ==> cs[s] == 0
    ensures Cost(f, cs) == 0
  {
    if f != [] { ZeroCost(f[1..], cs[1..]); }
  }

  lemma {:induction false} ZeroKraft(f: seq<nat>, cs: seq<nat>)
    requires |f| == |cs| && forall s :: 0 <= s < |cs| ==> cs[s] == 0
    ensures KraftUsed(f, cs) == CountUsed(f) as real * UNIT
  {
    if f != [] { ZeroKraft(f[1..], cs[1..]); }
  }

  // ---------------------------------------------------------------- the loops

  // ---------------------------------------------------------------- the loops

  /** The last of the lightest roots other than ex; -1 if none is within the search limit. */
  method FindSmallest(freq: array<nat>, ex: int) returns (c: int)
    requires freq.Length == N
    ensures c == Select(freq[..], ex, N)
    ensures c < 0 ==> forall j :: 0 <= j < N && j != ex && freq[j] > 0 ==> freq[j] > 1_000_000_000
    ensures c >= 0 ==> c < N && c != ex && 0 < freq[c] <= 1_000_000_000
    ensures c >= 0 ==> forall j :: 0 <= j < N && j != ex && freq[j] > 0 ==> freq[c] <= freq[j] && (j > c ==> freq[c] < freq[j])
  {
    SelectLeast(freq[..], ex, N);
    c := -1;
    var v := LIMIT;
    for i := 0 to N
      invariant c == Select(freq[..], ex, i) && v == if c < 0 then LIMIT else freq[c]
    {
      if freq[i] != 0 && freq[i] <= v && i != ex {
        v := freq[i];
        c := i;
      }
    }
  }

  lemma ChainEnd(others: seq<int>, c: int, ch: seq<int>, k: nat)
    requires Chain(others, c, ch) && k < |ch|
    ensures others[ch[k]] >= 0 <==> k + 1 < |ch|
    ensures k + 1 < |ch| ==> others[ch[k]] == ch[k + 1]
  {
    if k + 1 < |ch| { assert others[ch[k]] == ch[k + 1]; }
  }

  /** Every symbol on c's chain moves one level down; the end of the chain is returned. */
  method BumpChain(c: nat, others: array<int>, codesize: array<nat>, ghost ch: seq<int>) returns (last: nat)
    requires others.Length == codesize.Length == N && codesize as object != others
    requires Chain(others[..], c, ch)
    modifies codesize
    ensures last == ch[|ch| - 1]
    ensures forall s :: 0 <= s < N ==> codesize[s] == old(codesize[s]) + if s in ch then 1 else 0
  {
    last := c;
    ghost var k, links := 0, others[..];
    codesize[last] := codesize[last] + 1;
    while others[last] >= 0
      invariant 0 <= k < |ch| && last == ch[k] && others[..] == links
      invariant forall s :: 0 <= s < N ==> codesize[s] == old(codesize[s]) + if s in ch[..k + 1] then 1 else 0
      decreases |ch| - k
    {
      ghost var before := ch[..k + 1];
      ChainEnd(links, c, ch, k);
      last := others[last];
      k := k + 1;
      assert ch[..k + 1] == before + [last];
      assert last !in before by { assert forall i :: 0 <= i < k ==> before[i] == ch[i] != ch[k]; }
      codesize[last] := codesize[last] + 1;
    }
    ChainEnd(links, c, ch, k);
    assert ch[..k + 1] == ch;
  }

  /** The state of the merging loop: it is on the way to the code sizes of f. */
  ghost predicate Merging(f: seq<nat>, freq: seq<nat>, others: seq<int>, cs: seq<nat>, t: Forest)
  {
    |f| == |cs| == N && Threaded(f, freq, others, t) &&
    MergeEnd(freq) == MergeEnd(f) && SizesEnd(freq, t.owner, cs) == CodeSizes(f)
  }

  lemma MergeOnce(f: seq<nat>, freq: seq<nat>, others: seq<int>, cs: seq<nat>, t: Forest, a: nat, b: nat, last: nat)
    requires Merging(f, freq, others, cs, t) && a == Select(freq, -1, N) && b == Select(freq, a, N)
    requires last == t.chains[a][|t.chains[a]| - 1]
    ensures Merging(f, Merge(freq, a, b), others[last := b], Deeper(cs, t.owner, a, b), JoinTrees(t, a, b))
    ensures CountUsed(Merge(freq, a, b)) < CountUsed(freq)
  {
    JoinThreaded(f, freq, others, t, a, b);
    MergeTotals(freq, a, b);
  }

  /** Move both trees one level down, and chain b's onto the end of a's. */
  method LinkChains(a: nat, b: nat, others: array<int>, codesize: array<nat>, ghost f: seq<nat>, ghost freq: seq<nat>, ghost t: Forest)
    returns (last: nat)
    requires others.Length == codesize.Length == N == |f| && codesize as object != others
    requires Threaded(f, freq, others[..], t) && a < N && b < N && a != b && freq[a] > 0 && freq[b] > 0
    modifies others, codesize
    ensures last == t.chains[a][|t.chains[a]| - 1] < N
    ensures others[..] == old(others[..])[last := b]
    ensures codesize[..] == Deeper(old(codesize[..]), t.owner, a, b)
  {
    ghost var ca, cb := t.chains[a], t.chains[b];
    ghost var links, cs := others[..], codesize[..];
    last := BumpChain(a, others, codesize, ca);
    assert t.owner[last] == a by { assert last in ca; }
    assert last !in cb;
    others[last] := b;
    assert others[..] == links[last := b];
    UntouchedChain(links, last, b, b, cb);
    var end := BumpChain(b, others, codesize, cb);
    BumpedTwice(f, freq, links, t, a, b, cs, codesize[..]);
  }

  method AddCounts(a: nat, b: nat, freq: array<nat>)
    requires freq.Length == N && a < N && b < N && a != b
    modifies freq
    ensures freq[..] == Merge(old(freq[..]), a, b)
    ensures forall s :: 0 <= s < N ==> freq[s] == if s == a then old(freq[a]) + old(freq[b]) else if s == b then 0 else old(freq[s])
  {
    freq[a] := freq[a] + freq[b];
    freq[b] := 0;
  }

  /** One round of the loop: merge the trees of a and b. */
  method MergeTrees(a: nat, b: nat, freq: array<nat>, others: array<int>, codesize: array<nat>, ghost f: seq<nat>, ghost t: Forest)
    requires freq.Length == others.Length == codesize.Length == N && freq != codesize
    requires codesize as object != others && freq as object != others
    requires Merging(f, freq[..], others[..], codesize[..], t)
    requires a == Select(freq[..], -1, N) && b == Select(freq[..], a, N)
    modifies freq, others, codesize
    ensures freq[..] == Merge(old(freq[..]), a, b)
    ensures Merging(f, freq[..], others[..], codesize[..], JoinTrees(t, a, b))
    ensures CountUsed(freq[..]) < CountUsed(old(freq[..]))
  {
    ghost var freq0, others0, cs0 := freq[..], others[..], codesize[..];
    AddCounts(a, b, freq);
    var last := LinkChains(a, b, others, codesize, f, freq0, t);
    MergeOnce(f, freq0, others0, cs0, t, a, b, last);
  }

  lemma BumpedTwice(f: seq<nat>, freq: seq<nat>, others: seq<int>, t: Forest, a: nat, b: nat, cs: seq<nat>, cs': seq<nat>)
    requires Threaded(f, freq, others, t) && |cs| == |cs'| == |f| && a < |f| && b < |f| && a != b && freq[a] > 0 && freq[b] > 0
    requires forall s :: 0 <= s < |f| ==> cs'[s] == cs[s] + (if s in t.chains[a] then 1 else 0) + (if s in t.chains[b] then 1 else 0)
    ensures cs' == Deeper(cs, t.owner, a, b)
  {
    forall s | 0 <= s < |f|
      ensures cs'[s] == Deeper(cs, t.owner, a, b)[s]
    {
      assert s in t.chains[a] <==> t.owner[s] == a;
      assert s in t.chains[b] <==> t.owner[s] == b;
    }
  }

  /** Merge until fewer than two roots can be found. */
  method MergeLoop(freq: array<nat>, others: array<int>, codesize: array<nat>, ghost f: seq<nat>, ghost t0: Forest)
    requires freq.Length == others.Length == codesize.Length == N && freq != codesize
    requires codesize as object != others && freq as object != others
    requires Merging(f, freq[..], others[..], codesize[..], t0)
    modifies freq, others, codesize
    ensures freq[..] == MergeEnd(f) && codesize[..] == CodeSizes(f)
  {
    ghost var t := t0;
    while true
      invariant Merging(f, freq[..], others[..], codesize[..], t)
      decreases CountUsed(freq[..])
    {
      var c1 := FindSmallest(freq, -1);
      var c2 := FindSmallest(freq, c1);
      if c2 < 0 {
        break;
      }
      SelectTwo(freq[..]);
      MergeTrees(c1, c2, freq, others, codesize, f, t);
      t := JoinTrees(t, c1, c2);
    }
  }

  /** The merging phase, for any counts: the roots left end up in freq, and the depths in codesize. */
  method MergeAll(freq: array<nat>, codesize: array<nat>)
    requires freq.Length == codesize.Length == N && freq != codesize
    requires forall s :: 0 <= s < N ==> codesize[s] == 0
    modifies freq, codesize
    ensures freq[..] == MergeEnd(old(freq[..])) && codesize[..] == CodeSizes(old(freq[..]))
  {
    ghost var f := freq[..];
    var others := new int[N](_ => -1);
    SelfThreaded(f, others[..]);
    assert codesize[..] == NoSizes(N);
    MergeLoop(freq, others, codesize, f, SelfForest(f));
  }

  // ---------------------------------------------------------------- what the code sizes are

  /** cs are the code lengths of a prefix code for the used symbols. */
  ghost predicate CodeLengths(f: seq<nat>, cs: seq<nat>)
  {
    exists code :: PrefixCode(f, code) && Lengths(code) == cs
  }

  /** A prefix code for the used symbols, and no prefix code is cheaper. */
  ghost predicate OptimalLengths(f: seq<nat>, cs: seq<nat>)
    requires |f| == |cs|
  {
    CodeLengths(f, cs) && forall code: seq<BitString> {:trigger PrefixCode(f, code)} :: PrefixCode(f, code) ==> Cost(f, cs) <= Cost(f, Lengths(code))
  }

  lemma {:induction false} UsedOnce(w: seq<nat>, i: nat, j: nat)
    requires CountUsed(w) == 1 && i < j < |w| && w[i] > 0
    ensures w[j] == 0
  {
    if i > 0 {
      TotalAtLeast(w[1..], i - 1);
      UsedOnce(w[1..], i - 1, j - 1);
    } else if w[j] > 0 {
      TotalAtLeast(w[1..], j - 1);
    }
  }

  /** The ways to the leaves of a single tree are a prefix code. */
  lemma OneTreeCode(f: seq<nat>)
    requires OneTree(f)
    ensures CodeLengths(f, CodeSizes(f))
  {
    var owner, code := SizesGrown(f);
    var freq := MergeEnd(f);
    forall i, j | 0 <= i < |f| && 0 <= j < |f| && i != j && f[i] > 0 && f[j] > 0
      ensures !(code[i] <= code[j])
    {
      if owner[i] < owner[j] { UsedOnce(freq, owner[i], owner[j]); }
      if owner[j] < owner[i] { UsedOnce(freq, owner[j], owner[i]); }
      assert if i < j then Diverge(code, i, j) else Diverge(code, j, i);
    }
    assert Lengths(code) == CodeSizes(f);
    assert PrefixCode(f, code);
  }

  function Times(x: real, p: nat): real
  {
    x * p as real
  }

  lemma {:induction false} HalfPowScaled(n: nat, h: nat)
    requires n <= h
    ensures Times(HalfPow(n), Pow2(h)) == UNIT * Pow2(h - n) as real
  {
    if n > 0 {
      HalfPowScaled(n - 1, h);
      assert Pow2(h - (n - 1)) == 2 * Pow2(h - n);
    }
  }

  lemma TimesSum(x: real, y: real, p: nat)
    ensures Times(x + y, p) == Times(x, p) + Times(y, p)
    ensures Times(0.0, p) == 0.0
  {
  }

  /** The two ways of writing the Kraft sum agree. */
  lemma {:induction false} KraftScaled(f: seq<nat>, cs: seq<nat>, h: nat)
    requires |f| == |cs| && forall s :: 0 <= s < |f| && f[s] > 0 ==> cs[s] <= h
    ensures Times(KraftUsed(f, cs), Pow2(h)) == UNIT * KraftSum(f, cs, h) as real
  {
    if f != [] {
      assert forall s :: 0 <= s < |f[1..]| ==> f[1..][s] == f[s + 1] && cs[1..][s] == cs[s + 1];
      KraftScaled(f[1..], cs[1..], h);
      if f[0] > 0 { HalfPowScaled(cs[0], h); }
      TimesSum(if f[0] > 0 then HalfPow(cs[0]) else 0.0, KraftUsed(f[1..], cs[1..]), Pow2(h));
    } else {
      TimesSum(0.0, 0.0, Pow2(h));
    }
  }

  lemma AtMostOne(n: nat, u: real, p: nat, k: nat)
    requires p >= 1 && k <= p && u == n as real * UNIT && Times(u, p) == UNIT * k as real
    ensures n <= 1
  {
    assert u * p as real == UNIT * (n as real * p as real);
    assert n * p == k;
    MulAtLeast(p, n - 1);
    MulLess(p, n, 1);
  }

  /** A prefix code with the sizes found has a Kraft sum of at most one, so there is one root. */
  lemma CodeOneTree(f: seq<nat>)
    requires CodeLengths(f, CodeSizes(f)) && CountUsed(f) >= 1
    ensures OneTree(f)
  {
    var cs := CodeSizes(f);
    var code :| PrefixCode(f, code) && Lengths(code) == cs;
    var h := LongestCode(code);
    KraftInequality(f, code, h);
    KraftScaled(f, cs, h);
    var owner, ways := SizesGrown(f);
    MergeEndTotals(f);
    AtMostOne(CountUsed(MergeEnd(f)), KraftUsed(f, cs), Pow2(h), KraftSum(f, cs, h));
  }

  /**
   When the code sizes can be used: they are lengths of a prefix code if and only if a single root is
   left, and then no prefix code is cheaper.
   */
  lemma SizesOptimal(f: seq<nat>)
    requires CountUsed(f) >= 1
    ensures OneTree(f) <==> CodeLengths(f, CodeSizes(f))
    ensures OneTree(f) <==> OptimalLengths(f, CodeSizes(f))
  {
    var cs := CodeSizes(f);
    if OneTree(f) {
      OneTreeCode(f);
      var owner, ways := SizesGrown(f);
      forall code: seq<BitString> | PrefixCode(f, code) ensures Cost(f, cs) <= Cost(f, Lengths(code)) {
        NoPrefixCodeCheaper(f, code);
      }
    } else if CodeLengths(f, cs) {
      CodeOneTree(f);
    }
  }

  /** Their cost is that of the merging. */
  lemma SizesCost(f: seq<nat>)
    ensures Cost(f, CodeSizes(f)) == MergeCost(f)
  {
    var owner, code := SizesGrown(f);
    EndCost(f);
  }

  /** A root that is never merged gives its symbol no size. */
  lemma {:induction false} HeavyUnsized(freq: seq<nat>, owner: seq<int>, cs: seq<nat>, s: nat)
    requires |freq| == |owner| == |cs| && s < |freq| && freq[s] > LIMIT && owner[s] == s
    ensures SizesEnd(freq, owner, cs)[s] == cs[s]
    decreases CountUsed(freq)
  {
    var a := Select(freq, -1, |freq|);
    var b := Select(freq, a, |freq|);
    SelectTwo(freq);
    if a >= 0 && b >= 0 {
      MergeTotals(freq, a, b);
      HeavyUnsized(Merge(freq, a, b), Joined(owner, a, b), Deeper(cs, owner, a, b), s);
    }
  }

  /** The Kraft sum is the number of roots left; what is not used has no size. */
  lemma RootsKraft(f: seq<nat>)
    ensures KraftUsed(f, CodeSizes(f)) == CountUsed(MergeEnd(f)) as real * UNIT
    ensures forall s :: 0 <= s < |f| && f[s] == 0 ==> CodeSizes(f)[s] == 0
  {
    var owner, code := SizesGrown(f);
  }

  lemma {:induction false} FibMono(m: nat, n: nat)
    requires m <= n
    ensures Fib(m) <= Fib(n)
  {
    if m < n {
      FibMono(m, n - 1);
      if n >= 2 { FibNext(n - 2); }
    }
  }

  /** A symbol this deep needs at least so many counts. */
  lemma TooDeep(f: seq<nat>, s: nat, n: nat)
    requires s < |f| && CodeSizes(f)[s] > 0 && n <= CodeSizes(f)[s] + 2
    ensures Total(f) >= Fib(n)
  {
    var owner, code := SizesGrown(f);
    var cs, freq := CodeSizes(f), MergeEnd(f);
    assert SlenderAt(freq, cs, owner, s);
    TotalAtLeast(freq, owner[s]);
    FibMono(n, cs[s] + 2);
  }

  /** The 35th Fibonacci number: with fewer counts no code needs more than 32 bits. */
  const HEAVY := 9227465

  lemma ShortEnough(f: seq<nat>, s: nat)
    requires s < |f| && Total(f) < HEAVY
    ensures CodeSizes(f)[s] <= 32
  {
    var n := HeavyIsFib();
    if CodeSizes(f)[s] > 32 { TooDeep(f, s, n); }
  }

  lemma HeavyIsFib() returns (n: nat)
    ensures n <= 35 && Fib(n) == HEAVY
  {
    n := 35;
    assert Fib(10) == 55 && Fib(11) == 89;
    assert Fib(20) == 6765 && Fib(21) == 10946;
    assert Fib(30) == 832040 && Fib(31) == 1346269;
    assert Fib(35) == HEAVY;
  }
}
