/**
 What the order of the generated table is for: symbols with shorter codes in the Huffman tree have no longer
 codes in the table, and while no length is above 16 no code at all is longer than it needs to be.
 */
module TableOrder {
  import opened Bits
  import opened DerivedTable
  import opened HuffmanCost
  import opened MergeTree
  import opened LengthLimit
  import opened OptimalTable

  /** A later position never has a shorter code. */
  lemma SizesRise(bits: seq<Byte>, q: nat, q': nat)
    requires |bits| == 17 && q <= q' < Count(bits, 16)
    ensures SizeAt(bits, q) <= SizeAt(bits, q')
  {
    var l, l' := SizeAt(bits, q), SizeAt(bits, q');
    if l' < l { CountMono(bits, l', l - 1); }
  }

  /** A position below the number of codes up to a length has no longer code. */
  lemma SizeAtMost(bits: seq<Byte>, q: nat, l: nat)
    requires |bits| == 17 && l <= 16 && q < Count(bits, l)
    ensures q < Count(bits, 16) && SizeAt(bits, q) <= l
  {
    CountMono(bits, l, 16);
    var r := SizeAt(bits, q);
    if r > l { CountMono(bits, l, r - 1); }
  }

  // ---------------------------------------------------------------- order

  /** The position of a symbol that has a code. */
  lemma PositionOf(t: HuffTable, given: seq<nat>, d: Derived, s: nat) returns (q: nat)
    requires t.Shaped() && |given| == N && Covers(t, given) && IsDerived(t, d) && s < 256 && given[s] > 0
    ensures q < Count(t.bits, 16) && t.huffval[q] == s && d.ehufsi[s] == SizeAt(t.bits, q)
  {
    q :| 0 <= q < Count(t.bits, 16) && t.huffval[q] == s;
  }

  lemma SmallerFirst(t: HuffTable, cs: seq<nat>, q: nat, q': nat)
    requires t.Shaped() && |cs| == N && q < Count(t.bits, 16) && q' < Count(t.bits, 16) <= 256
    requires InOrder(cs, t.huffval, Count(t.bits, 16)) && cs[t.huffval[q]] < cs[t.huffval[q']]
    ensures SizeAt(t.bits, q) <= SizeAt(t.bits, q')
  {
    assert q < q';
    SizesRise(t.bits, q, q');
  }

  /** A symbol that is higher up in the tree has no longer code in the table, whether or not lengths had to be limited. */
  lemma ShorterFirst(t: HuffTable, given: seq<nat>, d: Derived, s: nat, s': nat)
    requires t.Shaped() && |given| == N && TableOf(t, given, SizesOf(given)) && IsDerived(t, d)
    requires s < 256 && s' < 256 && given[s] > 0 && given[s'] > 0 && SizesOf(given)[s] < SizesOf(given)[s']
    ensures 1 <= d.ehufsi[s] <= d.ehufsi[s'] <= 16
  {
    var q := PositionOf(t, given, d, s);
    var q' := PositionOf(t, given, d, s');
    SmallerFirst(t, SizesOf(given), q, q');
  }

  /** In the tree a symbol that is counted more often is never further down. */
  lemma FrequentHigher(f: seq<nat>, s: nat, s': nat)
    requires OneTree(f) && s < |f| && s' < |f| && f[s] > f[s'] > 0
    ensures CodeSizes(f)[s] <= CodeSizes(f)[s']
  {
    var cs := CodeSizes(f);
    if cs[s] > cs[s'] {
      OneTreeCode(f);
      var code :| PrefixCode(f, code) && Lengths(code) == cs;
      var h := LongestCode(code);
      KraftInequality(f, code, h);
      var r := Swap(f, cs, h, s', s);
      SwapSaves(f, cs, s', s);
      MergeCostLeast(f, r, h);
      SizesCost(f);
    }
  }

  /** Exchanging the lengths of a lighter symbol higher up and a heavier one further down saves something. */
  lemma SwapSaves(w: seq<nat>, len: seq<nat>, c: nat, m: nat)
    requires |w| == |len| && c < |w| && m < |w| && c != m && w[c] < w[m] && len[c] < len[m]
    ensures Cost(w, len[c := len[m]][m := len[c]]) < Cost(w, len)
  {
    var mid := len[c := len[m]];
    CostSet(w, len, c, len[m]);
    CostSet(w, mid, m, len[c]);
    StrictRearrange(w[c], w[m], len[c], len[m]);
  }

  lemma StrictRearrange(a: nat, b: nat, p: nat, q: nat)
    requires a < b && p < q
    ensures a * q + b * p < a * p + b * q
  {
    assert (b - a) * (q - p) == b * q - b * p - a * q + a * p;
    MulAtLeast(b - a, q - p);
  }

  // ---------------------------------------------------------------- economy

  lemma {:induction false} SplitCount(cs: seq<nat>, l: nat, j: int)
    requires j <= 0
    ensures Later(cs, l, j) == Later(cs, l + 1, j) + LengthCount(cs, l)
  {
    if cs != [] { SplitCount(cs[1..], l, j - 1); }
  }

  /** The codes up to length l, and the symbols of a larger size, are all there are but for the code that was dropped. */
  lemma {:induction false} CountAndLater(bits: seq<Byte>, cs: seq<nat>, i: nat, l: nat)
    requires |bits| == 17 && l <= 16 && 1 <= i
    requires forall k :: 1 <= k <= 16 ==> bits[k] == LengthCount(cs, k) - (if k == i then 1 else 0)
    ensures Count(bits, l) + Later(cs, l + 1, 0) + (if i <= l then 1 else 0) == CountUsed(cs)
  {
    if l == 0 {
      LaterAll(cs, 0);
    } else {
      CountAndLater(bits, cs, i, l - 1);
      SplitCount(cs, l, 0);
    }
  }

  lemma {:induction false} LaterLast(cs: seq<nat>, l: nat, n: nat, j: int)
    requires |cs| == n + 1 && j <= 0
    ensures Later(cs, l, j) == Later(cs[..n], l, j) + if cs[n] >= l then 1 else 0
  {
    if n > 0 {
      LaterLast(cs[1..], l, n - 1, j - 1);
      assert cs[1..][..n - 1] == cs[..n][1..];
    }
  }

  /** The rank of a symbol among the real ones is a position among the codes up to its size. */
  lemma RankFits(bits: seq<Byte>, cs: seq<nat>, i: nat, q: nat, l: nat)
    requires |bits| == 17 && |cs| == N && l <= 16 && cs[256] > 0
    requires ExactBut(bits, cs, i)
    requires q + Later(cs[..256], l + 1, 0) < CountUsed(cs[..256])
    ensures q < Count(bits, l)
  {
    CountAndLater(bits, cs, i, l);
    LaterLast(cs, l + 1, 256, 0);
    UsedLast(cs, 256);
  }

  lemma ReservedHasSize(given: seq<nat>, i: nat)
    requires |given| == N && i >= 1 && LengthCount(SizesOf(given), i) > 0
    ensures SizesOf(given)[256] > 0
  {
    LengthCountBound(SizesOf(given), i);
    if SizesOf(given)[256] == 0 { ReservedSized(given); }
  }

  lemma FitsAt(bits: seq<Byte>, cs: seq<nat>, i: nat, hv: seq<Byte>, q: nat)
    requires |bits| == 17 && |cs| == N && cs[256] > 0 && ExactBut(bits, cs, i)
    requires q < Count(bits, 16) <= |hv| && Ranked(cs[..256], hv, Count(bits, 16))
    ensures SizeAt(bits, q) <= cs[hv[q]]
  {
    var l := cs[..256][hv[q]];
    RankFits(bits, cs, i, q, l);
    SizeAtMost(bits, q, l);
  }

  /** While no size is above 16, no code is longer than its symbol's size in the tree. */
  lemma NoLonger(t: HuffTable, given: seq<nat>, d: Derived, s: nat)
    requires t.Shaped() && |given| == N && TableOf(t, given, SizesOf(given)) && IsDerived(t, d) && s < 256 && given[s] > 0
    requires forall k :: 0 <= k < N ==> SizesOf(given)[k] <= 16
    ensures 1 <= d.ehufsi[s] <= SizesOf(given)[s]
  {
    var q := PositionOf(t, given, d, s);
    assert ExactLengths(t.bits, SizesOf(given));
    var i: nat :| ExactBut(t.bits, SizesOf(given), i);
    ReservedHasSize(given, i);
    FitsAt(t.bits, SizesOf(given), i, t.huffval, q);
  }

  lemma {:induction false} CheaperLengths(w: seq<nat>, len: seq<nat>, len': seq<nat>)
    requires |w| == |len| == |len'| && forall i :: 0 <= i < |w| && w[i] > 0 ==> len[i] <= len'[i]
    ensures Cost(w, len) <= Cost(w, len')
  {
    if w != [] {
      assert forall i :: 0 <= i < |w[1..]| ==> w[1..][i] == w[i + 1] && len[1..][i] == len[i + 1] && len'[1..][i] == len'[i + 1];
      CheaperLengths(w[1..], len[1..], len'[1..]);
      if w[0] > 0 { MulMono(w[0], len[0], len'[0]); }
    }
  }

  lemma {:induction false} CostLast(w: seq<nat>, len: seq<nat>, n: nat)
    requires |w| == |len| == n + 1
    ensures Cost(w, len) == Cost(w[..n], len[..n]) + w[n] * len[n]
  {
    if n > 0 {
      CostLast(w[1..], len[1..], n - 1);
      assert w[1..][..n - 1] == w[..n][1..] && len[1..][..n - 1] == len[..n][1..];
    }
  }

  /** Symbols that are higher up in the tree have no longer codes. */
  ghost predicate Ordered(d: Derived, given: seq<nat>)
    requires d.Shaped() && |given| == N
  {
    forall s, s' :: 0 <= s < 256 && 0 <= s' < 256 && given[s] > 0 && given[s'] > 0 && SizesOf(given)[s] < SizesOf(given)[s'] ==>
      d.ehufsi[s] <= d.ehufsi[s']
  }

  /** Used as often as the symbols are counted, the codes take no more bits than those of any prefix code. */
  ghost predicate Cheapest(d: Derived, given: seq<nat>)
    requires d.Shaped() && |given| == N
  {
    forall code: seq<BitString> {:trigger PrefixCode(WithReserved(given), code)} :: PrefixCode(WithReserved(given), code) ==>
      Cost(given[..256], d.ehufsi) <= Cost(WithReserved(given), Lengths(code))
  }

  ghost predicate Economical(d: Derived, given: seq<nat>)
  {
    d.Shaped() && |given| == N && Ordered(d, given) &&
    ((forall s :: 0 <= s < N ==> SizesOf(given)[s] <= 16) ==> Cheapest(d, given))
  }

  /** The generated table is economical: its order gives the short codes to the symbols that need them. */
  lemma TableEconomical(t: HuffTable, given: seq<nat>, d: Derived)
    requires t.Shaped() && |given| == N && TableOf(t, given, SizesOf(given)) && IsDerived(t, d)
    ensures Economical(d, given)
  {
    forall s, s' | 0 <= s < 256 && 0 <= s' < 256 && given[s] > 0 && given[s'] > 0 && SizesOf(given)[s] < SizesOf(given)[s']
      ensures d.ehufsi[s] <= d.ehufsi[s']
    {
      ShorterFirst(t, given, d, s, s');
    }
    if forall s :: 0 <= s < N ==> SizesOf(given)[s] <= 16 {
      forall s: nat | s < 256 && given[s] > 0 ensures d.ehufsi[s] <= SizesOf(given)[s] { NoLonger(t, given, d, s); }
      NoLongerCheapest(given, d);
    }
  }

  lemma NoLongerCheapest(given: seq<nat>, d: Derived)
    requires d.Shaped() && |given| == N && forall s: nat :: s < 256 && given[s] > 0 ==> d.ehufsi[s] <= SizesOf(given)[s]
    ensures Cheapest(d, given)
  {
    var f, cs := WithReserved(given), SizesOf(given);
    CheaperLengths(given[..256], d.ehufsi, cs[..256]);
    CostLast(f, cs, 256);
    assert f[..256] == given[..256];
    SizesCost(f);
    forall code: seq<BitString> | PrefixCode(f, code)
      ensures Cost(given[..256], d.ehufsi) <= Cost(f, Lengths(code))
    {
      NoPrefixCodeCheaper(f, code);
    }
  }
}
