/**
 jpeg_gen_optimal_table as a whole: from symbol counts to a table that
 jpeg_make_c_derived_tbl is bound to accept and that covers every symbol counted.
 */
module OptimalTable {
  import opened Bits
  import opened DerivedTable
  import opened HuffmanCost
  import opened MergeTree
  import opened LengthLimit

  /** Symbol s comes before (length i, symbol j) in the order of the list. */
  predicate Before(cs: seq<nat>, s: nat, i: nat, j: nat)
    requires s < |cs|
  {
    cs[s] < i || (cs[s] == i && s < j)
  }

  /** How many of the symbols come at or after (length i, symbol j). */
  function Later(cs: seq<nat>, i: nat, j: int): nat
  {
    if cs == [] then 0
    else (if cs[0] > i || (cs[0] == i && j <= 0) then 1 else 0) + Later(cs[1..], i, j - 1)
  }

  lemma {:induction false} LaterStep(cs: seq<nat>, i: nat, j: int)
    ensures Later(cs, i, j) == Later(cs, i, j + 1) + if 0 <= j < |cs| && cs[j] == i then 1 else 0
  {
    if cs != [] { LaterStep(cs[1..], i, j - 1); }
  }

  lemma {:induction false} LaterNext(cs: seq<nat>, i: nat, j: int, j': int)
    requires j >= |cs| && j' <= 0
    ensures Later(cs, i, j) == Later(cs, i + 1, j')
  {
    if cs != [] { LaterNext(cs[1..], i, j - 1, j' - 1); }
  }

  lemma {:induction false} LaterFewer(cs: seq<nat>, i: nat, j: int)
    ensures Later(cs, i, j) >= Later(cs, i + 1, 0)
  {
    if cs != [] {
      LaterFewer(cs[1..], i, j - 1);
      LaterFromStart(cs[1..], i + 1);
    }
  }

  lemma {:induction false} LaterFromStart(cs: seq<nat>, i: nat)
    ensures Later(cs, i, -1) == Later(cs, i, 0)
  {
    if cs != [] { LaterBefore(cs[1..], i, -2, -1); }
  }

  lemma {:induction false} LaterBefore(cs: seq<nat>, i: nat, j: int, j': int)
    requires j <= 0 && j' <= 0
    ensures Later(cs, i, j) == Later(cs, i, j')
  {
    if cs != [] { LaterBefore(cs[1..], i, j - 1, j' - 1); }
  }

  lemma {:induction false} LaterAll(cs: seq<nat>, j: int)
    requires j <= 0
    ensures Later(cs, 1, j) == CountUsed(cs)
  {
    if cs != [] { LaterAll(cs[1..], j - 1); }
  }

  lemma {:induction false} LaterNone(cs: seq<nat>, i: nat, j: int)
    requires forall s :: 0 <= s < |cs| ==> cs[s] < i
    ensures Later(cs, i, j) == 0
  {
    if cs != [] { LaterNone(cs[1..], i, j - 1); }
  }

  /** The first p symbols of the list are in order of their sizes, and those of equal size in numerical order. */
  ghost predicate InOrder(cs: seq<nat>, hv: seq<Byte>, p: nat)
    requires |cs| >= 256 && p <= |hv|
  {
    forall q, q' :: 0 <= q < q' < p ==> cs[hv[q]] < cs[hv[q']] || (cs[hv[q]] == cs[hv[q']] && hv[q] < hv[q'])
  }

  /** No symbol is listed behind more than have its size or less. */
  ghost predicate Ranked(cs: seq<nat>, hv: seq<Byte>, p: nat)
    requires |cs| >= 256 && p <= |hv|
  {
    forall q :: 0 <= q < p ==> q + Later(cs, cs[hv[q]] + 1, 0) < CountUsed(cs)
  }

  /** hv[..p] lists, by length, the real symbols that come before (length i, symbol j). */
  ghost predicate Listing(cs: seq<nat>, hv: seq<Byte>, p: nat, i: nat, j: nat)
  {
    |cs| == 256 && |hv| == 256 && p <= 256 &&
    p + Later(cs, i, j) == CountUsed(cs) &&
    (forall q :: 0 <= q < p ==> cs[hv[q]] >= 1 && Before(cs, hv[q], i, j)) &&
    InOrder(cs, hv, p) && Ranked(cs, hv, p) &&
    (forall s :: 0 <= s < 256 && cs[s] >= 1 && Before(cs, s, i, j) ==> exists q :: 0 <= q < p && hv[q] == s)
  }

  lemma ListingSkip(cs: seq<nat>, hv: seq<Byte>, p: nat, i: nat, j: nat)
    requires Listing(cs, hv, p, i, j) && j < 256 && cs[j] != i
    ensures Listing(cs, hv, p, i, j + 1)
  {
    LaterStep(cs, i, j);
  }

  lemma {:induction false} UsedAtMostLength(cs: seq<nat>)
    ensures CountUsed(cs) <= |cs|
  {
    if cs != [] { UsedAtMostLength(cs[1..]); }
  }

  lemma AddInOrder(cs: seq<nat>, hv: seq<Byte>, p: nat, i: nat, j: nat)
    requires |cs| == |hv| == 256 && p < 256 && j < 256 && cs[j] == i && p + Later(cs, i, j) == CountUsed(cs)
    requires InOrder(cs, hv, p) && Ranked(cs, hv, p) && forall q :: 0 <= q < p ==> Before(cs, hv[q], i, j)
    ensures InOrder(cs, hv[p := j], p + 1) && Ranked(cs, hv[p := j], p + 1)
  {
    LaterStep(cs, i, j);
    LaterFewer(cs, i, j + 1);
    var hv' := hv[p := j];
    assert forall q :: 0 <= q < p ==> hv'[q] == hv[q];
  }

  lemma ListingAdd(cs: seq<nat>, hv: seq<Byte>, p: nat, i: nat, j: nat)
    requires Listing(cs, hv, p, i, j) && j < 256 && cs[j] == i >= 1
    ensures p < 256 && Listing(cs, hv[p := j], p + 1, i, j + 1)
  {
    LaterStep(cs, i, j);
    UsedAtMostLength(cs);
    AddInOrder(cs, hv, p, i, j);
    var hv' := hv[p := j];
    forall s | 0 <= s < 256 && cs[s] >= 1 && Before(cs, s, i, j + 1)
      ensures exists q :: 0 <= q < p + 1 && hv'[q] == s
    {
      if Before(cs, s, i, j) {
        var q :| 0 <= q < p && hv[q] == s;
        assert hv'[q] == s;
      } else {
        assert hv'[p] == s;
      }
    }
  }

  lemma ListingNext(cs: seq<nat>, hv: seq<Byte>, p: nat, i: nat)
    requires Listing(cs, hv, p, i, 256)
    ensures Listing(cs, hv, p, i + 1, 0)
  {
    LaterNext(cs, i, 256, 0);
  }

  /** The used symbols, shorter codes first, and in numerical order where the lengths agree. */
  method ListSymbols(codesize: array<nat>) returns (huffval: array<Byte>, p: nat)
    requires codesize.Length == N && forall s :: 0 <= s < N ==> codesize[s] <= MAX_CLEN
    ensures fresh(huffval) && huffval.Length == 256
    ensures Listing(codesize[..256], huffval[..], p, MAX_CLEN + 1, 0)
  {
    ghost var cs := codesize[..256];
    huffval := new Byte[256](_ => 0);
    p := 0;
    LaterAll(cs, 0);
    for i := 1 to MAX_CLEN + 1
      invariant huffval.Length == 256 && codesize[..256] == cs
      invariant Listing(cs, huffval[..], p, i, 0)
    {
      for j := 0 to 256
        invariant huffval.Length == 256 && codesize[..256] == cs
        invariant Listing(cs, huffval[..], p, i, j)
      {
        ghost var before := huffval[..];
        if codesize[j] == i {
          ListingAdd(cs, before, p, i, j);
          huffval[p] := j;
          p := p + 1;
          assert huffval[..] == before[p - 1 := j];
        } else {
          ListingSkip(cs, before, p, i, j);
        }
      }
      ListingNext(cs, huffval[..], p, i);
    }
  }

  /** The symbols counted are exactly those listed in the table. */
  ghost predicate Covers(t: HuffTable, f: seq<nat>)
    requires t.Shaped() && |f| >= 256
  {
    Count(t.bits, 16) <= 256 &&
    forall s :: 0 <= s < 256 ==> (f[s] > 0 <==> exists q :: 0 <= q < Count(t.bits, 16) && t.huffval[q] == s)
  }

  lemma {:induction false} CountPrefix(b: seq<Byte>, b': seq<Byte>, l: nat)
    requires l < |b| && l < |b'| && forall k :: 0 <= k <= l ==> b[k] == b'[k]
    ensures Count(b, l) == Count(b', l) && Kraft(b, l) == Kraft(b', l)
  {
    if l > 0 { CountPrefix(b, b', l - 1); }
  }

  lemma {:induction false} UsedLast(w: seq<nat>, n: nat)
    requires n < |w| && n + 1 == |w|
    ensures CountUsed(w) == CountUsed(w[..n]) + if w[n] > 0 then 1 else 0
    ensures Total(w) == Total(w[..n]) + w[n]
  {
    if n > 0 {
      UsedLast(w[1..], n - 1);
      assert w[1..][..n - 1] == w[..n][1..];
    }
  }

  /** The counts with the pseudo-symbol 256 in place. */
  function WithReserved(freq: seq<nat>): seq<nat>
    requires |freq| == N
  {
    freq[256 := 1]
  }

  lemma ReservedTotals(freq: seq<nat>)
    requires |freq| == N
    ensures Total(WithReserved(freq)) == Total(freq[..256]) + 1
    ensures CountUsed(WithReserved(freq)) == CountUsed(freq[..256]) + 1
  {
    var f := WithReserved(freq);
    UsedLast(f, 256);
    assert f[..256] == freq[..256];
  }

  /** The code sizes of the merging phase, the reserved symbol included. */
  function SizesOf(freq: seq<nat>): (r: seq<nat>)
    requires |freq| == N
    ensures |r| == N
  {
    CodeSizes(WithReserved(freq))
  }

  /** The merging phase finds a code of more than 32 bits for these counts. */
  predicate Overlong(freq: seq<nat>)
    requires |freq| == N
  {
    exists s :: 0 <= s < N && SizesOf(freq)[s] > MAX_CLEN
  }

  /** Which takes nine million symbols. */
  lemma OverlongIsHeavy(freq: seq<nat>)
    requires |freq| == N && Overlong(freq)
    ensures Total(freq[..256]) >= HEAVY - 1
  {
    ReservedTotals(freq);
    var s :| 0 <= s < N && SizesOf(freq)[s] > MAX_CLEN;
    if Total(freq[..256]) < HEAVY - 1 {
      ShortEnough(WithReserved(freq), s);
    }
  }

  /** No length is shared by so many codes that their number wraps its byte. */
  predicate BytesSuffice(cs: seq<nat>)
  {
    forall k :: 1 <= k <= MAX_CLEN ==> LengthCount(cs, k) < 256
  }

  /** The byte that counts the codes of any length is zero. */
  predicate NothingCounted(cs: seq<nat>)
  {
    forall k :: 1 <= k <= MAX_CLEN ==> LengthCount(cs, k) % 256 == 0
  }

  /** Some symbol is counted, merging ends with one tree, and neither its depth nor its width is too great. */
  predicate Solvable(freq: seq<nat>)
    requires |freq| == N
  {
    CountUsed(freq[..256]) >= 1 && OneTree(WithReserved(freq)) && !Overlong(freq) && BytesSuffice(SizesOf(freq))
  }

  /** The finished table is acceptable, whatever symbols it lists. */
  lemma TableAcceptable(f: seq<nat>, cs: seq<nat>, full: seq<Byte>, hv: seq<Byte>, p: nat, isDC: bool)
    requires |f| == |cs| == N && |full| == MAX_CLEN + 1 && |hv| == 256
    requires (forall s :: 0 <= s < N ==> (f[s] > 0 <==> cs[s] > 0)) && f[256] > 0
    requires forall s :: 0 <= s < N ==> cs[s] <= MAX_CLEN
    requires Listing(cs[..256], hv, p, MAX_CLEN + 1, 0)
    requires Count(full, 16) == CountUsed(f) - 1 && Kraft(full, 16) < Pow2(16)
    requires isDC ==> forall s :: 16 <= s < 256 ==> f[s] == 0
    ensures HuffTable(full[..17], hv).Shaped() && Acceptable(HuffTable(full[..17], hv), isDC)
    ensures Covers(HuffTable(full[..17], hv), f)
  {
    CountPrefix(full, full[..17], 16);
    ListedSymbols(f, cs, hv, p);
    ListedAcceptable(f, full[..17], hv, p, isDC);
  }

  lemma ListedAcceptable(f: seq<nat>, bits: seq<Byte>, hv: seq<Byte>, p: nat, isDC: bool)
    requires |f| == N && |bits| == 17 && |hv| == 256 && p <= 256 && Count(bits, 16) == p && Kraft(bits, 16) < Pow2(16)
    requires forall s :: 0 <= s < 256 ==> (f[s] > 0 <==> exists q :: 0 <= q < p && hv[q] == s)
    requires forall q, q' :: 0 <= q < q' < p ==> hv[q] != hv[q']
    requires isDC ==> forall s :: 16 <= s < 256 ==> f[s] == 0
    ensures Acceptable(HuffTable(bits, hv), isDC) && Covers(HuffTable(bits, hv), f)
  {
    FitsIffKraftBelowOne(bits);
    forall q | 0 <= q < p ensures hv[q] <= MaxSymbol(isDC) {
      assert f[hv[q]] > 0;
    }
  }

  /** The listed symbols are those that are used, once each. */
  lemma ListedSymbols(f: seq<nat>, cs: seq<nat>, hv: seq<Byte>, p: nat)
    requires |f| == |cs| == N && |hv| == 256 && Listing(cs[..256], hv, p, MAX_CLEN + 1, 0) && f[256] > 0
    requires forall s :: 0 <= s < N ==> (f[s] > 0 <==> cs[s] > 0) && cs[s] <= MAX_CLEN
    ensures p == CountUsed(f) - 1 <= 256 && forall q, q' :: 0 <= q < q' < p ==> hv[q] != hv[q']
    ensures forall s :: 0 <= s < 256 ==> (f[s] > 0 <==> exists q :: 0 <= q < p && hv[q] == s)
  {
    AloneZero(f, cs);
    FewerSizes(f, cs);
    UsedLast(cs, 256);
    LaterNone(cs[..256], MAX_CLEN + 1, 0);
    forall s: nat | s < 256
      ensures f[s] > 0 <==> exists q :: 0 <= q < p && hv[q] == s
    {
      assert cs[..256][s] == cs[s];
      assert Before(cs[..256], s, MAX_CLEN + 1, 0);
    }
  }

  /** What the routine makes of its counts: a table, the error for a code of more than 32 bits, or a search that leaves its array. */
  datatype Generated = Table(table: HuffTable) | TooLong | Lost

  /**
   The whole routine, for any counts.  Its table can be used, that is, it is accepted and covers
   exactly the symbols counted, if and only if the counts are solvable.  It then is accepted as a
   DC table too if its symbols allow, and has the lengths of an optimal code if none exceeds 16 bits.
   The search for the longest length in use leaves its array exactly when no byte counts a code.
   */
  method GenOptimalTable(freq: array<nat>) returns (r: Generated)
    requires freq.Length == N
    modifies freq
    ensures r.TooLong? <==> Overlong(old(freq[..]))
    ensures r.Lost? <==> !Overlong(old(freq[..])) && NothingCounted(SizesOf(old(freq[..])))
    ensures r.Table? ==> r.table.Shaped()
    ensures Solvable(old(freq[..])) <==> r.Table? && Acceptable(r.table, false) && Covers(r.table, old(freq[..]))
    ensures Solvable(old(freq[..])) ==> TableOf(r.table, old(freq[..]), SizesOf(old(freq[..])))
  {
    ghost var given := freq[..];
    freq[256] := 1;
    assert freq[..] == WithReserved(given);
    var codesize := new nat[N](_ => 0);
    MergeAll(freq, codesize);
    r := TableFromSizes(codesize, given);
  }

  /** From the code sizes to the table. */
  method TableFromSizes(codesize: array<nat>, ghost given: seq<nat>) returns (r: Generated)
    requires codesize.Length == N == |given| && codesize[..] == SizesOf(given)
    ensures r.TooLong? <==> Overlong(given)
    ensures r.Lost? <==> !Overlong(given) && NothingCounted(SizesOf(given))
    ensures r.Table? ==> r.table.Shaped()
    ensures Solvable(given) <==> r.Table? && Acceptable(r.table, false) && Covers(r.table, given)
    ensures Solvable(given) ==> TableOf(r.table, given, SizesOf(given))
  {
    ghost var cs := codesize[..];
    var ok, bits := CountLengths(codesize);
    if !ok {
      return TooLong;
    }
    ghost var m := WholeKraft(WithReserved(given));
    var i := TrimCounts(bits, cs, m);
    if i < 0 {
      LostUnsolvable(given, m);
      return Lost;
    }
    var huffval, p := ListSymbols(codesize);
    r := Table(HuffTable(bits[..17], huffval[..]));
    TableIs(given, m, bits[..], huffval[..], p);
  }

  /** What the routine promises of its table. */
  ghost predicate TableOf(t: HuffTable, f: seq<nat>, cs: seq<nat>)
    requires |f| == N
  {
    t.Shaped() && |cs| == N && LengthsFrom(t.bits, cs) && Acceptable(t, false) && Covers(t, f) &&
    ((forall s :: 16 <= s < 256 ==> f[s] == 0) ==> Acceptable(t, true)) &&
    InOrder(cs, t.huffval, Count(t.bits, 16)) && SizesFit(cs, t)
  }

  /** The lengths are those of the figure and, while no size is above 16, the sizes themselves. */
  ghost predicate LengthsFrom(bits: seq<Byte>, cs: seq<nat>)
    requires |bits| == 17
  {
    FromFigure(bits, cs) && ((forall s :: 0 <= s < |cs| ==> cs[s] <= 16) ==> ExactLengths(bits, cs))
  }

  /** No symbol is listed behind more than have its size or less. */
  ghost predicate SizesFit(cs: seq<nat>, t: HuffTable)
    requires |cs| == N && t.Shaped() && Count(t.bits, 16) <= 256
  {
    Ranked(cs[..256], t.huffval, Count(t.bits, 16))
  }

  /** The length counts are what figure K.3 makes of those of the sizes, less one code of the longest length in use. */
  ghost predicate FromFigure(bits: seq<Byte>, cs: seq<nat>)
    requires |bits| == 17
  {
    exists tallied, limited, i :: DroppedFrom(bits, cs, tallied, limited, i)
  }

  ghost predicate DroppedFrom(bits: seq<Byte>, cs: seq<nat>, tallied: seq<Byte>, limited: seq<Byte>, i: nat)
    requires |bits| == 17
  {
    |tallied| == |limited| == MAX_CLEN + 1 && (forall k :: 1 <= k <= MAX_CLEN ==> tallied[k] == LengthCount(cs, k)) && tallied[0] == 0 &&
    Limits(tallied, limited) && NoneAbove(limited, i) && 1 <= i <= 16 && limited[i] > 0 &&
    forall k :: 0 <= k <= 16 ==> bits[k] == limited[k] - if k == i then 1 else 0
  }

  /** As many codes of each length as there are depths, one of the longest excepted. */
  ghost predicate ExactLengths(bits: seq<Byte>, cs: seq<nat>)
    requires |bits| == 17
  {
    exists i: nat :: ExactBut(bits, cs, i)
  }

  ghost predicate ExactBut(bits: seq<Byte>, cs: seq<nat>, i: nat)
    requires |bits| == 17
  {
    1 <= i <= 16 && LengthCount(cs, i) > 0 && (forall s :: 0 <= s < |cs| ==> cs[s] <= i) &&
    forall k :: 1 <= k <= 16 ==> bits[k] == LengthCount(cs, k) - (if k == i then 1 else 0)
  }

  // ---------------------------------------------------------------- the length counts

  /** The length counts without the reserved code: of all codes if no byte has wrapped, otherwise of none. */
  ghost predicate Trimmed(full: seq<Byte>, cs: seq<nat>, m: nat)
  {
    |full| == MAX_CLEN + 1 && if BytesSuffice(cs) then TrimmedTrees(full, cs, m) else Count(full, 16) == 0
  }

  ghost predicate TrimmedTrees(full: seq<Byte>, cs: seq<nat>, m: nat)
    requires |full| == MAX_CLEN + 1
  {
    m >= 1 && Count(full, 16) == CountUsed(cs) - 1 &&
    (if m == 1 then Kraft(full, 16) < Pow2(16) else Kraft(full, 16) >= Pow2(16)) && LengthsFrom(full[..17], cs)
  }

  /** Bring the lengths down to 16, and drop the reserved code. */
  method TrimCounts(bits: array<Byte>, ghost cs: seq<nat>, ghost m: nat) returns (i: int)
    requires bits.Length == MAX_CLEN + 1 && Tallied(bits[..], cs) && |cs| == N && DepthKraft(cs) == m * WHOLE
    requires forall s :: 0 <= s < N ==> cs[s] <= MAX_CLEN
    modifies bits
    ensures i < 0 <==> NothingCounted(cs)
    ensures i >= 0 ==> Trimmed(bits[..], cs, m)
  {
    ghost var tallied := bits[..];
    TalliedKinds(tallied, cs, m);
    i := LimitLengths(bits, m, CountUsed(cs));
    ghost var limited := bits[..];
    i := DropReserved(bits, i);
    if BytesSuffice(cs) && m >= 1 {
      TrimmedComplete(tallied, limited, cs, m, i);
    } else {
      TrimmedNothing(tallied, cs, m, i);
    }
  }

  /** Either the counts are right and there is a tree; or at most one code, of one bit, has been counted at all. */
  lemma TalliedKinds(bits: seq<Byte>, cs: seq<nat>, m: nat)
    requires Tallied(bits, cs) && |cs| == N && DepthKraft(cs) == m * WHOLE
    requires forall s :: 0 <= s < N ==> cs[s] <= MAX_CLEN
    ensures BytesSuffice(cs) && m >= 1 ==> Complete(bits, m, CountUsed(cs), MAX_CLEN) && CountUsed(cs) <= N
    ensures !BytesSuffice(cs) || m == 0 ==> NoneAbove(bits, 1) && bits[1] <= 1 && (BytesSuffice(cs) ==> bits[1] == 0)
  {
    UsedAtMostLength(cs);
    if BytesSuffice(cs) {
      TallyRight(bits, cs);
      if m == 0 { NoDepths(cs); }
    } else {
      var k :| 1 <= k <= MAX_CLEN && LengthCount(cs, k) >= 256;
      Wrapped(cs, m, k);
    }
  }

  lemma {:induction false} NoDepths(cs: seq<nat>)
    requires DepthKraft(cs) == 0 && forall s :: 0 <= s < |cs| ==> cs[s] <= MAX_CLEN
    ensures CountUsed(cs) == 0 && forall k :: 1 <= k ==> LengthCount(cs, k) == 0
  {
    if cs != [] {
      assert forall s :: 0 <= s < |cs[1..]| ==> cs[1..][s] == cs[s + 1];
      NoDepths(cs[1..]);
    }
  }

  lemma TrimmedComplete(tallied: seq<Byte>, limited: seq<Byte>, cs: seq<nat>, m: nat, i: int)
    requires Tallied(tallied, cs) && BytesSuffice(cs) && m >= 1 && Complete(tallied, m, CountUsed(cs), MAX_CLEN)
    requires if NoneAbove(tallied, 16) then limited == tallied else Complete(limited, m, CountUsed(cs), 16)
    requires Limits(tallied, limited) && NoneAbove(limited, 16) && |limited| == MAX_CLEN + 1
    requires -1 <= i <= 16 && (forall k :: i < k <= 16 ==> limited[k] == 0) && (i >= 0 ==> limited[i] > 0)
    ensures !NothingCounted(cs) && i >= 0 && TrimmedTrees(limited[i := limited[i] - 1], cs, m)
  {
    SomethingCounted(tallied, cs, m);
    assert Complete(limited, m, CountUsed(cs), 16);
    SomeInUse(limited, m, CountUsed(cs), 16);
    TrimmedSums(limited, m, CountUsed(cs), i);
    DropFromFigure(cs, tallied, limited, i);
    if forall s :: 0 <= s < |cs| ==> cs[s] <= 16 {
      NoneLonger(cs, tallied);
      LengthsKept(cs, tallied, i);
    }
  }

  lemma DropFromFigure(cs: seq<nat>, tallied: seq<Byte>, limited: seq<Byte>, i: nat)
    requires Tallied(tallied, cs) && BytesSuffice(cs) && Limits(tallied, limited) && |limited| == MAX_CLEN + 1
    requires 1 <= i <= 16 && limited[i] > 0 && NoneAbove(limited, 16) && forall k :: i < k <= 16 ==> limited[k] == 0
    ensures FromFigure(limited[i := limited[i] - 1][..17], cs)
  {
    assert DroppedFrom(limited[i := limited[i] - 1][..17], cs, tallied, limited, i);
  }

  lemma SomethingCounted(tallied: seq<Byte>, cs: seq<nat>, m: nat)
    requires Tallied(tallied, cs) && m >= 1 && Complete(tallied, m, CountUsed(cs), MAX_CLEN)
    ensures !NothingCounted(cs)
  {
    SomeInUse(tallied, m, CountUsed(cs), MAX_CLEN);
    var d :| 1 <= d <= MAX_CLEN && tallied[d] > 0;
    assert LengthCount(cs, d) % 256 != 0;
  }

  lemma TrimmedSums(limited: seq<Byte>, m: nat, n: nat, i: nat)
    requires Complete(limited, m, n, 16) && m >= 1 && 1 <= i <= 16 && limited[i] > 0
    ensures var full := limited[i := limited[i] - 1];
            Count(full, 16) == n - 1 && if m == 1 then Kraft(full, 16) < Pow2(16) else Kraft(full, 16) >= Pow2(16)
  {
    OneDropped(limited, m, n, 16, i);
    SumOf(m, 16, i);
  }

  /** One tree leaves less than a whole, two or more leave at least one. */
  lemma SumOf(m: nat, n: nat, i: nat)
    requires m >= 1 && 1 <= i <= n
    ensures var k := m * Pow2(n) - Pow2(n - i); if m == 1 then k < Pow2(n) else k >= Pow2(n)
  {
    Pow2Mono(n - i, n - 1);
    if m >= 2 { MulMono(Pow2(n), 2, m); }
  }

  lemma TrimmedNothing(tallied: seq<Byte>, cs: seq<nat>, m: nat, i: int)
    requires Tallied(tallied, cs) && NoneAbove(tallied, 1) && tallied[1] <= 1
    requires BytesSuffice(cs) ==> tallied[1] == 0
    requires -1 <= i <= 16 && (forall k :: i < k <= 16 ==> tallied[k] == 0) && (i >= 0 ==> tallied[i] > 0)
    ensures i < 0 <==> NothingCounted(cs)
    ensures i >= 0 ==> Trimmed(tallied[i := tallied[i] - 1], cs, m)
  {
    forall k | 1 <= k <= MAX_CLEN ensures LengthCount(cs, k) % 256 == tallied[k] {}
    if i >= 0 {
      var full := tallied[i := tallied[i] - 1];
      assert i == 1;
      EmptyCounts(full, 16);
    }
  }

  lemma {:induction false} LengthCountZero(cs: seq<nat>, k: nat)
    ensures LengthCount(cs, k) == 0 <==> forall s :: 0 <= s < |cs| ==> cs[s] != k
  {
    if cs != [] {
      LengthCountZero(cs[1..], k);
      if LengthCount(cs, k) == 0 {
        forall s | 0 <= s < |cs| ensures cs[s] != k { if s > 0 { assert cs[s] == cs[1..][s - 1]; } }
      } else if cs[0] != k {
        var s :| 0 <= s < |cs[1..]| && cs[1..][s] == k;
        assert cs[s + 1] == k;
      }
    }
  }

  lemma NoneLonger(cs: seq<nat>, tallied: seq<Byte>)
    requires Tallied(tallied, cs) && forall s :: 0 <= s < |cs| ==> cs[s] <= 16
    ensures NoneAbove(tallied, 16)
  {
    forall k | 16 < k <= MAX_CLEN ensures tallied[k] == 0 { LengthCountZero(cs, k); }
  }

  lemma LengthsKept(cs: seq<nat>, tallied: seq<Byte>, i: nat)
    requires Tallied(tallied, cs) && BytesSuffice(cs) && forall s :: 0 <= s < |cs| ==> cs[s] <= 16
    requires 1 <= i <= 16 && tallied[i] > 0 && forall k :: i < k <= 16 ==> tallied[k] == 0
    ensures ExactLengths(tallied[i := tallied[i] - 1][..17], cs)
  {
    forall s | 0 <= s < |cs| ensures cs[s] <= i {
      if cs[s] > i { LengthCountZero(cs, cs[s]); }
    }
    assert ExactBut(tallied[i := tallied[i] - 1][..17], cs, i);
  }

  // ---------------------------------------------------------------- bytes that wrap

  /** The sizes other than k. */
  function Without(cs: seq<nat>, k: nat): (r: seq<nat>)
    ensures |r| == |cs|
  {
    seq(|cs|, s requires 0 <= s < |cs| => if cs[s] == k then 0 else cs[s])
  }

  lemma {:induction false} SplitLength(cs: seq<nat>, k: nat)
    requires 1 <= k <= MAX_CLEN && forall s :: 0 <= s < |cs| ==> cs[s] <= MAX_CLEN
    ensures DepthKraft(cs) == LengthCount(cs, k) * Pow2(MAX_CLEN - k) + DepthKraft(Without(cs, k))
    ensures CountUsed(cs) == LengthCount(cs, k) + CountUsed(Without(cs, k))
    ensures forall j :: 1 <= j && j != k ==> LengthCount(Without(cs, k), j) == LengthCount(cs, j)
    ensures LengthCount(Without(cs, k), k) == 0
  {
    if cs != [] {
      assert forall s :: 0 <= s < |cs[1..]| ==> cs[1..][s] == cs[s + 1];
      SplitLength(cs[1..], k);
      assert Without(cs, k)[1..] == Without(cs[1..], k);
      MulSum(if cs[0] == k then 1 else 0, LengthCount(cs[1..], k), Pow2(MAX_CLEN - k));
    }
  }

  lemma {:induction false} NoLengths(w: seq<nat>)
    requires CountUsed(w) == 0
    ensures DepthKraft(w) == 0 && forall k :: 1 <= k ==> LengthCount(w, k) == 0
  {
    if w != [] { NoLengths(w[1..]); }
  }

  lemma {:induction false} SingleLength(w: seq<nat>) returns (j: nat)
    requires CountUsed(w) == 1 && forall s :: 0 <= s < |w| ==> w[s] <= MAX_CLEN
    ensures 1 <= j <= MAX_CLEN && DepthKraft(w) == Pow2(MAX_CLEN - j)
    ensures forall k :: 1 <= k ==> LengthCount(w, k) == if k == j then 1 else 0
  {
    assert forall s :: 0 <= s < |w[1..]| ==> w[1..][s] == w[s + 1];
    if w[0] > 0 {
      j := w[0];
      NoLengths(w[1..]);
    } else {
      j := SingleLength(w[1..]);
    }
  }

  lemma NoMultiple(x: int, m: int, p: int)
    requires 0 < x < p
    ensures x != m * p
  {
    MulAtLeast(p, m);
  }

  /** If 256 codes share a length, what else there is can only be one code of one bit. */
  lemma Wrapped(cs: seq<nat>, m: nat, k: nat)
    requires |cs| == N && DepthKraft(cs) == m * WHOLE && forall s :: 0 <= s < N ==> cs[s] <= MAX_CLEN
    requires 1 <= k <= MAX_CLEN && LengthCount(cs, k) >= 256
    ensures forall j :: 2 <= j <= MAX_CLEN ==> LengthCount(cs, j) % 256 == 0
    ensures LengthCount(cs, 1) % 256 <= 1
  {
    UsedAtMostLength(cs);
    SplitLength(cs, k);
    var w := Without(cs, k);
    if LengthCount(cs, k) == N {
      NoLengths(w);
      OddSum(m, k);
    } else if CountUsed(w) == 0 {
      NoLengths(w);
    } else {
      var j := SingleLength(w);
      if j >= 2 { TwoPowers(m, k, j); }
    }
  }

  /** 257 codes of one length do not fill a whole number of trees. */
  lemma OddSum(m: nat, k: nat)
    requires 1 <= k <= MAX_CLEN
    ensures N * Pow2(MAX_CLEN - k) != m * WHOLE
  {
    var p := Pow2(MAX_CLEN - k);
    WholeIsPow2(k);
    EvenMultiple(m, Pow2(k - 1), p);
  }

  lemma EvenMultiple(m: nat, a: nat, p: nat)
    requires p >= 1
    ensures N * p != m * (2 * a * p)
  {
    if N * p == m * (2 * a * p) {
      assert m * (2 * a * p) == (2 * (m * a)) * p;
      CancelFactor(N, 2 * (m * a), p);
    }
  }

  /** Nor do 256 codes of one length and one of another that is longer than a bit. */
  lemma TwoPowers(m: nat, k: nat, j: nat)
    requires 1 <= k <= MAX_CLEN && 2 <= j <= MAX_CLEN
    ensures 256 * Pow2(MAX_CLEN - k) + Pow2(MAX_CLEN - j) != m * WHOLE
  {
    var x, y := Pow2(MAX_CLEN - j), Pow2(MAX_CLEN - k);
    WholeIsPow2(j);
    WholeIsPow2(k);
    AtLeastTimes(Pow2(j), 4, x) by { Pow2Mono(2, j); }
    if k <= 8 {
      Pow2Add(k, 8 - k);
      Pow2Constants();
      EqualParts(Pow2(k), Pow2(8 - k), y);
      NoMultiple(x, m - Pow2(8 - k), WHOLE);
    } else {
      AtLeastTimes(Pow2(k), 512, y) by { LargePower(k); }
      NoMultiple(256 * y + x, m, WHOLE);
    }
  }

  lemma LargePower(k: nat)
    requires k >= 9
    ensures Pow2(k) >= 512
  {
    Pow2Mono(9, k);
    Pow2Add(8, 1);
    Pow2Constants();
  }

  lemma AtLeastTimes(a: nat, b: nat, x: nat)
    requires a >= b
    ensures a * x >= b * x
  {
  }

  lemma EqualParts(a: nat, b: nat, y: nat)
    ensures a * b * y == b * (a * y)
  {
  }

  // ---------------------------------------------------------------- which counts can be solved

  lemma {:induction false} FewerSizes(f: seq<nat>, cs: seq<nat>)
    requires |f| == |cs| && forall s :: 0 <= s < |f| ==> (f[s] == 0 ==> cs[s] == 0)
    ensures CountUsed(cs) + Alone(f, cs) == CountUsed(f)
  {
    if f != [] {
      assert forall s :: 0 <= s < |f[1..]| ==> f[1..][s] == f[s + 1] && cs[1..][s] == cs[s + 1];
      FewerSizes(f[1..], cs[1..]);
    }
  }

  /** The reserved symbol takes part in the first merge. */
  lemma ReservedFirst(given: seq<nat>)
    requires |given| == N
    ensures Select(WithReserved(given), -1, N) == 256
  {
    var f := WithReserved(given);
    SelectLeast(f, -1, 256);
    assert Select(f, -1, N) == 256 by {
      assert f[256] == 1;
    }
  }

  lemma {:induction false} SizesGrow(freq: seq<nat>, owner: seq<int>, cs: seq<nat>)
    requires |freq| == |owner| == |cs|
    ensures forall s :: 0 <= s < |cs| ==> SizesEnd(freq, owner, cs)[s] >= cs[s]
    decreases CountUsed(freq)
  {
    var a := Select(freq, -1, |freq|);
    var b := Select(freq, a, |freq|);
    if a >= 0 && b >= 0 {
      MergeTotals(freq, a, b);
      SizesGrow(Merge(freq, a, b), Joined(owner, a, b), Deeper(cs, owner, a, b));
    }
  }

  /** Unless nothing is merged at all, the reserved symbol has a size. */
  lemma ReservedSized(given: seq<nat>)
    requires |given| == N && SizesOf(given)[256] == 0
    ensures CountUsed(SizesOf(given)) == 0
  {
    var f, zeros := WithReserved(given), NoSizes(N);
    ReservedFirst(given);
    var b := Select(f, 256, N);
    if b >= 0 {
      MergeTotals(f, 256, b);
      var cs := Deeper(zeros, SelfOwner(f), 256, b);
      assert f[256] == 1 && SelfOwner(f)[256] == 256 && cs[256] == 1;
      assert SizesOf(given) == SizesEnd(Merge(f, 256, b), Joined(SelfOwner(f), 256, b), cs);
      SizesGrow(Merge(f, 256, b), Joined(SelfOwner(f), 256, b), cs);
    } else {
      NoneUsed(zeros);
    }
  }

  lemma LostUnsolvable(given: seq<nat>, m: nat)
    requires |given| == N && NothingCounted(SizesOf(given))
    ensures !Solvable(given)
  {
    var cs := SizesOf(given);
    if Solvable(given) {
      forall s | 0 <= s < N ensures cs[s] == 0 {
        if cs[s] > 0 { LengthCountZero(cs, cs[s]); }
      }
      NoneUsed(cs);
      ReservedTotals(given);
      RootsKraft(WithReserved(given));
      FewerSizes(WithReserved(given), cs);
      DepthKraftIs(WithReserved(given), cs);
      NoLengths(cs);
    }
  }

  /** The table can be used exactly if the counts are solvable. */
  lemma TableIs(given: seq<nat>, m: nat, full: seq<Byte>, hv: seq<Byte>, p: nat)
    requires |given| == N && !Overlong(given) && Trimmed(full, SizesOf(given), m)
    requires m + Alone(WithReserved(given), SizesOf(given)) == CountUsed(MergeEnd(WithReserved(given)))
    requires DepthKraft(SizesOf(given)) == m * WHOLE
    requires Listing(SizesOf(given)[..256], hv, p, MAX_CLEN + 1, 0)
    ensures var t := HuffTable(full[..17], hv);
            Solvable(given) <==> Acceptable(t, false) && Covers(t, given)
    ensures Solvable(given) ==> TableOf(HuffTable(full[..17], hv), given, SizesOf(given))
  {
    if Solvable(given) {
      SolvableTable(given, m, full, hv, p);
    } else {
      UnsolvableTable(given, m, full, hv, p);
    }
  }

  lemma UnsolvableTable(given: seq<nat>, m: nat, full: seq<Byte>, hv: seq<Byte>, p: nat)
    requires |given| == N && !Overlong(given) && !Solvable(given) && Trimmed(full, SizesOf(given), m)
    requires m + Alone(WithReserved(given), SizesOf(given)) == CountUsed(MergeEnd(WithReserved(given)))
    requires DepthKraft(SizesOf(given)) == m * WHOLE
    requires Listing(SizesOf(given)[..256], hv, p, MAX_CLEN + 1, 0)
    ensures var t := HuffTable(full[..17], hv); !(Acceptable(t, false) && Covers(t, given))
  {
    var t := HuffTable(full[..17], hv);
    CountPrefix(full, t.bits, 16);
    if !BytesSuffice(SizesOf(given)) {
      EmptyTable(given, t);
    } else if m >= 2 {
      FitsIffKraftBelowOne(t.bits);
    } else if CountUsed(given[..256]) == 0 {
      NothingToMerge(given);
    } else {
      MissingSymbol(given, t, p);
    }
  }

  lemma SolvableTable(given: seq<nat>, m: nat, full: seq<Byte>, hv: seq<Byte>, p: nat)
    requires |given| == N && Solvable(given) && Trimmed(full, SizesOf(given), m)
    requires m + Alone(WithReserved(given), SizesOf(given)) == 1
    requires Listing(SizesOf(given)[..256], hv, p, MAX_CLEN + 1, 0)
    ensures TableOf(HuffTable(full[..17], hv), given, SizesOf(given))
  {
    var f, cs := WithReserved(given), SizesOf(given);
    AllSized(f, cs);
    ListedAll(cs, full, hv, p);
    TableAcceptable(f, cs, full, hv, p, false);
    if forall s :: 16 <= s < 256 ==> given[s] == 0 {
      TableAcceptable(f, cs, full, hv, p, true);
    }
    CoversGiven(HuffTable(full[..17], hv), given);
  }

  /** The table lists as many symbols as it has codes. */
  lemma ListedAll(cs: seq<nat>, full: seq<Byte>, hv: seq<Byte>, p: nat)
    requires |cs| == N && cs[256] > 0 && |full| == MAX_CLEN + 1 && Count(full, 16) == CountUsed(cs) - 1
    requires (forall s :: 0 <= s < N ==> cs[s] <= MAX_CLEN) && Listing(cs[..256], hv, p, MAX_CLEN + 1, 0)
    ensures Count(full[..17], 16) == p && InOrder(cs, hv, p) && Ranked(cs[..256], hv, p)
  {
    CountPrefix(full, full[..17], 16);
    UsedLast(cs, 256);
    LaterNone(cs[..256], MAX_CLEN + 1, 0);
    assert forall q :: 0 <= q < p ==> cs[..256][hv[q]] == cs[hv[q]];
  }

  /** In a single tree every used symbol has a size. */
  lemma AllSized(f: seq<nat>, cs: seq<nat>)
    requires cs == CodeSizes(f) && Alone(f, cs) == 0
    ensures (forall s :: 0 <= s < |f| ==> (f[s] > 0 <==> cs[s] > 0)) && CountUsed(cs) == CountUsed(f)
  {
    RootsKraft(f);
    AloneZero(f, cs);
    FewerSizes(f, cs);
  }

  /** The reserved symbol is none of the table's. */
  lemma CoversGiven(t: HuffTable, given: seq<nat>)
    requires |given| == N && t.Shaped() && Covers(t, WithReserved(given))
    ensures Covers(t, given)
  {
    assert forall s :: 0 <= s < 256 ==> WithReserved(given)[s] == given[s];
  }

  lemma {:induction false} SomeUsed(w: seq<nat>) returns (s: nat)
    requires CountUsed(w) >= 1
    ensures s < |w| && w[s] > 0
  {
    if w[0] > 0 {
      s := 0;
    } else {
      var r := SomeUsed(w[1..]);
      s := r + 1;
    }
  }

  /** After a wrap the table lists nothing, though hundreds of symbols are counted. */
  lemma EmptyTable(given: seq<nat>, t: HuffTable)
    requires |given| == N && !BytesSuffice(SizesOf(given)) && t.Shaped() && Count(t.bits, 16) == 0
    ensures !Covers(t, given)
  {
    var f, cs := WithReserved(given), SizesOf(given);
    var k :| 1 <= k <= MAX_CLEN && LengthCount(cs, k) >= 256;
    LengthCountBound(cs, k);
    RootsKraft(f);
    FewerSizes(f, cs);
    ReservedTotals(given);
    var s := SomeUsed(given[..256]);
    assert given[..256][s] == given[s];
  }

  /** With more than one root left, a symbol that is counted has no size, so it is not listed. */
  lemma MissingSymbol(given: seq<nat>, t: HuffTable, p: nat)
    requires |given| == N && !OneTree(WithReserved(given)) && t.Shaped()
    requires DepthKraft(SizesOf(given)) == WHOLE
    requires 1 + Alone(WithReserved(given), SizesOf(given)) == CountUsed(MergeEnd(WithReserved(given)))
    requires Count(t.bits, 16) == CountUsed(SizesOf(given)) - 1
    requires Listing(SizesOf(given)[..256], t.huffval, p, MAX_CLEN + 1, 0) && !Overlong(given)
    ensures !Covers(t, given)
  {
    var f, cs := WithReserved(given), SizesOf(given);
    AloneZero(f, cs);
    var s :| 0 <= s < N && f[s] > 0 && cs[s] == 0;
    if cs[256] == 0 {
      ReservedSized(given);
      NoLengths(cs);
    }
    UsedLast(cs, 256);
    LaterNone(cs[..256], MAX_CLEN + 1, 0);
    forall q | 0 <= q < Count(t.bits, 16) ensures t.huffval[q] as int != s {
      assert cs[..256][t.huffval[q]] == cs[t.huffval[q]];
    }
  }

  lemma {:induction false} AllUnused(w: seq<nat>)
    requires CountUsed(w) == 0
    ensures forall s :: 0 <= s < |w| ==> w[s] == 0
  {
    if w != [] {
      AllUnused(w[1..]);
      assert forall s :: 1 <= s < |w| ==> w[s] == w[1..][s - 1];
    }
  }

  /** Nothing is merged for the reserved symbol alone. */
  lemma NothingToMerge(given: seq<nat>)
    requires |given| == N && CountUsed(given[..256]) == 0
    ensures CountUsed(SizesOf(given)) == 0
  {
    var f := WithReserved(given);
    AllUnused(given[..256]);
    assert forall s :: 0 <= s < 256 ==> f[s] == given[..256][s];
    ReservedFirst(given);
    NoneUsed(NoSizes(N));
  }

  // ---------------------------------------------------------------- bounds

  /** What the total says: below the limit there is one tree, from twice the limit on there is not. */
  lemma TotalBounds(given: seq<nat>)
    requires |given| == N && CountUsed(given[..256]) >= 1
    ensures Total(given[..256]) < LIMIT ==> OneTree(WithReserved(given))
    ensures OneTree(WithReserved(given)) ==> Total(given[..256]) < 2 * LIMIT
  {
    var f := WithReserved(given);
    ReservedTotals(given);
    if Total(given[..256]) < LIMIT { LightEnough(f); }
    if OneTree(f) { OneTreeTotal(f); }
  }

  lemma {:induction false} SizesWithin(cs: seq<nat>)
    requires CountUsed(cs) <= 255
    ensures BytesSuffice(cs)
  {
    forall k | 1 <= k <= MAX_CLEN ensures LengthCount(cs, k) < 256 { LengthCountBound(cs, k); }
  }

  /** With at most 254 symbols no byte wraps. */
  lemma FewSymbols(given: seq<nat>)
    requires |given| == N && CountUsed(given[..256]) <= 254
    ensures BytesSuffice(SizesOf(given))
  {
    ReservedTotals(given);
    RootsKraft(WithReserved(given));
    FewerSizes(WithReserved(given), SizesOf(given));
    SizesWithin(SizesOf(given));
  }

  /** A symbol counted more often than the limit gets no code. */
  lemma TooFrequent(given: seq<nat>, s: nat)
    requires |given| == N && s < 256 && given[s] > LIMIT
    ensures SizesOf(given)[s] == 0 && !Solvable(given)
  {
    var f := WithReserved(given);
    HeavyUnsized(f, SelfOwner(f), NoSizes(N), s);
    HeavyStays(f, s);
    assert given[..256][s] == given[s];
    if OneTree(f) {
      SingleTotal(MergeEnd(f), s);
      MergeEndTotals(f);
      ReservedTotals(given);
      TotalAtLeast(given[..256], s);
    }
  }

  /** One symbol counted 1000000001 times and another five times: the first is left without a code. */
  lemma TwoRootsLeft(given: seq<nat>)
    requires |given| == N && given[0] == 1_000_000_001 && given[1] == 5 && forall s :: 2 <= s < N ==> given[s] == 0
    ensures SizesOf(given)[0] == 0 && SizesOf(given)[1] == 1 && SizesOf(given)[256] == 1
    ensures !Solvable(given)
  {
    var f := WithReserved(given);
    TooFrequent(given, 0);
    var r := Merge(f, 256, 1);
    SelectIs(f, -1, N, 256);
    SelectIs(f, 256, N, 1);
    SelectIs(r, -1, N, 256);
    SelectLeast(r, 256, N);
    MergeTotals(f, 256, 1);
    assert SizesOf(given) == SizesEnd(r, Joined(SelfOwner(f), 256, 1), Deeper(NoSizes(N), SelfOwner(f), 256, 1));
  }

  /** A count of exactly 10^9 is still merged. */
  lemma AtTheLimit(given: seq<nat>)
    requires |given| == N && given[0] == 1_000_000_000 && forall s :: 1 <= s < N ==> given[s] == 0
    ensures SizesOf(given)[0] == 1 && SizesOf(given)[256] == 1 && OneTree(WithReserved(given))
  {
    var f := WithReserved(given);
    SelectIs(f, -1, N, 256);
    SelectIs(f, 256, N, 0);
    var r := Merge(f, 256, 0);
    MergeTotals(f, 256, 0);
    SelectLeast(r, -1, N);
    SelectLeast(r, Select(r, -1, N), N);
    OneUsed(r, 256);
    TotalAtLeast(r, 256);
    assert SizesOf(given) == SizesEnd(r, Joined(SelfOwner(f), 256, 0), Deeper(NoSizes(N), SelfOwner(f), 256, 0));
  }

  /** That symbol alone: nothing is merged, no byte counts a code, and the search below leaves its array. */
  lemma OneTooFrequent(given: seq<nat>)
    requires |given| == N && given[0] == 1_000_000_001 && forall s :: 1 <= s < N ==> given[s] == 0
    ensures NothingCounted(SizesOf(given)) && !Overlong(given) && !Solvable(given)
  {
    var f := WithReserved(given);
    TooFrequent(given, 0);
    SelectIs(f, -1, N, 256);
    SelectLeast(f, 256, N);
    assert SizesOf(given) == NoSizes(N);
    NoneUsed(NoSizes(N));
    NoLengths(NoSizes(N));
  }

  /** The search finds the last of the lightest. */
  lemma {:induction false} SelectIs(w: seq<nat>, ex: int, n: nat, c: nat)
    requires c < n <= |w| && c != ex && 0 < w[c] <= LIMIT
    requires forall j :: 0 <= j < n && j != ex && w[j] > 0 ==> w[c] <= w[j] && (j > c ==> w[c] < w[j])
    ensures Select(w, ex, n) == c
  {
    if c < n - 1 {
      SelectIs(w, ex, n - 1, c);
    } else {
      SelectLeast(w, ex, n - 1);
    }
  }

  // ---------------------------------------------------------------- 255 symbols are too many

  /** Kraft units of a code of eight bits. */
  const EIGHTH: real := 16777216.0

  /** 2^-c lies above a line that touches it at eight bits only. */
  lemma AboveLine(c: nat)
    ensures HalfPow(c) + 0.75 * EIGHTH * c as real >= 7.0 * EIGHTH
    ensures HalfPow(c) + 0.75 * EIGHTH * c as real == 7.0 * EIGHTH <==> c == 8
  {
    assert HalfPow(4) == 16.0 * EIGHTH && HalfPow(8) == EIGHTH;
  }

  /** No count is greater than one. */
  predicate AllOnce(f: seq<nat>)
  {
    forall s :: 0 <= s < |f| ==> f[s] <= 1
  }

  lemma {:induction false} SumAboveLine(f: seq<nat>, cs: seq<nat>)
    requires |f| == |cs| && AllOnce(f)
    ensures KraftUsed(f, cs) + 0.75 * EIGHTH * Cost(f, cs) as real >= 7.0 * EIGHTH * CountUsed(f) as real
    ensures KraftUsed(f, cs) + 0.75 * EIGHTH * Cost(f, cs) as real == 7.0 * EIGHTH * CountUsed(f) as real ==>
              forall s :: 0 <= s < |f| && f[s] > 0 ==> cs[s] == 8
  {
    if f != [] {
      SumAboveLine(f[1..], cs[1..]);
      AboveLine(cs[0]);
    }
  }

  lemma {:induction false} EightBits(f: seq<nat>, len: seq<nat>)
    requires |f| == |len| && AllOnce(f) && forall s :: 0 <= s < |f| ==> len[s] == 8
    ensures KraftSum(f, len, 8) == CountUsed(f) && Cost(f, len) == 8 * CountUsed(f) && Total(f) == CountUsed(f)
  {
    if f != [] { EightBits(f[1..], len[1..]); }
  }

  lemma {:induction false} CountEights(f: seq<nat>, cs: seq<nat>)
    requires |f| == |cs| && forall s :: 0 <= s < |f| ==> cs[s] == if f[s] > 0 then 8 else 0
    ensures LengthCount(cs, 8) == CountUsed(f)
  {
    if f != [] { CountEights(f[1..], cs[1..]); }
  }

  /**
   255 symbols counted once each: they and the reserved one all get eight bits, 256 codes of one length
   wrap the byte they are counted in, and again the search leaves its array.
   */
  lemma EqualCountsWrap(given: seq<nat>)
    requires |given| == N && AllOnce(given) && CountUsed(given[..256]) == 255
    ensures LengthCount(SizesOf(given), 8) == 256
    ensures OneTree(WithReserved(given)) && !Overlong(given) && NothingCounted(SizesOf(given)) && !Solvable(given)
  {
    var f, cs := WithReserved(given), SizesOf(given);
    ReservedTotals(given);
    var eights: seq<nat> := seq(N, _ => 8);
    EightBits(f, eights);
    Pow2Constants();
    MergeCostLeast(f, eights, 8);
    SizesCost(f);
    LightEnough(f);
    RootsKraft(f);
    SumAboveLine(f, cs);
    CountEights(f, cs);
    forall k | 1 <= k <= MAX_CLEN && k != 8 ensures LengthCount(cs, k) == 0 { LengthCountZero(cs, k); }
  }
}
