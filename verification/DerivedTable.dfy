/**
 Canonical Huffman code tables: jpeg_make_c_derived_tbl (Annex C of ITU-T T.81), and
 the DECODE procedure of section F.2.2.3 as the specification of what a code means.
 */
module DerivedTable {
  import opened Wrappers
  import opened Bits
  import opened BitWriter

  /** bits[l] is the number of codes of length l (bits[0] is unused); huffval lists the symbols by code length. */
  datatype HuffTable = HuffTable(bits: seq<Byte>, huffval: seq<Byte>)
  {
    predicate Shaped() { |bits| == 17 && |huffval| == 256 }
  }

  /** Code and code length of every symbol; length 0 marks a symbol without a code. */
  datatype Derived = Derived(ehufco: seq<nat>, ehufsi: seq<nat>)
  {
    predicate Shaped()
    {
      |ehufco| == 256 && |ehufsi| == 256 && forall s :: 0 <= s < 256 ==> ehufsi[s] <= 16
    }

    predicate Has(s: nat)
      requires Shaped()
    {
      s < 256 && ehufsi[s] != 0
    }

    function Code(s: nat): BitString
      requires Shaped() && s < 256
    {
      BitsOf(ehufco[s], ehufsi[s])
    }
  }

  datatype Result<+T> = Ok(value: T) | Err(error: JpegError)

  // ---------------------------------------------------------------- specification

  /** Number of codes of length at most l. */
  function Count(bits: seq<Byte>, l: nat): nat
    requires l < |bits|
  {
    if l == 0 then 0 else Count(bits, l - 1) + bits[l]
  }

  /** The first code of length l. */
  function First(bits: seq<Byte>, l: nat): nat
    requires l < |bits|
  {
    if l <= 1 then 0 else 2 * (First(bits, l - 1) + bits[l - 1])
  }

  /** The Kraft sum of the codes of length at most l, in units of 2^-l. */
  function Kraft(bits: seq<Byte>, l: nat): nat
    requires l < |bits|
  {
    if l == 0 then 0 else 2 * Kraft(bits, l - 1) + bits[l]
  }

  /** The length of the p-th code. */
  function SizeAt(bits: seq<Byte>, p: nat, l: nat := 1): (r: nat)
    requires |bits| == 17 && 1 <= l <= 16
    requires Count(bits, l - 1) <= p < Count(bits, 16)
    ensures l <= r <= 16 && Count(bits, r - 1) <= p < Count(bits, r)
    decreases |bits| - l
  {
    if p < Count(bits, l) then l else SizeAt(bits, p, l + 1)
  }

  function CodeAt(bits: seq<Byte>, p: nat): nat
    requires |bits| == 17 && p < Count(bits, 16)
  {
    var l := SizeAt(bits, p);
    First(bits, l) + (p - Count(bits, l - 1))
  }

  function CodeBits(bits: seq<Byte>, p: nat): BitString
    requires |bits| == 17 && p < Count(bits, 16)
  {
    BitsOf(CodeAt(bits, p), SizeAt(bits, p))
  }

  /** Every code of every length fits, with the all-ones code never reached. */
  ghost predicate Fits(bits: seq<Byte>)
    requires |bits| == 17
  {
    forall l :: 1 <= l <= 16 ==> First(bits, l) + bits[l] < Pow2(l)
  }

  function MaxSymbol(isDC: bool): nat { if isDC then 15 else 255 }

  ghost predicate GoodSymbols(t: HuffTable, isDC: bool, n: nat)
    requires t.Shaped() && n <= 256
  {
    && (forall p :: 0 <= p < n ==> t.huffval[p] <= MaxSymbol(isDC))
    && (forall p, q :: 0 <= p < q < n ==> t.huffval[p] != t.huffval[q])
  }

  ghost predicate Acceptable(t: HuffTable, isDC: bool)
    requires t.Shaped()
  {
    Count(t.bits, 16) <= 256 && Fits(t.bits) && GoodSymbols(t, isDC, Count(t.bits, 16))
  }

  /** d gives the p-th listed symbol the p-th canonical code, and no other symbol a code. */
  ghost predicate IsDerived(t: HuffTable, d: Derived)
    requires t.Shaped() && Count(t.bits, 16) <= 256
  {
    d.Shaped() &&
    (forall p :: 0 <= p < Count(t.bits, 16) ==>
      d.ehufsi[t.huffval[p]] == SizeAt(t.bits, p) && d.ehufco[t.huffval[p]] == CodeAt(t.bits, p)) &&
    (forall s :: 0 <= s < 256 && d.ehufsi[s] != 0 ==> exists p :: 0 <= p < Count(t.bits, 16) && t.huffval[p] == s)
  }

  // ---------------------------------------------------------------- arithmetic of canonical codes

  lemma {:induction false} CountMono(bits: seq<Byte>, l: nat, m: nat)
    requires l <= m < |bits|
    ensures Count(bits, l) <= Count(bits, m)
  {
    if l < m { CountMono(bits, l, m - 1); }
  }

  /** The position's length is determined by the counts. */
  lemma SizeUnique(bits: seq<Byte>, p: nat, l: nat)
    requires |bits| == 17 && 1 <= l <= 16
    requires Count(bits, l - 1) <= p < Count(bits, l)
    ensures p < Count(bits, 16) && SizeAt(bits, p) == l
  {
    CountMono(bits, l, 16);
    var r := SizeAt(bits, p);
    if r < l { CountMono(bits, r, l - 1); }
    if l < r { CountMono(bits, l, r - 1); }
  }

  lemma {:induction false} KraftIsCodesUsed(bits: seq<Byte>, l: nat)
    requires 1 <= l < |bits|
    ensures Kraft(bits, l) == First(bits, l) + bits[l]
  {
    if l > 1 {
      KraftIsCodesUsed(bits, l - 1);
    } else {
      assert Kraft(bits, 0) == 0;
    }
  }

  lemma {:induction false} KraftGrows(bits: seq<Byte>, l: nat, m: nat)
    requires l <= m < |bits|
    ensures Kraft(bits, m) >= Pow2(m - l) * Kraft(bits, l)
  {
    if l < m {
      KraftGrows(bits, l, m - 1);
      TwiceProduct(Pow2(m - 1 - l), Kraft(bits, l));
      assert Pow2(m - l) == 2 * Pow2(m - 1 - l);
    } else {
      assert Pow2(0) == 1;
    }
  }

  /** One number decides whether all codes fit: the Kraft sum must be strictly below one. */
  lemma FitsIffKraftBelowOne(bits: seq<Byte>)
    requires |bits| == 17
    ensures Fits(bits) <==> Kraft(bits, 16) < Pow2(16)
  {
    KraftIsCodesUsed(bits, 16);
    if Kraft(bits, 16) < Pow2(16) {
      forall l | 1 <= l <= 16
        ensures First(bits, l) + bits[l] < Pow2(l)
      {
        KraftIsCodesUsed(bits, l);
        KraftGrows(bits, l, 16);
        Pow2Add(16 - l, l);
        if Kraft(bits, l) >= Pow2(l) {
          MulMono(Pow2(16 - l), Pow2(l), Kraft(bits, l));
        }
      }
    }
  }

  /** Cut to a shorter length, a code lies past all codes of that length. */
  lemma {:induction false} LaterCodesBeyond(bits: seq<Byte>, m: nat, l: nat)
    requires 1 <= m < l < |bits|
    ensures First(bits, l) >= Pow2(l - m) * (First(bits, m) + bits[m])
    decreases l
  {
    var u := First(bits, m) + bits[m];
    if l > m + 1 {
      LaterCodesBeyond(bits, m, l - 1);
      TwiceProduct(Pow2(l - 1 - m), u);
      assert Pow2(l - m) == 2 * Pow2(l - 1 - m);
    } else {
      assert Pow2(1) == 2 * Pow2(0);
    }
  }

  lemma TwiceProduct(a: nat, b: nat)
    ensures 2 * a * b == 2 * (a * b)
  {
  }

  /** A code v of length n, cut to m < n bits. */
  lemma CutCodeBeyond(bits: seq<Byte>, n: nat, v: nat, m: nat)
    requires 1 <= m < n < |bits| && v >= First(bits, n)
    ensures v / Pow2(n - m) >= First(bits, m) + bits[m]
  {
    LaterCodesBeyond(bits, m, n);
    DivAtLeast(v, Pow2(n - m), First(bits, m) + bits[m]);
  }

  lemma DivAtLeast(v: nat, d: nat, q: nat)
    requires d >= 1 && v >= d * q
    ensures v / d >= q
  {
    var q' := v / d;
    assert v == d * q' + v % d;
    MulAtLeast(d, q - q');
    assert d * q == d * q' + d * (q - q');
  }

  /** The codes of figure C.2 one after the other: the first is zero, and each is one more than the last, shifted up to its own length. */
  lemma CodesConsecutive(bits: seq<Byte>, p: nat)
    requires |bits| == 17 && p < Count(bits, 16)
    ensures p == 0 ==> CodeAt(bits, p) == 0
    ensures p > 0 ==> SizeAt(bits, p - 1) <= SizeAt(bits, p)
    ensures p > 0 ==> CodeAt(bits, p) == (CodeAt(bits, p - 1) + 1) * Pow2(SizeAt(bits, p) - SizeAt(bits, p - 1))
  {
    var l := SizeAt(bits, p);
    if p == 0 {
      CountMono(bits, 0, l - 1);
      NoneBelow(bits, l - 1);
    } else {
      NextCode(bits, p - 1, SizeAt(bits, p - 1), l);
    }
  }

  lemma NextCode(bits: seq<Byte>, p: nat, m: nat, l: nat)
    requires |bits| == 17 && 1 <= m <= 16 && 1 <= l <= 16
    requires Count(bits, m - 1) <= p < Count(bits, m) && Count(bits, l - 1) <= p + 1 < Count(bits, l)
    ensures m <= l && First(bits, l) + (p + 1 - Count(bits, l - 1)) == (First(bits, m) + (p - Count(bits, m - 1)) + 1) * Pow2(l - m)
  {
    assert Pow2(0) == 1;
    if l < m {
      CountMono(bits, l, m - 1);
    } else if l > m {
      CountMono(bits, m, l - 1);
      NoneBetween(bits, m, l);
    }
  }

  /** Where no codes lie in between, the first code of a length is the end of an earlier one shifted up. */
  lemma {:induction false} NoneBetween(bits: seq<Byte>, m: nat, l: nat)
    requires 1 <= m < l < |bits| && Count(bits, m) == Count(bits, l - 1)
    ensures First(bits, l) == (First(bits, m) + bits[m]) * Pow2(l - m)
    decreases l
  {
    assert Pow2(0) == 1 && Pow2(1) == 2 * Pow2(0);
    if m + 1 < l {
      CountMono(bits, m, l - 2);
      NoneBetween(bits, m, l - 1);
      MulDouble(First(bits, m) + bits[m], Pow2(l - 1 - m));
    }
  }

  lemma MulDouble(a: nat, b: nat)
    ensures 2 * (a * b) == a * (2 * b)
  {
  }

  /** What the routine accepts, in numbers. */
  lemma AcceptedTables(t: HuffTable, isDC: bool)
    requires t.Shaped()
    ensures Acceptable(t, isDC) <==>
            (var n := CodesCounted(t.bits);
             n <= 256 && CodeSpace(t.bits) < 65536 &&
             (forall p :: 0 <= p < n ==> t.huffval[p] <= if isDC then 15 else 255) &&
             (forall p, q :: 0 <= p < q < n ==> t.huffval[p] != t.huffval[q]))
  {
    FitsIffKraftBelowOne(t.bits);
    Pow2Constants();
    CountIsSum(t.bits);
    KraftIsSum(t.bits);
    assert MaxSymbol(isDC) == if isDC then 15 else 255;
  }

  function CodesCounted(b: seq<int>): int
    requires |b| == 17
  {
    b[1] + b[2] + b[3] + b[4] + b[5] + b[6] + b[7] + b[8] + b[9] + b[10] + b[11] + b[12] + b[13] + b[14] + b[15] + b[16]
  }

  /** The part of all codes of 16 bits that lies under the counted codes. */
  function CodeSpace(b: seq<int>): int
    requires |b| == 17
  {
    32768 * b[1] + 16384 * b[2] + 8192 * b[3] + 4096 * b[4] + 2048 * b[5] + 1024 * b[6] + 512 * b[7] + 256 * b[8]
    + 128 * b[9] + 64 * b[10] + 32 * b[11] + 16 * b[12] + 8 * b[13] + 4 * b[14] + 2 * b[15] + b[16]
  }

  lemma CountIsSum(bits: seq<Byte>)
    requires |bits| == 17
    ensures Count(bits, 16) == CodesCounted(bits)
  {
    CountFour(bits, 0);
    CountFour(bits, 4);
    CountFour(bits, 8);
    CountFour(bits, 12);
  }

  lemma CountFour(bits: seq<int>, l: nat)
    requires |bits| == 17 && l + 4 <= 16 && forall k :: 0 <= k < 17 ==> 0 <= bits[k] < 256
    ensures Count(bits, l + 4) == Count(bits, l) + bits[l + 1] + bits[l + 2] + bits[l + 3] + bits[l + 4]
  {
    assert Count(bits, l + 2) == Count(bits, l) + bits[l + 1] + bits[l + 2];
  }

  lemma KraftIsSum(bits: seq<Byte>)
    requires |bits| == 17
    ensures Kraft(bits, 16) == CodeSpace(bits)
  {
    KraftFour(bits, 0);
    KraftFour(bits, 4);
    KraftFour(bits, 8);
    KraftFour(bits, 12);
  }

  lemma KraftFour(bits: seq<int>, l: nat)
    requires |bits| == 17 && l + 4 <= 16 && forall k :: 0 <= k < 17 ==> 0 <= bits[k] < 256
    ensures Kraft(bits, l + 4) == 16 * Kraft(bits, l) + 8 * bits[l + 1] + 4 * bits[l + 2] + 2 * bits[l + 3] + bits[l + 4]
  {
    assert Kraft(bits, l + 2) == 4 * Kraft(bits, l) + 2 * bits[l + 1] + bits[l + 2];
  }

  /** The listed codes go through the lengths in turn, with as many of each as are counted. */
  lemma AsManyOfEach(bits: seq<Byte>, l: nat)
    requires |bits| == 17 && 1 <= l <= 16
    ensures Count(bits, l) == Count(bits, l - 1) + bits[l] && (l == 1 ==> Count(bits, l - 1) == 0)
    ensures forall p: nat | p < Count(bits, 16) :: SizeAt(bits, p) == l <==> Count(bits, l - 1) <= p < Count(bits, l)
  {
    CountMono(bits, l, 16);
    forall p: nat | p < Count(bits, 16)
      ensures SizeAt(bits, p) == l <==> Count(bits, l - 1) <= p < Count(bits, l)
    {
      if Count(bits, l - 1) <= p < Count(bits, l) { SizeUnique(bits, p, l); }
    }
  }

  // ---------------------------------------------------------------- decoding

  /** DECODE with l bits read, making the number code: the index of the code found and the bits left. */
  function DecodeFrom(bits: seq<Byte>, s: BitString, l: nat, code: nat): Option<(nat, BitString)>
    requires |bits| == 17 && 1 <= l <= 16 && code >= First(bits, l)
    decreases |bits| - l
  {
    if code < First(bits, l) + bits[l] then Some((Count(bits, l - 1) + (code - First(bits, l)), s))
    else if l == 16 || s == [] then None
    else DecodeFrom(bits, s[1..], l + 1, 2 * code + (if s[0] then 1 else 0))
  }

  function DecodeIndex(bits: seq<Byte>, s: BitString): Option<(nat, BitString)>
    requires |bits| == 17
  {
    if s == [] then None else DecodeFrom(bits, s[1..], 1, if s[0] then 1 else 0)
  }

  /** DECODE: the symbol whose code comes first in s, and the bits after it. */
  function Decode(t: HuffTable, s: BitString): Option<(nat, BitString)>
    requires t.Shaped()
  {
    match DecodeIndex(t.bits, s)
    case None => None
    case Some((p, rest)) => if p < 256 then Some((t.huffval[p] as nat, rest)) else None
  }

  /** Having read the first l bits of a code v of length n, DECODE goes on to find it. */
  lemma {:induction false} DecodeFromCode(bits: seq<Byte>, n: nat, v: nat, l: nat, rest: BitString)
    requires |bits| == 17 && 1 <= l <= n <= 16
    requires First(bits, n) <= v < First(bits, n) + bits[n]
    ensures v / Pow2(n - l) >= First(bits, l)
    ensures DecodeFrom(bits, BitsOf(v, n - l) + rest, l, v / Pow2(n - l))
            == Some((Count(bits, n - 1) + (v - First(bits, n)), rest))
    decreases n - l
  {
    if l == n {
      assert v / Pow2(0) == v;
      assert BitsOf(v, 0) + rest == rest;
    } else {
      CutCodeBeyond(bits, n, v, l);
      DecodeFromCode(bits, n, v, l + 1, rest);
      NextBit(v, n - l, rest);
    }
  }

  /** Reading one more of the n bits left of v. */
  lemma NextBit(v: nat, n: nat, rest: BitString)
    requires n >= 1
    ensures var s := BitsOf(v, n) + rest;
            s != [] && s[1..] == BitsOf(v, n - 1) + rest &&
            v / Pow2(n - 1) == 2 * (v / Pow2(n)) + (if s[0] then 1 else 0)
  {
    BitsOfHead(v, n);
    DivStep(v, n - 1);
    var s := BitsOf(v, n) + rest;
    assert s[1..] == BitsOf(v, n - 1) + rest;
  }

  lemma DecodeIndexValue(bits: seq<Byte>, n: nat, v: nat, rest: BitString)
    requires |bits| == 17 && 1 <= n <= 16
    requires First(bits, n) <= v < First(bits, n) + bits[n] <= Pow2(n)
    ensures DecodeIndex(bits, BitsOf(v, n) + rest) == Some((Count(bits, n - 1) + (v - First(bits, n)), rest))
  {
    DecodeFromCode(bits, n, v, 1, rest);
    NextBit(v, n, rest);
    DivSmall(v, Pow2(n));
  }

  lemma DivSmall(v: nat, d: nat)
    requires v < d
    ensures v / d == 0
  {
  }

  /** DECODE finds every code, whatever follows it. */
  lemma DecodeIndexCode(bits: seq<Byte>, p: nat, rest: BitString)
    requires |bits| == 17 && Fits(bits) && p < Count(bits, 16)
    ensures DecodeIndex(bits, CodeBits(bits, p) + rest) == Some((p, rest))
  {
    DecodeIndexValue(bits, SizeAt(bits, p), CodeAt(bits, p), rest);
  }

  lemma DecodeCode(t: HuffTable, d: Derived, isDC: bool, s: nat, rest: BitString)
    requires t.Shaped() && Acceptable(t, isDC) && IsDerived(t, d) && d.Has(s)
    ensures Decode(t, d.Code(s) + rest) == Some((s, rest))
  {
    var p :| 0 <= p < Count(t.bits, 16) && t.huffval[p] == s;
    DecodeIndexCode(t.bits, p, rest);
  }

  /** No code is a prefix of another: otherwise DECODE would find both. */
  lemma PrefixFree(t: HuffTable, d: Derived, isDC: bool, a: nat, b: nat)
    requires t.Shaped() && Acceptable(t, isDC) && IsDerived(t, d) && d.Has(a) && d.Has(b) && a != b
    ensures !(d.Code(a) <= d.Code(b))
  {
    var x, y := d.Code(a), d.Code(b);
    DecodeCode(t, d, isDC, b, []);
    if x <= y {
      assert x + y[|x|..] == y + [];
      DecodeCode(t, d, isDC, a, y[|x|..]);
    }
  }

  /** No symbol has the code of all one bits. */
  lemma NeverAllOnes(t: HuffTable, d: Derived, isDC: bool, s: nat)
    requires t.Shaped() && Acceptable(t, isDC) && IsDerived(t, d) && d.Has(s)
    ensures 1 <= |d.Code(s)| <= 16 && d.Code(s) != Ones(|d.Code(s)|)
  {
    var p :| 0 <= p < Count(t.bits, 16) && t.huffval[p] == s;
    CodeBitsNotAllOnes(t.bits, p);
  }

  lemma CodeBitsNotAllOnes(bits: seq<Byte>, p: nat)
    requires |bits| == 17 && p < Count(bits, 16) && Fits(bits)
    ensures CodeBits(bits, p) != Ones(|CodeBits(bits, p)|)
  {
    var l := SizeAt(bits, p);
    assert First(bits, l) + bits[l] < Pow2(l);
    NotAllOnes(CodeAt(bits, p), l);
  }

  lemma NotAllOnes(v: nat, n: nat)
    requires v + 1 < Pow2(n)
    ensures BitsOf(v, n) != Ones(n)
  {
    ValBits(v, n);
    OnesVal(n);
  }

  // ---------------------------------------------------------------- jpeg_make_c_derived_tbl

  /** huffsize[0..n] lists the code lengths in order, ending with a zero. */
  ghost predicate SizesListed(bits: seq<Byte>, sizes: seq<nat>, n: nat)
    requires |bits| == 17
  {
    n == Count(bits, 16) <= 256 && |sizes| == 257 && sizes[n] == 0 &&
    forall k :: 0 <= k < n ==> sizes[k] == SizeAt(bits, k)
  }

  /** Figure C.1: make the table of code lengths. */
  method ListSizes(bits: seq<Byte>, huffsize: array<nat>) returns (ok: bool, lastp: nat)
    requires |bits| == 17 && huffsize.Length == 257
    modifies huffsize
    ensures ok <==> Count(bits, 16) <= 256
    ensures ok ==> SizesListed(bits, huffsize[..], lastp)
  {
    lastp := 0;
    for l := 1 to 17
      invariant lastp == Count(bits, l - 1) <= 256
      invariant forall k :: 0 <= k < lastp ==> k < Count(bits, 16) && huffsize[k] == SizeAt(bits, k)
    {
      CountMono(bits, l, 16);
      var i: nat := bits[l];
      if lastp + i > 256 {
        return false, lastp;
      }
      while i > 0
        invariant lastp + i == Count(bits, l)
        invariant Count(bits, l - 1) <= lastp
        invariant forall k :: 0 <= k < lastp ==> k < Count(bits, 16) && huffsize[k] == SizeAt(bits, k)
      {
        SizeUnique(bits, lastp, l);
        huffsize[lastp] := l;
        lastp, i := lastp + 1, i - 1;
      }
    }
    huffsize[lastp] := 0;
    ok := true;
  }

  ghost predicate CodesListed(bits: seq<Byte>, codes: seq<nat>, n: nat)
    requires |bits| == 17
  {
    n <= Count(bits, 16) && n <= |codes| && forall k :: 0 <= k < n ==> codes[k] == CodeAt(bits, k)
  }

  /** The inner loop of figure C.2: consecutive codes for all entries of length si. */
  method ListCodesOfLength(bits: seq<Byte>, huffsize: array<nat>, lastp: nat, huffcode: array<nat>, si: nat, p0: nat, code0: nat)
    returns (p: nat, code: nat)
    requires |bits| == 17 && SizesListed(bits, huffsize[..], lastp)
    requires huffcode.Length == 257 && huffcode != huffsize
    requires 1 <= si <= 16 && p0 == Count(bits, si - 1) && code0 == First(bits, si)
    requires CodesListed(bits, huffcode[..], p0)
    modifies huffcode
    ensures p == Count(bits, si) <= lastp && code == First(bits, si) + bits[si]
    ensures CodesListed(bits, huffcode[..], p)
  {
    ghost var sizes := huffsize[..];
    CountMono(bits, si, 16);
    p, code := p0, code0;
    while huffsize[p] == si
      invariant huffsize[..] == sizes && Count(bits, si - 1) <= p <= Count(bits, si)
      invariant code == First(bits, si) + (p - Count(bits, si - 1))
      invariant CodesListed(bits, huffcode[..], p)
      decreases Count(bits, si) - p
    {
      assert sizes[p] == SizeAt(bits, p);
      huffcode[p] := code;
      p, code := p + 1, code + 1;
    }
    if p < Count(bits, si) { SizeUnique(bits, p, si); }
  }

  /** The state of figure C.2 about to assign the codes of length si. */
  ghost predicate AtLength(bits: seq<Byte>, lastp: nat, si: nat, p: nat, code: nat)
    requires |bits| == 17
  {
    si <= 17 && p <= lastp &&
    (if si == 0 then lastp == 0 else p == Count(bits, si - 1) && (si <= 16 ==> code == First(bits, si))) &&
    FitsBelow(bits, si)
  }

  ghost predicate FitsBelow(bits: seq<Byte>, si: nat)
    requires |bits| == 17 && si <= 17
  {
    forall l :: 1 <= l < si ==> First(bits, l) + bits[l] < Pow2(l)
  }

  /** The end marker is reached exactly when all codes are assigned. */
  lemma EndMarker(bits: seq<Byte>, sizes: seq<nat>, lastp: nat, si: nat, p: nat, code: nat)
    requires |bits| == 17 && SizesListed(bits, sizes, lastp) && AtLength(bits, lastp, si, p, code)
    ensures sizes[p] == 0 <==> p == lastp
    ensures sizes[p] != 0 ==> 1 <= si <= 16
  {
    if p < lastp { assert sizes[p] == SizeAt(bits, p); }
  }

  lemma NextLength(bits: seq<Byte>, lastp: nat, si: nat, p: nat, code: nat)
    requires |bits| == 17 && 1 <= si <= 16 && FitsBelow(bits, si)
    requires p == Count(bits, si) <= lastp && code == First(bits, si) + bits[si]
    ensures code < Pow2(si) ==> AtLength(bits, lastp, si + 1, p, code * 2)
    ensures code >= Pow2(si) ==> !Fits(bits)
  {
  }

  /** The codes of length si, which must leave the last code of that length unused. */
  method ListNextLength(bits: seq<Byte>, huffsize: array<nat>, lastp: nat, huffcode: array<nat>, si: nat, p0: nat, code0: nat)
    returns (p: nat, code: nat, ok: bool)
    requires |bits| == 17 && SizesListed(bits, huffsize[..], lastp) && AtLength(bits, lastp, si, p0, code0) && huffsize[p0] != 0
    requires huffcode.Length == 257 && huffcode != huffsize && CodesListed(bits, huffcode[..], p0)
    modifies huffcode
    ensures 1 <= si <= 16 && CodesListed(bits, huffcode[..], p)
    ensures if ok then AtLength(bits, lastp, si + 1, p, code * 2) else !Fits(bits)
  {
    EndMarker(bits, huffsize[..], lastp, si, p0, code0);
    p, code := ListCodesOfLength(bits, huffsize, lastp, huffcode, si, p0, code0);
    NextLength(bits, lastp, si, p, code);
    ok := code < Pow2(si);
  }

  /** Codes in order of length, as in figure C.2; false when some length has too many of them. */
  method ListCodes(bits: seq<Byte>, huffsize: array<nat>, lastp: nat, huffcode: array<nat>) returns (ok: bool)
    requires |bits| == 17 && SizesListed(bits, huffsize[..], lastp)
    requires huffcode.Length == 257 && huffcode != huffsize
    modifies huffcode
    ensures ok <==> Fits(bits)
    ensures ok ==> CodesListed(bits, huffcode[..], lastp)
  {
    var code: nat, si: nat, p: nat := 0, huffsize[0], 0;
    ghost var sizes := huffsize[..];
    StartLength(bits, sizes, lastp);
    while huffsize[p] != 0
      invariant huffsize[..] == sizes && AtLength(bits, lastp, si, p, code) && p < 257
      invariant CodesListed(bits, huffcode[..], p)
      decreases 17 - si
    {
      p, code, ok := ListNextLength(bits, huffsize, lastp, huffcode, si, p, code);
      if !ok {
        return;
      }
      code, si := code * 2, si + 1;
    }
    AllListed(bits, sizes, lastp, si, p, code);
    ok := true;
  }

  lemma AllListed(bits: seq<Byte>, sizes: seq<nat>, lastp: nat, si: nat, p: nat, code: nat)
    requires |bits| == 17 && SizesListed(bits, sizes, lastp) && AtLength(bits, lastp, si, p, code) && sizes[p] == 0
    ensures p == lastp && Fits(bits)
  {
    EndMarker(bits, sizes, lastp, si, p, code);
    AllLengthsFit(bits, si, lastp);
  }

  lemma StartLength(bits: seq<Byte>, sizes: seq<nat>, n: nat)
    requires |bits| == 17 && SizesListed(bits, sizes, n)
    ensures AtLength(bits, n, sizes[0], 0, 0)
  {
    if n > 0 {
      NoneBelow(bits, sizes[0] - 1);
    }
  }

  lemma {:induction false} NoneBelow(bits: seq<Byte>, m: nat)
    requires m + 1 < |bits| && Count(bits, m) == 0
    ensures First(bits, m + 1) == 0
    ensures forall l :: 1 <= l <= m ==> First(bits, l) == 0 && bits[l] == 0
  {
    if m > 0 { NoneBelow(bits, m - 1); }
  }

  /** Beyond the last length in use there is nothing that could fail to fit. */
  lemma AllLengthsFit(bits: seq<Byte>, si: nat, n: nat)
    requires |bits| == 17 && n == Count(bits, 16) && si <= 17
    requires si == 0 ==> n == 0
    requires si != 0 ==> n == Count(bits, si - 1)
    requires FitsBelow(bits, si)
    ensures Fits(bits)
  {
    if n == 0 {
      NoneBelow(bits, 15);
    } else {
      forall l | si <= l <= 16
        ensures First(bits, l) + bits[l] < Pow2(l)
      {
        UnusedFits(bits, si - 1, l);
      }
    }
  }

  lemma {:induction false} UnusedFits(bits: seq<Byte>, m: nat, l: nat)
    requires |bits| == 17 && 1 <= m <= l <= 16 && Count(bits, m) == Count(bits, 16)
    requires First(bits, m) + bits[m] < Pow2(m)
    ensures First(bits, l) + bits[l] < Pow2(l)
  {
    if m < l {
      UnusedFits(bits, m, l - 1);
      CountMono(bits, m, l - 1);
      CountMono(bits, l, 16);
    }
  }

  /**
   The whole routine.  It accepts exactly the tables whose counts stay below the Kraft
   bound and whose symbols are in range and distinct, and returns their canonical codes.
   */
  method MakeDerived(t: HuffTable, isDC: bool) returns (r: Result<Derived>)
    requires t.Shaped()
    ensures r.Ok? <==> Acceptable(t, isDC)
    ensures r.Ok? ==> IsDerived(t, r.value)
    ensures r.Err? ==> r.error == BadHuffTable
  {
    var huffsize := new nat[257];
    var huffcode := new nat[257];
    var ok, lastp := ListSizes(t.bits, huffsize);
    if !ok { return Err(BadHuffTable); }
    ok := ListCodes(t.bits, huffsize, lastp, huffcode);
    if !ok { return Err(BadHuffTable); }
    r := FillTable(t, isDC, lastp, huffsize[..], huffcode[..]);
  }

  /** What figure C.3 has built after the first p entries. */
  ghost predicate Filled(t: HuffTable, p: nat, huffsize: seq<nat>, huffcode: seq<nat>, co: seq<nat>, si: seq<nat>)
    requires t.Shaped() && p <= 256 && p <= |huffsize| && p <= |huffcode|
  {
    |co| == 256 && |si| == 256 &&
    (forall k :: 0 <= k < p ==> si[t.huffval[k]] == huffsize[k] && co[t.huffval[k]] == huffcode[k]) &&
    (forall s :: 0 <= s < 256 && si[s] != 0 ==> exists k :: 0 <= k < p && t.huffval[k] == s && si[s] == huffsize[k])
  }

  lemma FilledIsDerived(t: HuffTable, n: nat, huffsize: seq<nat>, huffcode: seq<nat>, co: seq<nat>, si: seq<nat>)
    requires t.Shaped() && SizesListed(t.bits, huffsize, n) && CodesListed(t.bits, huffcode, n)
    requires Filled(t, n, huffsize, huffcode, co, si)
    ensures IsDerived(t, Derived(co, si))
  {
    forall s | 0 <= s < 256
      ensures si[s] <= 16
    {
      if si[s] != 0 {
        var k :| 0 <= k < n && t.huffval[k] == s && si[s] == huffsize[k];
      }
    }
  }

  /** Figure C.3: the tables indexed by symbol, rejecting symbols out of range or listed twice. */
  method FillTable(t: HuffTable, isDC: bool, lastp: nat, huffsize: seq<nat>, huffcode: seq<nat>) returns (r: Result<Derived>)
    requires t.Shaped() && SizesListed(t.bits, huffsize, lastp) && CodesListed(t.bits, huffcode, lastp)
    ensures r.Ok? <==> GoodSymbols(t, isDC, lastp)
    ensures r.Ok? ==> IsDerived(t, r.value)
    ensures r.Err? ==> r.error == BadHuffTable
  {
    var ehufco := new nat[256](_ => 0);
    var ehufsi := new nat[256](_ => 0);
    for p := 0 to lastp
      invariant GoodSymbols(t, isDC, p)
      invariant Filled(t, p, huffsize, huffcode, ehufco[..], ehufsi[..])
    {
      var i := t.huffval[p];
      if i > MaxSymbol(isDC) || ehufsi[i] != 0 {
        return Err(BadHuffTable);
      }
      ghost var co, si := ehufco[..], ehufsi[..];
      ehufco[i] := huffcode[p];
      ehufsi[i] := huffsize[p];
      assert ehufco[..] == co[i := huffcode[p]] && ehufsi[..] == si[i := huffsize[p]];
      FillOne(t, isDC, p, huffsize, huffcode, co, si);
    }
    FilledIsDerived(t, lastp, huffsize, huffcode, ehufco[..], ehufsi[..]);
    r := Ok(Derived(ehufco[..], ehufsi[..]));
  }

  lemma FillOne(t: HuffTable, isDC: bool, p: nat, huffsize: seq<nat>, huffcode: seq<nat>, co: seq<nat>, si: seq<nat>)
    requires t.Shaped() && p < 256 && p < |huffsize| && p < |huffcode|
    requires forall k :: 0 <= k <= p ==> huffsize[k] != 0
    requires GoodSymbols(t, isDC, p) && Filled(t, p, huffsize, huffcode, co, si)
    requires t.huffval[p] <= MaxSymbol(isDC) && si[t.huffval[p]] == 0
    ensures GoodSymbols(t, isDC, p + 1)
    ensures Filled(t, p + 1, huffsize, huffcode, co[t.huffval[p] := huffcode[p]], si[t.huffval[p] := huffsize[p]])
  {
    var si' := si[t.huffval[p] := huffsize[p]];
    forall s | 0 <= s < 256 && si'[s] != 0
      ensures exists k :: 0 <= k < p + 1 && t.huffval[k] == s && si'[s] == huffsize[k]
    {
      if s != t.huffval[p] {
        var k :| 0 <= k < p && t.huffval[k] == s && si[s] == huffsize[k];
      }
    }
  }
}
