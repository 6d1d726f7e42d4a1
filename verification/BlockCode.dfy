/**
 The coding model of one block of quantized coefficients: the Huffman symbols and raw
 bits the sequential encoder produces for it, and the decoding procedures of section
 F.2.2 of ITU-T T.81 that must give the block back.
 */
module BlockCode {
  import opened Wrappers
  import opened Bits
  import opened DerivedTable

  const MAX_COEF_BITS: nat := 10

  type Block = b: seq<int> | |b| == 64 witness seq(64, _ => 0)

  /** The natural-order position of the coefficients in zigzag order (jpeg_natural_order), eight to a row. */
  const NATURAL_ORDER: seq<seq<nat>> := [
    [ 0,  1,  8, 16,  9,  2,  3, 10],
    [17, 24, 32, 25, 18, 11,  4,  5],
    [12, 19, 26, 33, 40, 48, 41, 34],
    [27, 20, 13,  6,  7, 14, 21, 28],
    [35, 42, 49, 56, 57, 50, 43, 36],
    [29, 22, 15, 23, 30, 37, 44, 51],
    [58, 59, 52, 45, 38, 31, 39, 46],
    [53, 60, 61, 54, 47, 55, 62, 63]]

  /** The zigzag position of each coefficient in natural order. */
  const ZIGZAG_POSITION: seq<seq<nat>> := [
    [ 0,  1,  5,  6, 14, 15, 27, 28],
    [ 2,  4,  7, 13, 16, 26, 29, 42],
    [ 3,  8, 12, 17, 25, 30, 41, 43],
    [ 9, 11, 18, 24, 31, 40, 44, 53],
    [10, 19, 23, 32, 39, 45, 52, 54],
    [20, 22, 33, 38, 46, 51, 55, 60],
    [21, 34, 37, 47, 50, 56, 59, 61],
    [35, 36, 48, 49, 57, 58, 62, 63]]

  function NaturalOrder(k: nat): nat
    requires k < 64
  {
    NATURAL_ORDER[k / 8][k % 8]
  }

  function ZigzagPosition(i: nat): nat
    requires i < 64
  {
    ZIGZAG_POSITION[i / 8][i % 8]
  }

  lemma OrdersInverse(i: nat)
    requires i < 64
    ensures NaturalOrder(i) < 64 && ZigzagPosition(i) < 64 && NaturalOrder(ZigzagPosition(i)) == i
  {
    OrdersInverseInRow(i / 8, i);
  }

  lemma OrdersInverseInRow(r: nat, i: nat)
    requires r < 8 && i / 8 == r
    ensures NaturalOrder(i) < 64 && ZigzagPosition(i) < 64 && NaturalOrder(ZigzagPosition(i)) == i
  {
    match i % 8 {
      case 0 => case 1 => case 2 => case 3 =>
      case 4 => case 5 => case 6 => case 7 =>
    }
  }

  function ToZigzag(b: Block): (z: Block)
  {
    assert forall k: nat | k < 64 :: NaturalOrder(k) < 64 by {
      forall k: nat | k < 64 ensures NaturalOrder(k) < 64 { OrdersInverse(k); }
    }
    seq(64, k requires 0 <= k < 64 => b[NaturalOrder(k)])
  }

  function FromZigzag(z: Block): (b: Block)
  {
    assert forall k: nat | k < 64 :: ZigzagPosition(k) < 64 by {
      forall k: nat | k < 64 ensures ZigzagPosition(k) < 64 { OrdersInverse(k); }
    }
    seq(64, i requires 0 <= i < 64 => z[ZigzagPosition(i)])
  }

  /** Reordering loses nothing. */
  lemma ZigzagRoundTrip(b: Block)
    ensures FromZigzag(ToZigzag(b)) == b
    ensures ToZigzag(b)[0] == b[0]
  {
    forall i: nat | i < 64
      ensures FromZigzag(ToZigzag(b))[i] == b[i]
    {
      OrdersInverse(i);
    }
    OrdersInverse(0);
    assert ZigzagPosition(0) == 0;
  }

  /**
   The order of figure A.6: coefficient (r, c) lies on anti-diagonal r + c; the d-th one is preceded by
   d(d+1)/2 coefficients and is walked downwards if d is odd; the second half of the square mirrors the first.
   */
  lemma ZigzagDiagonals(r: nat, c: nat)
    requires r < 8 && c < 8
    ensures var d, e := r + c, 14 - (r + c);
            ZigzagPosition(8 * r + c) ==
            if d < 8 then d * (d + 1) / 2 + (if d % 2 == 1 then r else c)
            else 63 - (e * (e + 1) / 2 + (if e % 2 == 1 then 7 - r else 7 - c))
  {
    ZigzagRow(r, c);
    DivModUnique(8 * r + c, 8, r, c);
  }

  lemma ZigzagRow(r: nat, c: nat)
    requires r < 8 && c < 8
    ensures var d, e := r + c, 14 - (r + c);
            ZIGZAG_POSITION[r][c] ==
            if d < 8 then d * (d + 1) / 2 + (if d % 2 == 1 then r else c)
            else 63 - (e * (e + 1) / 2 + (if e % 2 == 1 then 7 - r else 7 - c))
  {
    match c {
      case 0 => case 1 => case 2 => case 3 =>
      case 4 => case 5 => case 6 => case 7 =>
    }
  }

  /** So the coefficient coded at a position is the one that the figure puts there. */
  lemma CodedInDiagonals(b: Block, r: nat, c: nat)
    requires r < 8 && c < 8
    ensures var d, e := r + c, 14 - (r + c);
            var k := if d < 8 then d * (d + 1) / 2 + (if d % 2 == 1 then r else c)
                     else 63 - (e * (e + 1) / 2 + (if e % 2 == 1 then 7 - r else 7 - c));
            0 <= k < 64 && ToZigzag(b)[k] == b[8 * r + c]
  {
    ZigzagDiagonals(r, c);
    OrdersInverse(8 * r + c);
  }

  // ---------------------------------------------------------------- symbols and raw bits

  /** The number of bits of a magnitude. */
  function NBits(v: nat): nat
  {
    if v == 0 then 0 else 1 + NBits(v / 2)
  }

  function Abs(v: int): nat { if v < 0 then -v else v }

  /** A Huffman symbol, of the DC or the AC table, and the raw bits that follow its code. */
  datatype Token = Token(isDC: bool, symbol: nat, raw: BitString)

  /** The low n bits of a positive value, or of a negative value minus one, as a 32-bit word. */
  function RawBits(v: int, n: nat): BitString
  {
    BitsOf((if v < 0 then v - 1 else v) % 0x1_0000_0000, n)
  }

  const EOB := Token(false, 0, [])
  const ZRL := Token(false, 0xF0, [])

  function DcToken(diff: int): Token
  {
    var n := NBits(Abs(diff));
    Token(true, n, RawBits(diff, n))
  }

  function AcToken(run: nat, v: int): Token
  {
    var n := NBits(Abs(v));
    Token(false, run * 16 + n, RawBits(v, n))
  }

  function ZeroRuns(n: nat): seq<Token>
  {
    seq(n, _ => ZRL)
  }

  /** The AC symbols from zigzag position k on, r zeros having been passed over before it. */
  function AcTokens(z: Block, k: nat, r: nat): seq<Token>
    requires k <= 64
    decreases |z| - k
  {
    if k == 64 then if r > 0 then [EOB] else []
    else if z[k] == 0 then AcTokens(z, k + 1, r + 1)
    else ZeroRuns(r / 16) + [AcToken(r % 16, z[k])] + AcTokens(z, k + 1, 0)
  }

  function BlockTokens(b: Block, lastDc: int): seq<Token>
  {
    [DcToken(b[0] - lastDc)] + AcTokens(ToZigzag(b), 1, 0)
  }

  /** The encoder's range check on coefficients. */
  predicate AcInRange(z: Block, k: nat)
  {
    forall j :: k <= j < 64 ==> NBits(Abs(z[j])) <= MAX_COEF_BITS
  }

  predicate InRange(b: Block, lastDc: int)
  {
    NBits(Abs(b[0] - lastDc)) <= MAX_COEF_BITS + 1 && AcInRange(ToZigzag(b), 1)
  }

  /** A procedure that finds the next symbol in a bit string, such as DECODE. */
  type Reader = BitString -> Option<(nat, BitString)>

  function DecodeWith(t: HuffTable): Reader
  {
    s => if t.Shaped() then Decode(t, s) else None
  }

  /** The codes of the DC and the AC symbols, and how to read them. */
  datatype Tables = Tables(dcCodes: Derived, acCodes: Derived, readDc: Reader, readAc: Reader)
  {
    predicate Shaped()
    {
      dcCodes.Shaped() && acCodes.Shaped()
    }

    function Codes(isDC: bool): Derived { if isDC then dcCodes else acCodes }

    function Read(isDC: bool, s: BitString): Option<(nat, BitString)> { if isDC then readDc(s) else readAc(s) }

    /** The reader finds symbol n by its code, whatever follows it. */
    ghost predicate Finds(isDC: bool, n: nat, rest: BitString)
      requires Shaped()
    {
      Codes(isDC).Has(n) ==> Read(isDC, Codes(isDC).Code(n) + rest) == Some((n, rest))
    }

    ghost predicate Readable()
    {
      Shaped() && forall isDC: bool, n: nat, rest: BitString :: Finds(isDC, n, rest)
    }

    predicate Has(k: Token)
      requires Shaped()
    {
      Codes(k.isDC).Has(k.symbol)
    }

    /** The code of the symbol, then the raw bits; no bits for a symbol without a code. */
    function BitsFor(k: Token): BitString
      requires Shaped()
    {
      (if k.symbol >= 256 then [] else Codes(k.isDC).Code(k.symbol)) + k.raw
    }

    function AllBits(ks: seq<Token>): BitString
      requires Shaped()
    {
      if ks == [] then [] else BitsFor(ks[0]) + AllBits(ks[1..])
    }

    predicate HasAll(ks: seq<Token>)
      requires Shaped()
    {
      forall i :: 0 <= i < |ks| ==> Has(ks[i])
    }

    lemma {:induction false} AllBitsConcat(a: seq<Token>, b: seq<Token>)
      requires Shaped()
      ensures AllBits(a + b) == AllBits(a) + AllBits(b)
    {
      if a == [] {
        assert a + b == b;
      } else {
        AllBitsConcat(a[1..], b);
        ConcatTail(a, b);
        AllBitsJoin(a + b, a, b);
      }
    }

    lemma AllBitsJoin(ks: seq<Token>, a: seq<Token>, b: seq<Token>)
      requires Shaped() && ks != [] && a != [] && ks[0] == a[0] && AllBits(ks[1..]) == AllBits(a[1..]) + AllBits(b)
      ensures AllBits(ks) == AllBits(a) + AllBits(b)
    {
      Associative(BitsFor(a[0]), AllBits(a[1..]), AllBits(b));
    }
  }

  lemma ConcatTail(a: seq<Token>, b: seq<Token>)
    requires a != []
    ensures (a + b)[0] == a[0] && (a + b)[1..] == a[1..] + b
  {
  }

  /** The codes of two legal tables, read with DECODE. */
  function TablesOf(dc: HuffTable, ac: HuffTable, dcCodes: Derived, acCodes: Derived): Tables
  {
    Tables(dcCodes, acCodes, DecodeWith(dc), DecodeWith(ac))
  }

  lemma LegalTablesReadable(dc: HuffTable, ac: HuffTable, dcCodes: Derived, acCodes: Derived)
    requires dc.Shaped() && Acceptable(dc, true) && IsDerived(dc, dcCodes)
    requires ac.Shaped() && Acceptable(ac, false) && IsDerived(ac, acCodes)
    ensures TablesOf(dc, ac, dcCodes, acCodes).Readable()
  {
    var t := TablesOf(dc, ac, dcCodes, acCodes);
    forall isDC: bool, n: nat, rest: BitString
      ensures t.Finds(isDC, n, rest)
    {
      var d := if isDC then dcCodes else acCodes;
      if d.Has(n) { DecodeCode(if isDC then dc else ac, d, isDC, n, rest); }
    }
  }

  // ---------------------------------------------------------------- decoding

  function Receive(s: BitString, n: nat): Option<(nat, BitString)>
  {
    if |s| < n then None else Some((Val(s[..n]), s[n..]))
  }

  /** EXTEND, section F.2.2.1. */
  function Extend(v: nat, n: nat): int
  {
    if n == 0 then 0 else if v < Pow2(n - 1) then v - Pow2(n) + 1 else v
  }

  /** The signed value of n received bits. */
  function ReceiveExtend(s: BitString, n: nat): Option<(int, BitString)>
  {
    match Receive(s, n)
    case None => None
    case Some((v, rest)) => Some((Extend(v, n), rest))
  }

  /** What one AC symbol does to the decoder: fail, end the block, or go on at position k. */
  datatype AcStep = Bad | End(rest: BitString) | Next(rest: BitString, k: nat, z: Block)

  function DecodeAcSymbol(read: Reader, s: BitString, k: nat, z: Block): (r: AcStep)
    requires 1 <= k < 64
    ensures r.Next? ==> r.k > k
  {
    match read(s)
    case None => Bad
    case Some((rs, rest)) =>
      var run, size := rs / 16, rs % 16;
      if size == 0 then
        if run == 15 then Next(rest, k + 16, z) else End(rest)
      else if k + run > 63 then Bad
      else
        match ReceiveExtend(rest, size)
        case None => Bad
        case Some((v, rest')) => Next(rest', k + run + 1, z[k + run := v])
  }

  /** Decode_AC_coefficients of section F.2.2.2 from zigzag position k on; z holds what is decoded so far. */
  function DecodeAc(read: Reader, s: BitString, k: nat, z: Block): Option<(Block, BitString)>
    requires 1 <= k
    decreases |z| - k
  {
    if k == 64 then Some((z, s))
    else if k > 64 then None
    else
      match DecodeAcSymbol(read, s, k, z)
      case Bad => None
      case End(rest) => Some((z, rest))
      case Next(rest, k', z') => DecodeAc(read, rest, k', z')
  }

  /** The DC difference, section F.2.2.1. */
  function DecodeDc(read: Reader, s: BitString): Option<(int, BitString)>
  {
    match read(s)
    case None => None
    case Some((n, rest)) => ReceiveExtend(rest, n)
  }

  function DcOnly(dc: int): Block
  {
    seq(64, i => if i == 0 then dc else 0)
  }

  /** One block: the DC coefficient from its prediction, then the AC coefficients. */
  function DecodeBlock(t: Tables, s: BitString, lastDc: int): Option<(Block, BitString)>
  {
    match DecodeDc(t.readDc, s)
    case None => None
    case Some((diff, rest)) =>
      match DecodeAc(t.readAc, rest, 1, DcOnly(lastDc + diff))
      case None => None
      case Some((z, rest')) => Some((FromZigzag(z), rest'))
  }

  lemma {:induction false} NBitsBounds(v: nat)
    ensures v < Pow2(NBits(v))
    ensures v > 0 ==> NBits(v) >= 1 && Pow2(NBits(v) - 1) <= v
  {
    if v != 0 { NBitsBounds(v / 2); }
  }

  lemma ModOfWord(x: int, n: nat)
    requires n <= 32
    ensures (x % 0x1_0000_0000) % Pow2(n) == x % Pow2(n)
  {
    Pow2Add(n, 32 - n);
    Pow2Constants();
    ModMod(x, Pow2(n), Pow2(32 - n));
  }

  lemma ModMod(x: int, a: nat, b: nat)
    requires a >= 1 && b >= 1
    ensures a * b >= 1
    ensures (x % (a * b)) % a == x % a
  {
    MulAtLeast(a, b);
    var w := a * b;
    var y := x % w;
    assert x == a * (b * (x / w)) + y by { assert w * (x / w) == a * (b * (x / w)); }
    assert y == a * (y / a) + y % a;
    assert x == a * (b * (x / w) + y / a) + y % a;
    DivModUnique(x, a, b * (x / w) + y / a, y % a);
  }

  /** The raw bits, received and extended, are the value. */
  lemma RawBitsDecode(v: int, rest: BitString)
    requires NBits(Abs(v)) <= 16
    ensures ReceiveExtend(RawBits(v, NBits(Abs(v))) + rest, NBits(Abs(v))) == Some((v, rest))
  {
    var n := NBits(Abs(v));
    var x := if v < 0 then v - 1 else v;
    var raw := RawBits(v, n);
    assert (raw + rest)[..n] == raw && (raw + rest)[n..] == rest;
    NBitsBounds(Abs(v));
    ValBits(x % 0x1_0000_0000, n);
    ModOfWord(x, n);
    DivModUnique(x, Pow2(n), if v < 0 then -1 else 0, if v < 0 then Pow2(n) + x else x);
  }

  /** What the raw bits are as a number: a positive value itself, a negative one in ones' complement. */
  lemma RawBitsValue(v: int)
    requires NBits(Abs(v)) <= 16
    ensures var raw := RawBits(v, NBits(Abs(v)));
            Val(raw) == if v < 0 then Pow2(|raw|) - 1 + v else v
    ensures v != 0 ==> Pow2(NBits(Abs(v)) - 1) <= (if v < 0 then -v else v) < Pow2(NBits(Abs(v)))
  {
    var n := NBits(Abs(v));
    var x := if v < 0 then v - 1 else v;
    NBitsBounds(Abs(v));
    ValBits(x % 0x1_0000_0000, n);
    ModOfWord(x, n);
    DivModUnique(x, Pow2(n), if v < 0 then -1 else 0, if v < 0 then Pow2(n) + x else x);
  }

  lemma NBitsAtMost(v: nat, n: nat)
    ensures NBits(v) <= n <==> v < Pow2(n)
  {
    NBitsBounds(v);
    if NBits(v) <= n {
      Pow2Mono(NBits(v), n);
    } else {
      Pow2Mono(n, NBits(v) - 1);
    }
  }

  /** The range check in values: DC differences up to 2047, AC coefficients up to 1023. */
  lemma RangeOfValues(b: Block, lastDc: int)
    ensures InRange(b, lastDc) <==> -2047 <= b[0] - lastDc <= 2047 && forall i :: 1 <= i < 64 ==> -1023 <= b[i] <= 1023
  {
    NBitsAtMost(Abs(b[0] - lastDc), 11);
    assert Pow2(11) == 2048 && Pow2(10) == 1024;
    AcRangeOfValues(b);
  }

  lemma AcRangeOfValues(b: Block)
    ensures AcInRange(ToZigzag(b), 1) <==> forall i :: 1 <= i < 64 ==> -1023 <= b[i] <= 1023
  {
    var z := ToZigzag(b);
    forall k: nat | 1 <= k < 64 ensures NBits(Abs(z[k])) <= MAX_COEF_BITS <==> -1023 <= z[k] <= 1023 {
      NBitsAtMost(Abs(z[k]), 10);
      assert Pow2(10) == 1024;
    }
    if AcInRange(z, 1) {
      forall i: nat | 1 <= i < 64 ensures -1023 <= b[i] <= 1023 {
        OrdersInverse(i);
        assert NaturalOrder(0) == 0 && z[ZigzagPosition(i)] == b[i];
      }
    }
    if forall i :: 1 <= i < 64 ==> -1023 <= b[i] <= 1023 {
      forall k: nat | 1 <= k < 64 ensures NBits(Abs(z[k])) <= MAX_COEF_BITS { ZeroFirst(k); }
    }
  }

  lemma ZeroFirst(k: nat)
    requires 1 <= k < 64
    ensures 1 <= NaturalOrder(k) < 64
  {
    OrdersInverse(k);
    OrdersInverse(NaturalOrder(k));
    ZeroFirstInRow(k / 8, k);
  }

  lemma ZeroFirstInRow(r: nat, k: nat)
    requires r < 8 && k / 8 == r && k >= 1
    ensures NaturalOrder(k) != 0
  {
    match k % 8 {
      case 0 => case 1 => case 2 => case 3 =>
      case 4 => case 5 => case 6 => case 7 =>
    }
  }

  /** z up to position k, zeros from there on. */
  function Partial(z: Block, k: nat): Block
  {
    seq(64, i requires 0 <= i < 64 => if i < k then z[i] else 0)
  }

  lemma DecodeToken(t: Tables, k: Token, rest: BitString)
    requires t.Readable() && t.Has(k)
    ensures t.Read(k.isDC, t.BitsFor(k) + rest) == Some((k.symbol, k.raw + rest))
  {
    var code := t.Codes(k.isDC).Code(k.symbol);
    assert t.Finds(k.isDC, k.symbol, k.raw + rest);
    assert t.BitsFor(k) + rest == code + (k.raw + rest);
  }

  lemma DecodeAcValue(read: Reader, s: BitString, k: nat, z: Block, run: nat, size: nat, rest: BitString, v: int, rest': BitString)
    requires 1 <= k && k + run < 64 && 0 < size < 16
    requires read(s) == Some((run * 16 + size, rest)) && ReceiveExtend(rest, size) == Some((v, rest'))
    ensures DecodeAcSymbol(read, s, k, z) == Next(rest', k + run + 1, z[k + run := v])
  {
    DivModUnique(run * 16 + size, 16, run, size);
  }

  lemma {:induction false} DecodeZeroRuns(t: Tables, n: nat, k: nat, z: Block, rest: BitString)
    requires t.Readable() && (n > 0 ==> t.Has(ZRL)) && 1 <= k && k + 16 * n <= 63
    ensures DecodeAc(t.readAc, t.AllBits(ZeroRuns(n)) + rest, k, z) == DecodeAc(t.readAc, rest, k + 16 * n, z)
    decreases n
  {
    var s := t.AllBits(ZeroRuns(n)) + rest;
    if n == 0 {
      assert s == rest;
    } else {
      var tail := t.AllBits(ZeroRuns(n - 1)) + rest;
      assert ZeroRuns(n)[1..] == ZeroRuns(n - 1);
      assert s == t.BitsFor(ZRL) + tail;
      DecodeToken(t, ZRL, tail);
      assert ZRL.raw + tail == tail;
      assert DecodeAcSymbol(t.readAc, s, k, z) == Next(tail, k + 16, z);
      DecodeZeroRuns(t, n - 1, k + 16, z, rest);
    }
  }

  lemma DecodeCoefficient(t: Tables, run: nat, v: int, k: nat, z: Block, rest: BitString)
    requires t.Readable() && t.Has(AcToken(run, v)) && v != 0 && NBits(Abs(v)) <= MAX_COEF_BITS
    requires run < 16 && 1 <= k && k + run < 64
    ensures DecodeAcSymbol(t.readAc, t.BitsFor(AcToken(run, v)) + rest, k, z) == Next(rest, k + run + 1, z[k + run := v])
  {
    var c, n := AcToken(run, v), NBits(Abs(v));
    assert n >= 1 by { NBitsBounds(Abs(v)); }
    assert t.readAc(t.BitsFor(c) + rest) == Some((run * 16 + n, c.raw + rest)) by { DecodeToken(t, c, rest); }
    assert ReceiveExtend(c.raw + rest, n) == Some((v, rest)) by { RawBitsDecode(v, rest); }
    DecodeAcValue(t.readAc, t.BitsFor(c) + rest, k, z, run, n, c.raw + rest, v, rest);
  }

  /** Decoding the AC symbols written from position k on completes the block. */
  lemma {:induction false} DecodeAcTokens(t: Tables, z: Block, k: nat, r: nat, rest: BitString)
    requires t.Readable() && r < k <= 64 && AcInRange(z, k)
    requires forall j :: k - r <= j < k ==> z[j] == 0
    requires t.HasAll(AcTokens(z, k, r))
    ensures DecodeAc(t.readAc, t.AllBits(AcTokens(z, k, r)) + rest, k - r, Partial(z, k)) == Some((z, rest))
    decreases |z| - k
  {
    var ks := AcTokens(z, k, r);
    if k == 64 {
      assert Partial(z, 64) == z;
      if r > 0 {
        assert t.AllBits(ks) + rest == t.BitsFor(EOB) + rest;
        assert t.Has(ks[0]);
        DecodeToken(t, EOB, rest);
        assert EOB.raw + rest == rest;
      } else {
        assert t.AllBits(ks) + rest == rest;
      }
    } else if z[k] == 0 {
      assert Partial(z, k) == Partial(z, k + 1);
      DecodeAcTokens(t, z, k + 1, r + 1, rest);
    } else {
      DecodeRunAndCoefficient(t, z, k, r, rest);
      HasAllSplit(t, ZeroRuns(r / 16) + [AcToken(r % 16, z[k])], AcTokens(z, k + 1, 0));
      DecodeAcTokens(t, z, k + 1, 0, rest);
    }
  }

  lemma HasAllSplit(t: Tables, a: seq<Token>, b: seq<Token>)
    requires t.Shaped() && t.HasAll(a + b)
    ensures t.HasAll(a) && t.HasAll(b)
  {
    forall i | 0 <= i < |a| ensures t.Has(a[i]) { assert a[i] == (a + b)[i]; }
    forall i | 0 <= i < |b| ensures t.Has(b[i]) { assert b[i] == (a + b)[|a| + i]; }
  }

  /** The bits of zero runs and a coefficient, in front of those of other symbols. */
  lemma RunBits(t: Tables, zeros: seq<Token>, c: Token, others: seq<Token>, rest: BitString)
    requires t.Shaped()
    ensures t.AllBits(zeros + [c] + others) + rest == t.AllBits(zeros) + (t.BitsFor(c) + (t.AllBits(others) + rest))
  {
    t.AllBitsConcat(zeros + [c], others);
    t.AllBitsConcat(zeros, [c]);
    assert t.AllBits([c]) == t.BitsFor(c) by { assert t.BitsFor(c) + [] == t.BitsFor(c); }
    var a, b, d := t.AllBits(zeros), t.BitsFor(c), t.AllBits(others);
    assert a + b + d + rest == a + (b + (d + rest));
  }

  lemma RunTokens(t: Tables, zeros: seq<Token>, c: Token, others: seq<Token>)
    requires t.Shaped() && t.HasAll(zeros + [c] + others)
    ensures t.Has(c) && t.HasAll(others)
    ensures zeros != [] ==> t.Has(zeros[0])
  {
    HasAllSplit(t, zeros + [c], others);
    HasAllSplit(t, zeros, [c]);
    assert t.Has([c][0]);
  }

  lemma RunCovered(t: Tables, q: nat, c: Token, others: seq<Token>)
    requires t.Shaped() && t.HasAll(ZeroRuns(q) + [c] + others)
    ensures t.Has(c) && (q > 0 ==> t.Has(ZRL))
  {
    RunTokens(t, ZeroRuns(q), c, others);
    assert q > 0 ==> ZeroRuns(q)[0] == ZRL;
  }

  lemma DecodeRunAndCoefficient(t: Tables, z: Block, k: nat, r: nat, rest: BitString)
    requires t.Readable() && r < k < 64 && z[k] != 0 && AcInRange(z, k)
    requires t.HasAll(AcTokens(z, k, r))
    ensures DecodeAc(t.readAc, t.AllBits(AcTokens(z, k, r)) + rest, k - r, Partial(z, k))
            == DecodeAc(t.readAc, t.AllBits(AcTokens(z, k + 1, 0)) + rest, k + 1, Partial(z, k + 1))
  {
    DecodeRunTokens(t, z, k, r, r / 16, r % 16, AcTokens(z, k + 1, 0), rest);
  }

  lemma DecodeRunTokens(t: Tables, z: Block, k: nat, r: nat, q: nat, e: nat, others: seq<Token>, rest: BitString)
    requires t.Readable() && e < 16 && r == 16 * q + e < k < 64 && z[k] != 0 && AcInRange(z, k)
    requires t.HasAll(ZeroRuns(q) + [AcToken(e, z[k])] + others)
    ensures DecodeAc(t.readAc, t.AllBits(ZeroRuns(q) + [AcToken(e, z[k])] + others) + rest, k - r, Partial(z, k))
            == DecodeAc(t.readAc, t.AllBits(others) + rest, k + 1, Partial(z, k + 1))
  {
    RunCovered(t, q, AcToken(e, z[k]), others);
    RunBits(t, ZeroRuns(q), AcToken(e, z[k]), others, rest);
    DecodeRunThenValue(t, z, k, q, e, t.AllBits(others) + rest);
  }

  lemma DecodeRunThenValue(t: Tables, z: Block, k: nat, q: nat, e: nat, tail: BitString)
    requires t.Readable() && e < 16 && 16 * q + e < k < 64 && z[k] != 0 && AcInRange(z, k)
    requires (q > 0 ==> t.Has(ZRL)) && t.Has(AcToken(e, z[k]))
    ensures DecodeAc(t.readAc, t.AllBits(ZeroRuns(q)) + (t.BitsFor(AcToken(e, z[k])) + tail), k - (16 * q + e), Partial(z, k))
            == DecodeAc(t.readAc, tail, k + 1, Partial(z, k + 1))
  {
    var s := t.BitsFor(AcToken(e, z[k])) + tail;
    DecodeZeroRuns(t, q, k - (16 * q + e), Partial(z, k), s);
    assert Partial(z, k)[k := z[k]] == Partial(z, k + 1);
    DecodeCoefficient(t, e, z[k], k - e, Partial(z, k), tail);
    DecodeAcGoesOn(t.readAc, s, k - e, Partial(z, k), tail, k + 1, Partial(z, k + 1));
  }

  lemma DecodeAcGoesOn(read: Reader, s: BitString, k: nat, z: Block, rest: BitString, k': nat, z': Block)
    requires 1 <= k < 64 && DecodeAcSymbol(read, s, k, z) == Next(rest, k', z')
    ensures DecodeAc(read, s, k, z) == DecodeAc(read, rest, k', z')
  {
  }

  lemma DecodeDifference(t: Tables, diff: int, tail: BitString)
    requires t.Readable() && t.Has(DcToken(diff)) && NBits(Abs(diff)) <= 16
    ensures DecodeDc(t.readDc, t.BitsFor(DcToken(diff)) + tail) == Some((diff, tail))
  {
    DecodeToken(t, DcToken(diff), tail);
    RawBitsDecode(diff, tail);
  }

  lemma DecodeAllAc(t: Tables, z: Block, tail: BitString)
    requires t.Readable() && AcInRange(z, 1) && t.HasAll(AcTokens(z, 1, 0))
    ensures DecodeAc(t.readAc, t.AllBits(AcTokens(z, 1, 0)) + tail, 1, DcOnly(z[0])) == Some((z, tail))
  {
    DecodeAcTokens(t, z, 1, 0, tail);
    assert Partial(z, 1) == DcOnly(z[0]);
  }

  /**
   No symbol is wasted: the zeros at the end of a block are one EOB, which comes nowhere else, and a ZRL is
   never the last symbol.
   */
  lemma {:induction false} NoWaste(z: Block, k: nat, r: nat)
    requires k <= 64 && (k == 64 ==> (r > 0 <==> z[63] == 0)) && AcInRange(z, k)
    ensures var ks := AcTokens(z, k, r);
            ks != [] || (k == 64 && r == 0)
    ensures var ks := AcTokens(z, k, r);
            ks != [] ==> if z[63] == 0 then ks[|ks| - 1] == Token(false, 0, []) else ks[|ks| - 1].symbol % 16 != 0
    ensures forall i :: 0 <= i < |AcTokens(z, k, r)| - 1 ==> AcTokens(z, k, r)[i].symbol != 0
    decreases |z| - k
  {
    if k < 64 {
      if z[k] == 0 {
        NoWaste(z, k + 1, r + 1);
      } else {
        NBitsBounds(Abs(z[k]));
        LastOfRun(z, k, r);
        SymbolNonzero(r % 16, NBits(Abs(z[k])));
        NoWaste(z, k + 1, 0);
      }
    }
  }

  lemma SymbolNonzero(run: nat, n: nat)
    requires 1 <= n <= 15
    ensures (run * 16 + n) % 16 == n && run * 16 + n != 0
  {
    DivModUnique(run * 16 + n, 16, run, n);
  }

  lemma LastOfRun(z: Block, k: nat, r: nat)
    requires k < 64 && z[k] != 0
    ensures var head, others := ZeroRuns(r / 16) + [AcToken(r % 16, z[k])], AcTokens(z, k + 1, 0);
            AcTokens(z, k, r) == head + others && head[|head| - 1] == AcToken(r % 16, z[k]) &&
            forall i :: 0 <= i < |head| - 1 ==> head[i].symbol == 0xF0
  {
  }

  lemma BlockBits(t: Tables, b: Block, lastDc: int, rest: BitString)
    requires t.Shaped()
    ensures t.AllBits(BlockTokens(b, lastDc)) + rest
            == t.BitsFor(DcToken(b[0] - lastDc)) + (t.AllBits(AcTokens(ToZigzag(b), 1, 0)) + rest)
  {
    var dc, ac := DcToken(b[0] - lastDc), AcTokens(ToZigzag(b), 1, 0);
    assert ([dc] + ac)[1..] == ac;
  }

  lemma BlockCovered(t: Tables, b: Block, lastDc: int)
    requires t.Shaped() && t.HasAll(BlockTokens(b, lastDc))
    ensures t.Has(DcToken(b[0] - lastDc)) && t.HasAll(AcTokens(ToZigzag(b), 1, 0))
  {
    var dc, ac := DcToken(b[0] - lastDc), AcTokens(ToZigzag(b), 1, 0);
    assert [] + [dc] + ac == BlockTokens(b, lastDc);
    RunTokens(t, [], dc, ac);
  }

  /**
   Block round trip: whatever coefficients pass the range check, the bits written
   under tables that cover the symbols used decode to exactly that block.
   */
  lemma BlockRoundTrip(t: Tables, b: Block, lastDc: int, rest: BitString)
    requires t.Readable() && InRange(b, lastDc) && t.HasAll(BlockTokens(b, lastDc))
    ensures DecodeBlock(t, t.AllBits(BlockTokens(b, lastDc)) + rest, lastDc) == Some((b, rest))
  {
    BlockCovered(t, b, lastDc);
    BlockBits(t, b, lastDc, rest);
    ZigzagRoundTrip(b);
    DecodeBlockBits(t, ToZigzag(b), lastDc, rest);
  }

  lemma DecodeBlockBits(t: Tables, z: Block, lastDc: int, rest: BitString)
    requires t.Readable() && NBits(Abs(z[0] - lastDc)) <= 16 && AcInRange(z, 1)
    requires t.Has(DcToken(z[0] - lastDc)) && t.HasAll(AcTokens(z, 1, 0))
    ensures DecodeBlock(t, t.BitsFor(DcToken(z[0] - lastDc)) + (t.AllBits(AcTokens(z, 1, 0)) + rest), lastDc)
            == Some((FromZigzag(z), rest))
  {
    var tail := t.AllBits(AcTokens(z, 1, 0)) + rest;
    DecodeDifference(t, z[0] - lastDc, tail);
    DecodeAllAc(t, z, rest);
    DecodeBlockParts(t, t.BitsFor(DcToken(z[0] - lastDc)) + tail, lastDc, z[0] - lastDc, tail, z, rest);
  }

  lemma DecodeBlockParts(t: Tables, s: BitString, lastDc: int, diff: int, rest: BitString, z: Block, rest': BitString)
    requires DecodeDc(t.readDc, s) == Some((diff, rest))
    requires DecodeAc(t.readAc, rest, 1, DcOnly(lastDc + diff)) == Some((z, rest'))
    ensures DecodeBlock(t, s, lastDc) == Some((FromZigzag(z), rest'))
  {
  }
}
