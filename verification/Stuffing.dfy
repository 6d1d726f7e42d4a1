/**
 Bits as entropy-coded bytes: eight bits to a byte, a zero byte after every 0xFF
 (sections F.1.2.3 and B.1.1.5 of ITU-T T.81), and the reader that undoes it.
 */
module Stuffing {
  import opened Bits

  function ByteOf(b: BitString): Byte
    requires |b| == 8
  {
    ValBound(b);
    Pow2Constants();
    Val(b)
  }

  function Stuffed(c: Byte): seq<Byte>
  {
    if c == 0xFF then [0xFF, 0] else [c]
  }

  /** The stuffed bytes of all complete groups of eight bits. */
  function Pack(bits: BitString): seq<Byte>
  {
    if |bits| < 8 then [] else Stuffed(ByteOf(bits[..8])) + Pack(bits[8..])
  }

  /** The bits after the last complete group of eight. */
  function Leftover(bits: BitString): (r: BitString)
    ensures |r| == |bits| % 8
  {
    if |bits| < 8 then bits else Leftover(bits[8..])
  }

  /** The number of one bits flush_bits needs to reach a byte boundary. */
  function PadLength(n: nat): (p: nat)
    ensures p <= 7 && (n + p) % 8 == 0
  {
    (8 - n % 8) % 8
  }

  /** What a reader gets up to the next marker: the data bits, and the bytes from the marker on. */
  function Unstuff(s: seq<Byte>): (BitString, seq<Byte>)
  {
    if s == [] then ([], [])
    else if s[0] == 0xFF then
      if |s| >= 2 && s[1] == 0 then
        var u := Unstuff(s[2..]);
        (BitsOf(0xFF, 8) + u.0, u.1)
      else ([], s)
    else
      var u := Unstuff(s[1..]);
      (BitsOf(s[0], 8) + u.0, u.1)
  }

  predicate AtMarkerOrEnd(s: seq<Byte>)
  {
    s != [] ==> s[0] == 0xFF && (|s| >= 2 ==> s[1] != 0)
  }

  /** Packing a concatenation continues from the bits left over. */
  lemma {:induction false} PackConcat(a: BitString, b: BitString)
    ensures Pack(a + b) == Pack(a) + Pack(Leftover(a) + b)
    ensures Leftover(a + b) == Leftover(Leftover(a) + b)
    decreases |a|
  {
    if |a| >= 8 {
      var first, others := a[..8], a[8..];
      PackConcat(others, b);
      assert (a + b)[..8] == first && (a + b)[8..] == others + b;
      PackFirst(a + b);
      PackFirst(a);
    }
  }

  lemma PackFirst(bits: BitString)
    requires |bits| >= 8
    ensures Pack(bits) == Stuffed(ByteOf(bits[..8])) + Pack(bits[8..])
    ensures Leftover(bits) == Leftover(bits[8..])
  {
  }

  lemma UnstuffOne(c: Byte, tail: seq<Byte>)
    ensures Unstuff(Stuffed(c) + tail) == (BitsOf(c, 8) + Unstuff(tail).0, Unstuff(tail).1)
  {
    assert (Stuffed(c) + tail)[|Stuffed(c)|..] == tail;
  }

  lemma UnstuffFirst(bits: BitString, rest: seq<Byte>)
    requires |bits| >= 8
    ensures var u := Unstuff(Pack(bits[8..]) + rest);
            Unstuff(Pack(bits) + rest) == (bits[..8] + u.0, u.1)
  {
    var c, tail := ByteOf(bits[..8]), Pack(bits[8..]);
    assert Pack(bits) + rest == Stuffed(c) + (tail + rest);
    UnstuffOne(c, tail + rest);
    BitsVal(bits[..8]);
  }

  lemma WholeBytes(bits: BitString)
    requires |bits| >= 8
    ensures bits[..|bits| / 8 * 8] == bits[..8] + bits[8..][..|bits[8..]| / 8 * 8]
  {
    var n := |bits[8..]| / 8 * 8;
    assert |bits| / 8 * 8 == n + 8;
  }

  /** Reading back what was packed gives the whole bytes' worth of bits. */
  lemma {:induction false} UnstuffPack(bits: BitString, rest: seq<Byte>)
    requires AtMarkerOrEnd(rest)
    ensures Unstuff(Pack(bits) + rest) == (bits[..|bits| / 8 * 8], rest)
  {
    if |bits| < 8 {
      assert Pack(bits) + rest == rest;
    } else {
      UnstuffPack(bits[8..], rest);
      UnstuffFirst(bits, rest);
      WholeBytes(bits);
    }
  }

  lemma {:induction false} LeftoverIsTail(bits: BitString)
    ensures Leftover(bits) == bits[|bits| / 8 * 8..]
  {
    if |bits| >= 8 {
      LeftoverIsTail(bits[8..]);
      assert |bits[8..]| / 8 * 8 + 8 == |bits| / 8 * 8;
    }
  }

  /** No bit is lost or moved: what has been packed and what is still pending are the bits given, in order. */
  lemma PackedAndPending(bits: BitString)
    ensures Unstuff(Pack(bits)).0 + Leftover(bits) == bits
  {
    UnstuffPack(bits, []);
    assert Pack(bits) + [] == Pack(bits);
    LeftoverIsTail(bits);
  }

  /** One byte for each eight bits, and one more for each eight that are all ones. */
  lemma {:induction false} PackLength(bits: BitString)
    ensures |Pack(bits)| == |bits| / 8 + AllOnes(bits)
  {
    if |bits| >= 8 {
      PackLength(bits[8..]);
      ByteOfOnes(bits[..8]);
      assert |bits| / 8 == |bits[8..]| / 8 + 1;
    }
  }

  /** How many of the whole groups of eight bits are all ones. */
  function AllOnes(bits: BitString): (n: nat)
    ensures n <= |bits| / 8
  {
    if |bits| < 8 then 0
    else (if forall k :: 0 <= k < 8 ==> bits[k] then 1 else 0) + AllOnes(bits[8..])
  }

  lemma ByteOfOnes(b: BitString)
    requires |b| == 8
    ensures ByteOf(b) == 0xFF <==> forall k :: 0 <= k < 8 ==> b[k]
  {
    Pow2Constants();
    OnesVal(8);
    BitsVal(b);
    BitsVal(Ones(8));
    if forall k :: 0 <= k < 8 ==> b[k] { assert b == Ones(8); }
  }

  /** A data byte 0xFF is always followed by a zero byte, so no marker can appear in packed data. */
  lemma {:induction false} NoMarkerInData(bits: BitString, i: nat)
    requires i < |Pack(bits)|
    requires Pack(bits)[i] == 0xFF
    ensures i + 1 < |Pack(bits)| && Pack(bits)[i + 1] == 0
  {
    var head := Stuffed(ByteOf(bits[..8]));
    if i >= |head| {
      NoMarkerInData(bits[8..], i - |head|);
    }
  }

  /**
   Seven one bits, with what does not fill a byte thrown away, are exactly the
   ones needed to reach a byte boundary: none at all when already aligned.
   */
  lemma {:induction false} SevenOnesPad(bits: BitString)
    ensures Pack(bits + Ones(7)) == Pack(bits + Ones(PadLength(|bits|)))
    ensures Leftover(bits + Ones(PadLength(|bits|))) == []
  {
    var pad := Ones(PadLength(|bits|));
    var extra := Ones(7 - |pad|);
    assert bits + Ones(7) == (bits + pad) + extra;
    PackConcat(bits + pad, extra);
    assert [] + extra == extra;
  }
}
