/** Bit strings, most significant bit first, and the natural numbers they stand for. */
module Bits {

  type BitString = seq<bool>

  type Byte = b: int | 0 <= b < 256

  function Pow2(n: nat): (p: nat)
    ensures p >= 1
  {
    if n == 0 then 1 else 2 * Pow2(n - 1)
  }

  /** The low n bits of v. */
  function BitsOf(v: nat, n: nat): (b: BitString)
    ensures |b| == n
  {
    if n == 0 then [] else BitsOf(v / 2, n - 1) + [v % 2 == 1]
  }

  function Val(b: BitString): nat
  {
    if b == [] then 0 else 2 * Val(b[..|b| - 1]) + (if b[|b| - 1] then 1 else 0)
  }

  /** Bitwise or of two numbers in binary. */
  function BitOr(a: nat, b: nat): nat
    decreases a + b
  {
    if a == 0 then b
    else if b == 0 then a
    else 2 * BitOr(a / 2, b / 2) + (if a % 2 == 1 || b % 2 == 1 then 1 else 0)
  }

  function Ones(n: nat): BitString
  {
    seq(n, _ => true)
  }

  lemma {:induction false} OnesVal(n: nat)
    ensures Val(Ones(n)) == Pow2(n) - 1
  {
    if n > 0 {
      assert Ones(n)[..n - 1] == Ones(n - 1);
      OnesVal(n - 1);
    }
  }

  lemma Associative<T>(a: seq<T>, b: seq<T>, c: seq<T>)
    ensures a + b + c == a + (b + c)
  {
  }

  lemma Pow2Constants()
    ensures Pow2(8) == 256 && Pow2(16) == 0x1_0000 && Pow2(24) == 0x100_0000 && Pow2(32) == 0x1_0000_0000
  {
    assert Pow2(4) == 16;
    Pow2Add(4, 4);
    Pow2Add(8, 8);
    Pow2Add(16, 8);
    Pow2Add(16, 16);
  }

  lemma {:induction false} Pow2Add(m: nat, n: nat)
    ensures Pow2(m + n) == Pow2(m) * Pow2(n)
  {
    if n != 0 {
      Pow2Add(m, n - 1);
      calc {
        Pow2(m + n);
        2 * Pow2(m + (n - 1));
        2 * (Pow2(m) * Pow2(n - 1));
        Pow2(m) * (2 * Pow2(n - 1));
      }
    }
  }

  lemma {:induction false} Pow2Mono(m: nat, n: nat)
    requires m <= n
    ensures Pow2(m) <= Pow2(n)
  {
    if m < n { Pow2Mono(m, n - 1); }
  }

  lemma {:induction false} ValBound(b: BitString)
    ensures Val(b) < Pow2(|b|)
  {
    if b != [] { ValBound(b[..|b| - 1]); }
  }

  lemma ValOfLast(a: BitString, b: BitString)
    requires b != []
    ensures Val(a + b) == 2 * Val(a + b[..|b| - 1]) + if b[|b| - 1] then 1 else 0
  {
    assert (a + b)[..|a + b| - 1] == a + b[..|b| - 1];
  }

  lemma {:induction false} ValConcat(a: BitString, b: BitString)
    ensures Val(a + b) == Val(a) * Pow2(|b|) + Val(b)
  {
    if b == [] {
      assert a + b == a;
    } else {
      var c := b[..|b| - 1];
      ValConcat(a, c);
      ValOfLast(a, b);
      MulSwap(Val(a), 2, Pow2(|c|));
    }
  }

  lemma {:induction false} BitsVal(b: BitString)
    ensures BitsOf(Val(b), |b|) == b
  {
    if b != [] {
      BitsVal(b[..|b| - 1]);
      assert b == b[..|b| - 1] + [b[|b| - 1]];
    }
  }

  lemma {:induction false} ValBits(v: nat, n: nat)
    ensures Val(BitsOf(v, n)) == v % Pow2(n)
  {
    if n != 0 {
      ValBits(v / 2, n - 1);
      var p := BitsOf(v / 2, n - 1);
      assert BitsOf(v, n)[..n - 1] == p;
      HalfMod(v, Pow2(n - 1));
    }
  }

  lemma HalfMod(v: nat, p: nat)
    requires p >= 1
    ensures v % (2 * p) == 2 * ((v / 2) % p) + v % 2
  {
    var q := (v / 2) / p;
    var r := (v / 2) % p;
    assert v == 2 * (p * q + r) + v % 2;
    assert v == (2 * p) * q + (2 * r + v % 2);
    DivModUnique(v, 2 * p, q, 2 * r + v % 2);
  }

  /** a / b rounded up. */
  function CeilDiv(a: nat, b: nat): nat
    requires b >= 1
  {
    (a + b - 1) / b
  }

  /** Quotient and remainder are determined by the division equation. */
  lemma DivModUnique(v: int, d: int, q: int, r: int)
    requires 0 <= r < d
    requires v == d * q + r
    ensures v / d == q && v % d == r
  {
    SameDivision(d, q, r, v / d, v % d);
  }

  lemma SameDivision(d: int, q: int, r: int, q': int, r': int)
    requires 0 <= r < d && 0 <= r' < d
    requires d * q + r == d * q' + r'
    ensures q == q' && r == r'
  {
    assert d * (q - q') == r' - r;
    MulAtLeast(d, q - q');
  }

  lemma MulNat(a: nat, b: nat)
    ensures a * b >= 0
  {
  }

  lemma MulSum(a: int, b: int, c: int)
    ensures (a + b) * c == a * c + b * c
  {
  }

  lemma MulAssoc(a: int, b: int, c: int)
    ensures a * b * c == a * (b * c)
  {
  }

  lemma MulSwap(a: int, b: int, c: int)
    ensures a * (b * c) == b * (a * c)
  {
  }

  lemma MulLess(g: int, a: int, b: int)
    ensures g * (a - b) == g * a - g * b
    ensures a == b ==> g * a == g * b
  {
  }

  lemma MulAdd(a: int, b: int, c: int)
    ensures a * (b + c) == a * b + a * c
  {
  }

  lemma MulMono(a: nat, b: nat, c: nat)
    requires b <= c
    ensures a * b <= a * c
  {
  }

  lemma MulAtLeast(d: int, m: int)
    requires d >= 0
    ensures m >= 1 ==> d * m >= d
    ensures m <= -1 ==> d * m <= -d
  {
    if m >= 1 {
      assert d * m == d + d * (m - 1);
    } else if m <= -1 {
      assert d * m == -d + d * (m + 1);
    }
  }

  /** Or is addition when the two numbers share no bit. */
  lemma {:induction false} BitOrDisjoint(a: nat, b: nat, k: nat)
    requires a < Pow2(k)
    requires b % Pow2(k) == 0
    ensures BitOr(a, b) == a + b
    decreases k
  {
    if a != 0 && b != 0 && k != 0 {
      var p := Pow2(k - 1);
      HalfMod(b, p);
      assert a / 2 < p;
      BitOrDisjoint(a / 2, b / 2, k - 1);
    }
  }

  /** The first of n bits is bit n - 1 of the number, the others are its low n - 1 bits. */
  lemma {:induction false} BitsOfHead(v: nat, n: nat)
    requires n >= 1
    ensures BitsOf(v, n) == [v / Pow2(n - 1) % 2 == 1] + BitsOf(v, n - 1)
  {
    if n > 1 {
      BitsOfHead(v / 2, n - 1);
      DivDiv(v, 2, Pow2(n - 2));
    }
  }

  lemma DivDiv(v: nat, a: nat, b: nat)
    requires a >= 1 && b >= 1
    ensures a * b >= 1
    ensures v / a / b == v / (a * b)
  {
    MulAtLeast(a, b);
    var q, r := v / a, v % a;
    var q', r' := q / b, q % b;
    assert v == a * (b * q' + r') + r;
    assert a * (b * q') == (a * b) * q';
    assert a * r' + r < a * b by {
      assert r' + 1 <= b;
      MulAtLeast(a, b - r');
      assert a * b == a * r' + a * (b - r');
    }
    DivModUnique(v, a * b, q', a * r' + r);
  }

  lemma DivStep(v: nat, n: nat)
    ensures v / Pow2(n) == 2 * (v / Pow2(n + 1)) + v / Pow2(n) % 2
  {
    DivDiv(v, Pow2(n), 2);
  }
}
