/**
 The weights of the smooth bitmap scaler.  n samples are laid over m <= n cells of n units each,
 sample i covering units i*m to (i+1)*m.  The code finds the weights with running sums; the
 reference here is the length of the overlap, as a fixed-point fraction with 12 bits.
 */
module ScaleWeights {
  import opened Bits

  const ONE := 4096

  /** The cell in which sample i begins, and how far into it. */
  function Cell(n: nat, m: nat, i: nat): nat
    requires n >= 1
  {
    i * m / n
  }

  function Into(n: nat, m: nat, i: nat): (r: nat)
    requires n >= 1
    ensures r < n
  {
    i * m % n
  }

  function Min(a: int, b: int): int { if a < b then a else b }
  function Max(a: int, b: int): int { if a < b then b else a }

  /** How much of cell x sample i covers. */
  function Overlap(n: nat, m: nat, i: nat, x: nat): nat
  {
    Max(0, Min((i + 1) * m, (x + 1) * n) - Max(i * m, x * n))
  }

  /** The weight of sample i for cell x, as a fraction of d units. */
  function Weight(n: nat, m: nat, d: nat, i: nat, x: nat): nat
    requires d >= 1
  {
    Overlap(n, m, i, x) * ONE / d
  }

  /** This is 4096 times the length from lo to hi that sample and cell have in common. */
  lemma WeightIsOverlap(n: nat, m: nat, d: nat, i: nat, x: nat, lo: int, hi: int)
    requires d >= 1
    requires i * m <= lo && x * n <= lo && (lo == i * m || lo == x * n)
    requires hi <= i * m + m && hi <= x * n + n && (hi == i * m + m || hi == x * n + n)
    ensures Weight(n, m, d, i, x) == if lo < hi then (hi - lo) * 4096 / d else 0
  {
    assert (i + 1) * m == i * m + m && (x + 1) * n == x * n + n;
    ZeroDiv(d);
  }

  /** The two coefficients stored for sample i: for its own cell, and for the next; -1 marks a cell that ends with the sample. */
  function First(n: nat, m: nat, d: nat, i: nat): nat
    requires n >= 1 && d >= 1
  {
    Weight(n, m, d, i, Cell(n, m, i))
  }

  function Second(n: nat, m: nat, d: nat, i: nat): int
    requires n >= 1 && d >= 1
  {
    if Into(n, m, i + 1) == 0 then -1 else Weight(n, m, d, i, Cell(n, m, i) + 1)
  }

  /** The next sample begins in the same cell or, if this one reaches the end of its cell, in the next. */
  lemma NextSample(n: nat, m: nat, i: nat)
    requires 1 <= m <= n
    ensures Into(n, m, i + 1) == if Into(n, m, i) + m >= n then Into(n, m, i) + m - n else Into(n, m, i) + m
    ensures Cell(n, m, i + 1) == if Into(n, m, i) + m >= n then Cell(n, m, i) + 1 else Cell(n, m, i)
  {
    var q, r := Cell(n, m, i), Into(n, m, i);
    assert i * m == q * n + r;
    assert (i + 1) * m == i * m + m;
    if r + m >= n {
      assert (q + 1) * n == q * n + n;
      DivModUnique((i + 1) * m, n, q + 1, r + m - n);
    } else {
      DivModUnique((i + 1) * m, n, q, r + m);
    }
  }

  /** A sample overlaps its own cell, and the next one if it crosses over; no others. */
  lemma Overlaps(n: nat, m: nat, i: nat, x: nat)
    requires 1 <= m <= n
    ensures var q, r := Cell(n, m, i), Into(n, m, i);
            Overlap(n, m, i, x) == if x == q then Min(m, n - r) else if x == q + 1 then Max(0, r + m - n) else 0
  {
    var q, r := Cell(n, m, i), Into(n, m, i);
    assert i * m == q * n + r;
    MulSum(i, 1, m);
    MulSum(x, 1, n);
    if x < q {
      CellsApart(n, q, x);
    } else if x > q + 1 {
      CellsApart(n, x, q + 1);
      MulSum(q, 1, n);
    } else if x == q + 1 {
      MulSum(q, 1, n);
    }
  }

  lemma CellsApart(n: nat, a: nat, b: nat)
    requires a > b
    ensures a * n >= b * n + n
  {
    MulAtLeast(n, a - b);
    MulLess(n, a, b);
  }

  /** CreateCoeffInt. */
  method CreateCoeffInt(nLen: nat, nNewLen: nat, shrink: bool) returns (res: array2<int>)
    requires 1 <= nNewLen <= nLen
    ensures fresh(res) && res.Length0 == nLen && res.Length1 == 2
    ensures forall i: nat :: i < nLen ==>
              res[i, 0] == First(nLen, nNewLen, if shrink then nLen else nNewLen, i) &&
              res[i, 1] == Second(nLen, nNewLen, if shrink then nLen else nNewLen, i)
  {
    var sum: nat, sum2 := 0, 0;
    res := new int[nLen, 2]((_, _) => 0);
    var norm := if shrink then nNewLen * ONE / nLen else ONE;
    var denom := if shrink then nLen else nNewLen;
    assert 0 * nNewLen == 0;
    assert norm == nNewLen * ONE / denom by { DivModUnique(nNewLen * ONE, nNewLen, ONE, 0); }
    for i := 0 to nLen
      invariant sum == Into(nLen, nNewLen, i)
      invariant forall j: nat, k :: i <= j < nLen && 0 <= k < 2 ==> res[j, k] == 0
      invariant forall j: nat :: j < i ==>
                  res[j, 0] == First(nLen, nNewLen, denom, j) && res[j, 1] == Second(nLen, nNewLen, denom, j)
    {
      Overlaps(nLen, nNewLen, i, Cell(nLen, nNewLen, i));
      Overlaps(nLen, nNewLen, i, Cell(nLen, nNewLen, i) + 1);
      NextSample(nLen, nNewLen, i);
      sum2 := sum + nNewLen;
      if sum2 > nLen {
        res[i, 0] := (nLen - sum) * ONE / denom;
        res[i, 1] := (sum2 - nLen) * ONE / denom;
        sum2 := sum2 - nLen;
      } else {
        res[i, 0] := norm;
        if sum2 == nLen {
          res[i, 1] := -1;
          sum2 := 0;
        }
      }
      sum := sum2;
    }
  }

  // ---------------------------------------------------------------- how often the scaler advances

  /** How many of the first i samples have a nonzero second coefficient: each moves the scaler to the next cell. */
  function Advances(n: nat, m: nat, d: nat, i: nat): nat
    requires n >= 1 && d >= 1
  {
    if i == 0 then 0 else Advances(n, m, d, i - 1) + if Second(n, m, d, i - 1) != 0 then 1 else 0
  }

  function Gcd(a: nat, b: nat): (g: nat)
    requires a >= 1 && b >= 1
    ensures 1 <= g <= a && g <= b
    decreases a + b
  {
    if a == b then a else if a < b then Gcd(a, b - a) else Gcd(a - b, b)
  }

  lemma {:induction false} GcdDivides(a: nat, b: nat) returns (k: nat, l: nat)
    requires a >= 1 && b >= 1
    ensures a == Gcd(a, b) * k && b == Gcd(a, b) * l
    decreases a + b
  {
    if a == b {
      k, l := 1, 1;
    } else if a < b {
      k, l := GcdDivides(a, b - a);
      assert Gcd(a, b) * (k + l) == Gcd(a, b) * k + Gcd(a, b) * l;
      l := k + l;
    } else {
      k, l := GcdDivides(a - b, b);
      assert Gcd(a, b) * (k + l) == Gcd(a, b) * k + Gcd(a, b) * l;
      k := k + l;
    }
  }

  lemma {:induction false} Bezout(a: nat, b: nat) returns (p: int, q: int)
    requires a >= 1 && b >= 1
    ensures p * a + q * b == Gcd(a, b)
    decreases a + b
  {
    if a == b {
      p, q := 1, 0;
    } else if a < b {
      p, q := Bezout(a, b - a);
      assert p * a + q * (b - a) == (p - q) * a + q * b;
      p := p - q;
    } else {
      p, q := Bezout(a - b, b);
      assert p * (a - b) + q * b == p * a + (q - p) * b;
      q := q - p;
    }
  }

  /** The lengths for which no part of a sample that crosses over is too short for its 12-bit weight. */
  predicate Exact(n: nat, m: nat, d: nat)
    requires 1 <= m <= n
  {
    Gcd(n, m) == m || Gcd(n, m) * ONE >= d
  }

  /** Lengths up to 4096 are always among them. */
  lemma SmallIsExact(n: nat, m: nat, d: nat)
    requires 1 <= m <= n && d <= ONE
    ensures Exact(n, m, d)
  {
  }

  /** Where a sample begins in its cell is a multiple of the common divisor. */
  lemma IntoMultiple(n: nat, m: nat, i: nat)
    requires 1 <= m <= n
    ensures Into(n, m, i) > 0 ==> Into(n, m, i) >= Gcd(n, m)
  {
    var kn, km := GcdDivides(n, m);
    assert i * m == Cell(n, m, i) * n + Into(n, m, i);
    MultipleAtLeast(Gcd(n, m), kn, km, i, Cell(n, m, i), Into(n, m, i));
  }

  lemma MultipleAtLeast(g: nat, kn: nat, km: nat, i: nat, q: nat, r: nat)
    requires i * (g * km) == q * (g * kn) + r
    ensures r > 0 ==> r >= g
  {
    MulSwap(i, g, km);
    MulSwap(q, g, kn);
    MulLess(g, i * km, q * kn);
    MulAtLeast(g, i * km - q * kn);
  }

  /** ... and one begins exactly there. */
  lemma IntoReaches(n: nat, m: nat) returns (i: nat)
    requires 1 <= m <= n && Gcd(n, m) < n
    ensures i < n && Into(n, m, i) == Gcd(n, m)
  {
    var g := Gcd(n, m);
    var q, p := Bezout(n, m);
    i := p % n;
    var t := p / n;
    assert p == n * t + i;
    assert p * m == n * (t * m) + i * m by { MulSum(n * t, i, m); MulAssoc(n, t, m); }
    assert n * (-q - t * m) == -(q * n) - n * (t * m) by { MulSum(n, 0, m); }
    DivModUnique(i * m, n, -q - t * m, g);
  }

  /** With an exact length the second coefficient is nonzero exactly when the next sample begins in the next cell. */
  lemma SecondAdvances(n: nat, m: nat, d: nat, i: nat)
    requires 1 <= m <= n && 1 <= d && Exact(n, m, d)
    ensures Second(n, m, d, i) != 0 <==> Cell(n, m, i + 1) == Cell(n, m, i) + 1
  {
    NextSample(n, m, i);
    Overlaps(n, m, i, Cell(n, m, i) + 1);
    IntoMultiple(n, m, i + 1);
    if Into(n, m, i + 1) > 0 && Cell(n, m, i + 1) == Cell(n, m, i) + 1 {
      AtLeastOne(Into(n, m, i + 1) * ONE, d);
    } else {
      assert 0 * ONE / d == 0;
    }
  }

  lemma AtLeastOne(a: nat, d: nat)
    requires d >= 1
    ensures a / d >= 1 <==> a >= d
  {
    var q, r := a / d, a % d;
    assert a == d * q + r;
    MulAtLeast(d, q);
    if q == 0 { assert d * q == 0; }
  }

  /** Never more advances than cells begun. */
  lemma {:induction false} AdvancesAtMost(n: nat, m: nat, d: nat, i: nat, j: nat)
    requires 1 <= m <= n && 1 <= d && i <= j
    ensures Advances(n, m, d, j) - Advances(n, m, d, i) <= Cell(n, m, j) - Cell(n, m, i)
  {
    if i < j {
      AdvancesAtMost(n, m, d, i, j - 1);
      SecondStays(n, m, d, j - 1);
    }
  }

  lemma SecondStays(n: nat, m: nat, d: nat, i: nat)
    requires 1 <= m <= n && 1 <= d
    ensures Cell(n, m, i) <= Cell(n, m, i + 1) <= Cell(n, m, i) + 1
    ensures Cell(n, m, i + 1) == Cell(n, m, i) ==> Second(n, m, d, i) == 0
  {
    NextSample(n, m, i);
    Overlaps(n, m, i, Cell(n, m, i) + 1);
    ZeroDiv(d);
  }

  lemma ZeroDiv(d: nat)
    requires d >= 1
    ensures 0 / d == 0
  {
  }

  lemma {:induction false} AdvancesAll(n: nat, m: nat, d: nat, i: nat)
    requires 1 <= m <= n && 1 <= d && Exact(n, m, d)
    ensures Advances(n, m, d, i) == Cell(n, m, i)
  {
    if i == 0 {
      assert 0 * m / n == 0;
    } else {
      AdvancesAll(n, m, d, i - 1);
      SecondAdvances(n, m, d, i - 1);
      NextSample(n, m, i - 1);
    }
  }

  lemma Ends(n: nat, m: nat)
    requires 1 <= m <= n
    ensures Cell(n, m, n) == m && Into(n, m, n) == 0 && Cell(n, m, 0) == 0
  {
    DivModUnique(n * m, n, m, 0);
    assert 0 * m == 0;
  }

  /**
   Exactly m of the n second coefficients are nonzero, the last of them -1, if and only if the
   length is exact; otherwise fewer are, and a scaler waiting for m advances runs past the table.
   */
  lemma CoefficientsComplete(n: nat, m: nat, d: nat)
    requires 1 <= m <= n && 1 <= d
    ensures Advances(n, m, d, n) <= m && (Advances(n, m, d, n) == m <==> Exact(n, m, d))
    ensures Second(n, m, d, n - 1) == -1
  {
    Ends(n, m);
    AdvancesAtMost(n, m, d, 0, n);
    if Exact(n, m, d) {
      AdvancesAll(n, m, d, n);
    } else {
      var i := IntoReaches(n, m);
      if i == 0 { assert 0 * m % n == 0; }
      MissedAdvance(n, m, d, i - 1);
      AdvancesAtMost(n, m, d, 0, i - 1);
      AdvancesAtMost(n, m, d, i, n);
    }
  }

  /** A sample that crosses over by too little does not advance. */
  lemma MissedAdvance(n: nat, m: nat, d: nat, i: nat)
    requires 1 <= m <= n && 1 <= d && !Exact(n, m, d) && Into(n, m, i + 1) == Gcd(n, m)
    ensures Advances(n, m, d, i + 1) == Advances(n, m, d, i) && Cell(n, m, i + 1) == Cell(n, m, i) + 1
  {
    NextSample(n, m, i);
    Overlaps(n, m, i, Cell(n, m, i) + 1);
    AtLeastOne(Gcd(n, m) * ONE, d);
  }

  /** For example 4097 pixels onto 2: the middle pixel crosses over by one part in 4097, and is not seen to. */
  lemma LongLineFails()
    ensures Advances(4097, 2, 4097, 4097) < 2
  {
    assert Gcd(4097, 2) == 1 by { GcdOdd(4097); }
    CoefficientsComplete(4097, 2, 4097);
  }

  lemma {:induction false} GcdOdd(n: nat)
    requires n % 2 == 1
    ensures Gcd(n, 2) == 1
  {
    if n == 1 {
      assert Gcd(1, 2) == Gcd(1, 1);
    } else {
      GcdOdd(n - 2);
    }
  }

  // ---------------------------------------------------------------- sums of weights

  /** What the first c samples give cell x. */
  function WeightSum(n: nat, m: nat, d: nat, x: nat, c: nat): nat
    requires d >= 1
  {
    if c == 0 then 0 else WeightSum(n, m, d, x, c - 1) + Weight(n, m, d, c - 1, x)
  }

  function Contributors(n: nat, m: nat, x: nat, c: nat): nat
  {
    if c == 0 then 0 else Contributors(n, m, x, c - 1) + if Overlap(n, m, c - 1, x) > 0 then 1 else 0
  }

  /** How much of cell x the first c samples cover. */
  function Covered(n: nat, m: nat, x: nat, c: nat): (r: nat)
    ensures r <= n
  {
    Max(0, Min(c * m - x * n, n))
  }

  lemma CoveredStep(n: nat, m: nat, x: nat, c: nat)
    ensures Covered(n, m, x, c + 1) == Covered(n, m, x, c) + Overlap(n, m, c, x)
  {
    assert (c + 1) * m == c * m + m && (x + 1) * n == x * n + n;
    assert c * m >= 0 && x * n >= 0;
  }

  lemma NothingCovered(n: nat, m: nat, x: nat)
    ensures Covered(n, m, x, 0) == 0
  {
    assert 0 * m == 0;
    assert x * n >= 0;
  }

  lemma FloorBounds(a: nat, d: nat)
    requires d >= 1
    ensures d * (a / d) <= a <= d * (a / d) + (d - 1)
  {
    assert a == d * (a / d) + a % d;
  }

  /** s is the sum of k nonzero weights for v units out of d: rounding down loses less than one unit each. */
  predicate SumOf(d: nat, s: nat, v: nat, k: nat)
    requires d >= 1
  {
    d * s <= ONE * v <= d * s + (d - 1) * k
  }

  lemma {:induction false} SumBounds(n: nat, m: nat, d: nat, x: nat, c: nat)
    requires 1 <= m <= n && 1 <= d
    ensures SumOf(d, WeightSum(n, m, d, x, c), Covered(n, m, x, c), Contributors(n, m, x, c))
  {
    if c == 0 {
      NothingCovered(n, m, x);
    } else {
      SumBounds(n, m, d, x, c - 1);
      CoveredStep(n, m, x, c - 1);
      BoundsStep(d, WeightSum(n, m, d, x, c - 1), Covered(n, m, x, c - 1), Contributors(n, m, x, c - 1), Overlap(n, m, c - 1, x));
    }
  }

  lemma BoundsStep(d: nat, s: nat, v: nat, k: nat, o: nat)
    requires d >= 1 && SumOf(d, s, v, k)
    ensures SumOf(d, s + o * ONE / d, v + o, k + if o > 0 then 1 else 0)
  {
    FloorBounds(o * ONE, d);
    MulAdd(d, s, o * ONE / d);
    MulAdd(d - 1, k, 1);
    ZeroDiv(d);
  }

  /** When shrinking, the weights into one cell sum to at most 1.0, and fall short by less than one unit per contributor. */
  lemma ShrinkWeights(n: nat, m: nat, x: nat)
    requires 1 <= m <= n && x < m
    ensures ONE - Contributors(n, m, x, n) < WeightSum(n, m, n, x, n) <= ONE
  {
    SumBounds(n, m, n, x, n);
    CoveredAll(n, m, x);
    CoveredBySome(n, m, x, n);
    WholeCell(n, WeightSum(n, m, n, x, n), Contributors(n, m, x, n));
  }

  lemma CoveredAll(n: nat, m: nat, x: nat)
    requires x < m
    ensures Covered(n, m, x, n) == n
  {
    MulAtLeast(n, m - x);
    MulLess(n, m, x);
  }

  lemma {:induction false} CoveredBySome(n: nat, m: nat, x: nat, c: nat)
    ensures Covered(n, m, x, c) > 0 ==> Contributors(n, m, x, c) > 0
  {
    if c == 0 {
      NothingCovered(n, m, x);
    } else {
      CoveredBySome(n, m, x, c - 1);
      CoveredStep(n, m, x, c - 1);
    }
  }

  lemma WholeCell(n: nat, s: nat, k: nat)
    requires n >= 1 && k >= 1 && n * s <= ONE * n <= n * s + (n - 1) * k
    ensures ONE - k < s <= ONE
  {
    MulLess(n, s, ONE);
    MulAtLeast(n, s - ONE);
    MulLess(n, s + k, ONE);
    MulAtLeast(n, s + k - ONE);
    MulAdd(n, s, k);
    assert (n - 1) * k == n * k - k;
  }

  /** At no point do the weights into a cell exceed 1.0. */
  lemma PartialWeights(n: nat, m: nat, x: nat, c: nat)
    requires 1 <= m <= n
    ensures WeightSum(n, m, n, x, c) <= ONE
  {
    SumBounds(n, m, n, x, c);
    PartOfCell(n, WeightSum(n, m, n, x, c), Covered(n, m, x, c));
  }

  lemma PartOfCell(n: nat, s: nat, v: nat)
    requires n >= 1 && n * s <= ONE * v && v <= n
    ensures s <= ONE
  {
    MulLess(n, s, ONE);
    MulAtLeast(n, s - ONE);
  }

  /** When enlarging, the two weights of a sample sum to 1.0 or to one unit less. */
  lemma EnlargeWeights(n: nat, m: nat, i: nat)
    requires 1 <= m <= n
    ensures ONE - 1 <= First(n, m, m, i) + Max(0, Second(n, m, m, i)) <= ONE
  {
    var q, r := Cell(n, m, i), Into(n, m, i);
    Overlaps(n, m, i, q);
    Overlaps(n, m, i, q + 1);
    NextSample(n, m, i);
    DivModUnique(m * ONE, m, ONE, 0);
    if r + m > n {
      SplitFloors((n - r) * ONE, (r + m - n) * ONE, m, ONE);
    }
  }

  lemma SplitFloors(a: nat, b: nat, d: nat, q: nat)
    requires d >= 1 && a + b == d * q
    ensures q - 1 <= a / d + b / d <= q
  {
    FloorBounds(a, d);
    FloorBounds(b, d);
    var k := a / d + b / d;
    assert d * k == d * (a / d) + d * (b / d);
    MulAtLeast(d, q - k);
    assert d * (q - k) == d * q - d * k;
    MulAtLeast(d, q - k - 2);
    assert d * (q - k - 2) == d * q - d * k - 2 * d;
  }
}
