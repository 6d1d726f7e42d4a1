/**
 One axis of the scaler, seen through the table of coefficients: which cell a sample begins in,
 its two coefficients, and how much it weighs in any cell.
 */
module ScaleAxis {
  import opened Bits
  import opened ScaleWeights

  datatype Axis = Axis(n: nat, m: nat, cell: nat -> nat, first: nat -> nat, second: nat -> int, wt: (nat, nat) -> nat)
  {
    /** Walking along the samples and moving on at every nonzero second coefficient visits the cells in order and meets every weight. */
    ghost predicate Valid()
    {
      cell(0) == 0 && cell(n) == m && forall i: nat {:trigger StepAt(i)} :: i < n ==> StepAt(i)
    }

    ghost predicate StepAt(i: nat)
    {
      cell(i) < m && cell(i + 1) == (if second(i) != 0 then cell(i) + 1 else cell(i)) &&
      first(i) <= ONE && second(i) <= ONE && (second(i) > 0 ==> cell(i) + 1 < m) &&
      forall x: nat :: wt(x, i) == WeightIn(i, x)
    }

    function WeightIn(i: nat, x: nat): nat
    {
      if x == cell(i) then first(i) else if x == cell(i) + 1 && second(i) > 0 then second(i) else 0
    }

    /** The table CreateCoeffInt makes. */
    ghost predicate IsTable(t: array2<int>)
      reads t
    {
      t.Length0 == n && t.Length1 == 2 && forall i: nat :: i < n ==> t[i, 0] == first(i) && t[i, 1] == second(i)
    }

    lemma {:induction false} Monotone(i: nat, j: nat)
      requires Valid() && i <= j <= n
      ensures cell(i) <= cell(j)
    {
      if i < j {
        Monotone(i, j - 1);
        assert StepAt(j - 1);
      }
    }

    /** All cells are visited only when all samples have been. */
    lemma Complete(i: nat)
      requires Valid() && i <= n && cell(i) == m
      ensures i == n
    {
      assert i < n ==> StepAt(i);
    }
  }

  function AxisOf(n: nat, m: nat, d: nat): Axis
    requires n >= 1 && d >= 1
  {
    Axis(n, m, (i: nat) => Cell(n, m, i), (i: nat) => First(n, m, d, i), (i: nat) => Second(n, m, d, i),
         (x: nat, i: nat) => Weight(n, m, d, i, x))
  }

  lemma {:induction false} CellMonotone(n: nat, m: nat, i: nat, j: nat)
    requires 1 <= m <= n && i <= j
    ensures Cell(n, m, i) <= Cell(n, m, j)
  {
    if i < j {
      CellMonotone(n, m, i, j - 1);
      NextSample(n, m, j - 1);
    }
  }

  lemma WeightSmall(n: nat, m: nat, d: nat, i: nat, x: nat)
    requires 1 <= m <= n && m <= d
    ensures Weight(n, m, d, i, x) <= ONE
  {
    Overlaps(n, m, i, x);
    FloorSmall(Overlap(n, m, i, x), d);
  }

  lemma FloorSmall(o: nat, d: nat)
    requires 1 <= d && o <= d
    ensures o * ONE / d <= ONE
  {
    FloorBounds(o * ONE, d);
    var q := o * ONE / d;
    MulLess(d, q, ONE);
    MulAtLeast(d, q - ONE);
  }

  lemma WeightPlaces(n: nat, m: nat, d: nat, i: nat, x: nat)
    requires 1 <= m <= n && 1 <= d
    ensures Weight(n, m, d, i, x) == if x == Cell(n, m, i) then First(n, m, d, i)
                                     else if x == Cell(n, m, i) + 1 && Second(n, m, d, i) > 0 then Second(n, m, d, i) else 0
  {
    Overlaps(n, m, i, x);
    NextSample(n, m, i);
    ZeroDiv(d);
  }

  /** A sample that crosses over is not the last, and its next cell is one of the m. */
  lemma CrossesInside(n: nat, m: nat, d: nat, i: nat)
    requires 1 <= m <= n && 1 <= d && i < n
    ensures Cell(n, m, i) < m && (Second(n, m, d, i) > 0 ==> Cell(n, m, i) + 1 < m)
  {
    Ends(n, m);
    CellMonotone(n, m, i + 1, n);
    NextSample(n, m, i);
    NextSample(n, m, n - 1);
    SecondStays(n, m, d, i);
    if Second(n, m, d, i) > 0 && Cell(n, m, i) + 1 == m {
      CrossedLast(n, m, i + 1);
    } else if Cell(n, m, i) == m {
      CrossedLast(n, m, i);
    }
  }

  lemma CrossedLast(n: nat, m: nat, i: nat)
    requires 1 <= m <= n && i <= n && Cell(n, m, i) == m
    ensures i == n
  {
    assert i * m == m * n + Into(n, m, i);
    MulLess(m, n, i);
    MulAtLeast(m, n - i);
  }

  /** The arithmetic of CreateCoeffInt drives the scaler as it should for every exact length. */
  lemma AxisValid(n: nat, m: nat, d: nat)
    requires 1 <= m <= n && m <= d && Exact(n, m, d)
    ensures AxisOf(n, m, d).Valid()
  {
    var a := AxisOf(n, m, d);
    Ends(n, m);
    forall i: nat | i < n ensures a.StepAt(i) {
      SecondAdvances(n, m, d, i);
      SecondStays(n, m, d, i);
      CrossesInside(n, m, d, i);
      WeightSmall(n, m, d, i, Cell(n, m, i));
      WeightSmall(n, m, d, i, Cell(n, m, i) + 1);
      forall x: nat ensures a.wt(x, i) == a.WeightIn(i, x) {
        WeightPlaces(n, m, d, i, x);
      }
    }
  }
}
