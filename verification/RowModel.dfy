/**
 What the compressor proper is given of an image: row groups of v rows each, eight to an iMCU row,
 the last group filled up with the last row and the last iMCU row with copies of the last group's bottom row.
 */
module RowModel {
  import opened Bits

  type Row = seq<int>
  type Group = seq<Row>

  const DCTSIZE := 8

  /** down: conversion and downsampling of v rows; pad: a group of copies of a group's bottom row. */
  datatype Image = Image(rows: seq<Row>, v: nat, down: seq<Row> -> Group, pad: Group -> Group)
  {
    predicate Valid() { |rows| >= 1 && v >= 1 }

    function Groups(): nat
      requires Valid()
    {
      CeilDiv(|rows|, v)
    }

    /** total_iMCU_rows. */
    function IMcuRows(): nat
      requires Valid()
    {
      CeilDiv(|rows|, v * DCTSIZE)
    }

    /** The first row of a group. */
    function Start(g: nat): nat { g * v }

    /** Rows of a group; below the image, its last row. */
    function Rows(g: nat): (r: seq<Row>)
      requires Valid()
      ensures |r| == v
    {
      seq(v, k => if 0 <= Start(g) + k < |rows| then rows[Start(g) + k] else rows[|rows| - 1])
    }

    function GroupAt(g: nat): Group
      requires Valid()
    {
      if g < Groups() then down(Rows(g)) else pad(down(Rows(Groups() - 1)))
    }

    /** The eight groups of an iMCU row. */
    function IMcuRow(i: nat): (r: seq<Group>)
      requires Valid()
      ensures |r| == DCTSIZE
    {
      seq(DCTSIZE, k requires 0 <= k < DCTSIZE => GroupAt(DCTSIZE * i + k))
    }

    /** The first n iMCU rows. */
    function IMcuRowsUpTo(n: nat): (r: seq<seq<Group>>)
      requires Valid()
      ensures |r| == n
    {
      if n == 0 then [] else IMcuRowsUpTo(n - 1) + [IMcuRow(n - 1)]
    }

    /** Eight groups of v rows make an iMCU row; the last is as full as the image makes it. */
    lemma RowsInGroups()
      requires Valid()
      ensures (IMcuRows() - 1) * (8 * v) < |rows| <= IMcuRows() * (8 * v)
      ensures (Groups() - 1) * v < |rows| <= Groups() * v
    {
      RoundedUp(|rows|, v);
      RoundedUp(|rows|, 8 * v);
    }

    /**
     What the compressor is given: rows in order, eight groups to an iMCU row, the last row as often as a
     group needs, the last group's bottom as often as an iMCU row needs.
     */
    lemma GroupsInRows(i: nat, j: nat)
      requires Valid() && i < IMcuRows() && j < 8
      ensures |IMcuRow(i)| == 8
      ensures 8 * i + j < Groups() ==>
                exists group: seq<Row> :: IMcuRow(i)[j] == down(group) && |group| == v &&
                  forall k :: 0 <= k < v ==> group[k] == rows[if (8 * i + j) * v + k < |rows| then (8 * i + j) * v + k else |rows| - 1]
      ensures 8 * i + j >= Groups() ==> 8 * (IMcuRows() - 1) < Groups() && IMcuRow(i)[j] == pad(down(Rows(Groups() - 1)))
    {
      var g := 8 * i + j;
      StartInside(g);
      if g < Groups() {
        var group := Rows(g);
        assert IMcuRow(i)[j] == down(group) && |group| == v;
        MulNat(g, v);
        assert forall k :: 0 <= k < v ==> group[k] == rows[if g * v + k < |rows| then g * v + k else |rows| - 1];
      }
    }

    lemma NextStart(g: nat)
      ensures Start(g + 1) == Start(g) + v && Start(0) == 0
    {
    }

    /** A group that begins inside the image is one of its groups, and lies in one of its iMCU rows. */
    lemma StartInside(g: nat)
      requires Valid()
      ensures Start(g) < |rows| <==> g < Groups()
      ensures DCTSIZE * (IMcuRows() - 1) < Groups() <= DCTSIZE * IMcuRows()
    {
      CeilSpan(|rows|, v, g);
      var t := |rows| + DCTSIZE * v - 1;
      DivDiv(t, v, DCTSIZE);
      ShiftDiv(|rows| + v - 1, v);
      assert t == |rows| + v - 1 + 7 * v;
      assert IMcuRows() == (Groups() + 7) / DCTSIZE;
    }
  }

  lemma RoundedUp(a: nat, b: nat)
    requires b >= 1
    ensures (CeilDiv(a, b) - 1) * b < a <= CeilDiv(a, b) * b
  {
  }

  lemma CeilSpan(a: nat, b: nat, g: nat)
    requires b >= 1
    ensures g * b < a <==> g < CeilDiv(a, b)
  {
    var q := CeilDiv(a, b);
    assert a + b - 1 == q * b + (a + b - 1) % b;
    MulAtLeast(b, q - g);
    MulAtLeast(b, g - q);
    assert b * (q - g) == q * b - g * b && b * (g - q) == g * b - q * b;
  }

  lemma ShiftDiv(a: nat, b: nat)
    requires b >= 1
    ensures (a + 7 * b) / b == a / b + 7
  {
    assert a == b * (a / b) + a % b;
    assert b * (a / b + 7) == b * (a / b) + 7 * b;
    DivModUnique(a + 7 * b, b, a / b + 7, a % b);
  }
}
