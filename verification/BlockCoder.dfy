/**
 encode_one_block and htest_one_block: the same walk over a block, once writing the
 symbols and once counting them.  Both are proved against BlockCode.BlockTokens.
 */
module BlockCoder {
  import opened Bits
  import opened BitWriter
  import opened DerivedTable
  import opened BlockCode

  /** Everything the encoder requires of a block: coefficients in range, a code for every symbol. */
  predicate Encodable(t: Tables, b: Block, lastDc: int)
    requires t.Shaped()
  {
    InRange(b, lastDc) && t.HasAll(BlockTokens(b, lastDc))
  }

  /** Why coding fails: a coefficient is out of range, or a symbol has no code. */
  predicate Explains(e: JpegError, inRange: bool, covered: bool)
  {
    if e == BadDctCoef then !inRange else e == MissingCode && !covered
  }

  lemma HasAllConcat(t: Tables, a: seq<Token>, b: seq<Token>)
    requires t.Shaped()
    ensures t.HasAll(a + b) <==> t.HasAll(a) && t.HasAll(b)
  {
    if t.HasAll(a + b) { HasAllSplit(t, a, b); }
  }

  method CountBits(v: nat) returns (nbits: nat)
    ensures nbits == NBits(v)
  {
    var temp := v;
    nbits := 0;
    while temp != 0
      invariant nbits + NBits(temp) == NBits(v)
    {
      nbits, temp := nbits + 1, temp / 2;
    }
  }

  method CountBitsNonzero(v: nat) returns (nbits: nat)
    requires v != 0
    ensures nbits == NBits(v) >= 1
  {
    var temp: nat := v / 2;
    nbits := 1;
    while temp != 0
      invariant nbits + NBits(temp) == NBits(v)
    {
      nbits, temp := nbits + 1, temp / 2;
    }
  }

  /** A Huffman code, then nbits raw bits of temp2 if there are any. */
  method EmitToken(state: WorkingState, d: Derived, symbol: nat, temp2: int, nbits: nat, raw: bool,
                   ghost goal: Goal, ghost pending: BitString, ghost rest: BitString)
    returns (r: Outcome, ghost pending': BitString)
    requires d.Shaped() && symbol < 256 && nbits <= 16 && raw == (nbits != 0)
    requires state.Heading(goal, pending, d.Code(symbol) + BitsOf(temp2 % WORD, nbits) + rest)
    modifies state`next, state`free, state`putBuffer, state`putBits, state.dest, state.dest.buffer
    ensures state.Stepped(r, goal.slack)
    ensures r.Failed? ==> r.error == MissingCode && !d.Has(symbol)
    ensures r.Done? ==> d.Has(symbol) && state.Heading(goal, pending', rest)
  {
    ghost var bits := BitsOf(temp2 % WORD, nbits);
    Associative(d.Code(symbol), bits, rest);
    r, pending' := state.Put(d.ehufco[symbol], d.ehufsi[symbol], goal, pending, bits + rest);
    if r.Done? {
      if raw {
        r, pending' := state.Put(temp2 % WORD, nbits, goal, pending', rest);
      } else {
        assert bits + rest == rest;
      }
    }
  }

  /** The DC difference, section F.1.2.1. */
  method EncodeDc(state: WorkingState, diff: int, t: Tables,
                  ghost goal: Goal, ghost pending: BitString, ghost rest: BitString)
    returns (r: Outcome, ghost pending': BitString)
    requires t.Shaped() && state.Heading(goal, pending, t.BitsFor(DcToken(diff)) + rest)
    modifies state`next, state`free, state`putBuffer, state`putBits, state.dest, state.dest.buffer
    ensures state.Stepped(r, goal.slack)
    ensures r.Failed? ==> Explains(r.error, NBits(Abs(diff)) <= MAX_COEF_BITS + 1, t.Has(DcToken(diff)))
    ensures r.Done? ==> NBits(Abs(diff)) <= MAX_COEF_BITS + 1 && t.Has(DcToken(diff))
    ensures r.Done? ==> state.Heading(goal, pending', rest)
  {
    var temp, temp2 := diff, diff;
    if temp < 0 {
      temp := -temp;
      temp2 := temp2 - 1;
    }
    var nbits := CountBits(temp);
    if nbits > MAX_COEF_BITS + 1 {
      pending' := pending;
      return Failed(BadDctCoef), pending';
    }
    r, pending' := EmitToken(state, t.dcCodes, nbits, temp2, nbits, nbits != 0, goal, pending, rest);
  }

  lemma HasZeroRuns(t: Tables, n: nat)
    requires t.Shaped()
    ensures t.HasAll(ZeroRuns(n)) <==> (n > 0 ==> t.Has(ZRL))
  {
    assert n > 0 ==> ZeroRuns(n)[0] == ZRL;
  }

  /** The special code for sixteen zeros, as often as it fits the run. */
  method EncodeZeroRuns(state: WorkingState, run: nat, t: Tables,
                        ghost goal: Goal, ghost pending: BitString, ghost rest: BitString)
    returns (res: Outcome, r: nat, ghost pending': BitString)
    requires t.Shaped() && state.Heading(goal, pending, t.AllBits(ZeroRuns(run / 16)) + rest)
    modifies state`next, state`free, state`putBuffer, state`putBits, state.dest, state.dest.buffer
    ensures state.Stepped(res, goal.slack) && t.HasAll(ZeroRuns(run / 16)) == (run > 15 ==> t.Has(ZRL))
    ensures res.Failed? ==> res.error == MissingCode && run > 15 && !t.Has(ZRL)
    ensures res.Done? ==> r == run % 16 && (run > 15 ==> t.Has(ZRL)) && state.Heading(goal, pending', rest)
  {
    HasZeroRuns(t, run / 16);
    res, r, pending' := Done, run, pending;
    ghost var n: nat := run / 16;
    while r > 15
      invariant res == Done && r == 16 * n + run % 16 && (r < run ==> t.Has(ZRL))
      invariant r <= run && state.Stepped(Done, goal.slack)
      invariant state.Heading(goal, pending', t.AllBits(ZeroRuns(n)) + rest)
    {
      ZeroRunBits(t, n, rest);
      n := n - 1;
      res, pending' := EmitToken(state, t.acCodes, 0xF0, 0, 0, false, goal, pending', t.AllBits(ZeroRuns(n)) + rest);
      if !res.Done? {
        return;
      }
      r := r - 16;
    }
    assert t.AllBits(ZeroRuns(0)) + rest == rest;
  }

  /** A nonzero AC coefficient after a run of zeros, section F.1.2.2. */
  method EncodeCoefficient(state: WorkingState, run: nat, v: int, t: Tables,
                           ghost goal: Goal, ghost pending: BitString, ghost rest: BitString)
    returns (res: Outcome, ghost pending': BitString)
    requires t.Shaped() && v != 0
    requires state.Heading(goal, pending, t.AllBits(ZeroRuns(run / 16)) + (t.BitsFor(AcToken(run % 16, v)) + rest))
    modifies state`next, state`free, state`putBuffer, state`putBits, state.dest, state.dest.buffer
    ensures state.Stepped(res, goal.slack)
    ensures res.Failed? ==> Explains(res.error, NBits(Abs(v)) <= MAX_COEF_BITS, t.HasAll(ZeroRuns(run / 16)) && t.Has(AcToken(run % 16, v)))
    ensures res.Done? ==> NBits(Abs(v)) <= MAX_COEF_BITS && t.HasAll(ZeroRuns(run / 16)) && t.Has(AcToken(run % 16, v))
    ensures res.Done? ==> state.Heading(goal, pending', rest)
  {
    var r;
    res, r, pending' := EncodeZeroRuns(state, run, t, goal, pending, t.BitsFor(AcToken(run % 16, v)) + rest);
    if res.Done? {
      res, pending' := EncodeValue(state, r, v, t, goal, pending', rest);
    }
  }

  /** The token of a coefficient in range: a code below 256, and that many raw bits. */
  lemma AcBits(t: Tables, r: nat, v: int)
    requires t.Shaped() && r < 16 && NBits(Abs(v)) <= MAX_COEF_BITS
    ensures var n := NBits(Abs(v));
            r * 16 + n < 256 && AcToken(r, v).symbol == r * 16 + n &&
            t.BitsFor(AcToken(r, v)) == t.acCodes.Code(r * 16 + n) + BitsOf((if v < 0 then v - 1 else v) % WORD, n)
  {
  }

  /** The coefficient itself, with the at most fifteen zeros before it. */
  method EncodeValue(state: WorkingState, r: nat, v: int, t: Tables,
                     ghost goal: Goal, ghost pending: BitString, ghost rest: BitString)
    returns (res: Outcome, ghost pending': BitString)
    requires t.Shaped() && v != 0 && r < 16
    requires state.Heading(goal, pending, t.BitsFor(AcToken(r, v)) + rest)
    modifies state`next, state`free, state`putBuffer, state`putBits, state.dest, state.dest.buffer
    ensures state.Stepped(res, goal.slack)
    ensures res.Failed? ==> Explains(res.error, NBits(Abs(v)) <= MAX_COEF_BITS, t.Has(AcToken(r, v)))
    ensures res.Done? ==> NBits(Abs(v)) <= MAX_COEF_BITS && t.Has(AcToken(r, v)) && state.Heading(goal, pending', rest)
  {
    var temp, temp2 := v, v;
    if temp < 0 {
      temp := -temp;
      temp2 := temp2 - 1;
    }
    var nbits := CountBitsNonzero(temp);
    if nbits > MAX_COEF_BITS {
      return Failed(BadDctCoef), pending;
    }
    res, pending' := EmitValue(state, r, v, temp2, nbits, t, goal, pending, rest);
  }

  /** Code and raw bits of a value whose size is known. */
  method EmitValue(state: WorkingState, r: nat, ghost v: int, temp2: int, nbits: nat, t: Tables,
                   ghost goal: Goal, ghost pending: BitString, ghost rest: BitString)
    returns (res: Outcome, ghost pending': BitString)
    requires t.Shaped() && r < 16 && 1 <= nbits == NBits(Abs(v)) <= MAX_COEF_BITS && temp2 == if v < 0 then v - 1 else v
    requires state.Heading(goal, pending, t.BitsFor(AcToken(r, v)) + rest)
    modifies state`next, state`free, state`putBuffer, state`putBits, state.dest, state.dest.buffer
    ensures state.Stepped(res, goal.slack)
    ensures res.Failed? ==> res.error == MissingCode && !t.Has(AcToken(r, v))
    ensures res.Done? ==> t.Has(AcToken(r, v)) && state.Heading(goal, pending', rest)
  {
    AcBits(t, r, v);
    res, pending' := EmitToken(state, t.acCodes, r * 16 + nbits, temp2, nbits, true, goal, pending, rest);
  }

  lemma ZeroRunBits(t: Tables, n: nat, tail: BitString)
    requires t.Shaped() && n > 0
    ensures t.AllBits(ZeroRuns(n)) + tail == t.acCodes.Code(0xF0) + BitsOf(0, 0) + (t.AllBits(ZeroRuns(n - 1)) + tail)
  {
    assert ZeroRuns(n)[0] == ZRL && ZeroRuns(n)[1..] == ZeroRuns(n - 1);
  }

  /** What remains to be written from position k on, spelled out. */
  lemma AcRemaining(t: Tables, z: Block, k: nat, r: nat, rest: BitString)
    requires t.Shaped() && k < 64 && z[k] != 0
    ensures t.AllBits(AcTokens(z, k, r)) + rest
            == t.AllBits(ZeroRuns(r / 16)) + (t.BitsFor(AcToken(r % 16, z[k])) + (t.AllBits(AcTokens(z, k + 1, 0)) + rest))
    ensures t.HasAll(AcTokens(z, k, r))
            <==> t.HasAll(ZeroRuns(r / 16)) && t.Has(AcToken(r % 16, z[k])) && t.HasAll(AcTokens(z, k + 1, 0))
  {
    var zeros, c, others := ZeroRuns(r / 16), AcToken(r % 16, z[k]), AcTokens(z, k + 1, 0);
    RunBits(t, zeros, c, others, rest);
    HasAllConcat(t, zeros + [c], others);
    HasAllConcat(t, zeros, [c]);
    assert t.HasAll([c]) <==> t.Has([c][0]);
  }

  /** One position of the AC loop: another zero, or a run and a coefficient. */
  method EncodeAcAt(state: WorkingState, block: Block, k: nat, r0: nat, t: Tables,
                    ghost goal: Goal, ghost pending: BitString, ghost rest: BitString)
    returns (res: Outcome, r: nat, ghost pending': BitString)
    requires t.Shaped() && 1 <= k < 64
    requires state.Heading(goal, pending, t.AllBits(AcTokens(ToZigzag(block), k, r0)) + rest)
    modifies state`next, state`free, state`putBuffer, state`putBits, state.dest, state.dest.buffer
    ensures state.Stepped(res, goal.slack)
    ensures var z := ToZigzag(block);
            && (res.Failed? ==> Explains(res.error, NBits(Abs(z[k])) <= MAX_COEF_BITS, t.HasAll(AcTokens(z, k, r0))))
            && (res.Done? ==> NBits(Abs(z[k])) <= MAX_COEF_BITS &&
                              (t.HasAll(AcTokens(z, k, r0)) <==> t.HasAll(AcTokens(z, k + 1, r))) &&
                              state.Heading(goal, pending', t.AllBits(AcTokens(z, k + 1, r)) + rest))
  {
    ghost var z := ToZigzag(block);
    OrdersInverse(k);
    var temp := block[NaturalOrder(k)];
    assert temp == z[k];
    if temp == 0 {
      return Done, r0 + 1, pending;
    }
    r := 0;
    AcRemaining(t, z, k, r0, rest);
    res, pending' := EncodeCoefficient(state, r0, temp, t, goal, pending, t.AllBits(AcTokens(z, k + 1, 0)) + rest);
  }

  lemma InRangeFrom(z: Block, k: nat)
    requires k < 64
    ensures AcInRange(z, k) <==> NBits(Abs(z[k])) <= MAX_COEF_BITS && AcInRange(z, k + 1)
  {
  }

  /** All 63 positions; r zeros are left at the end. */
  method EncodeAllAc(state: WorkingState, block: Block, t: Tables,
                     ghost goal: Goal, ghost pending: BitString, ghost rest: BitString)
    returns (res: Outcome, r: nat, ghost pending': BitString)
    requires t.Shaped()
    requires state.Heading(goal, pending, t.AllBits(AcTokens(ToZigzag(block), 1, 0)) + rest)
    modifies state`next, state`free, state`putBuffer, state`putBits, state.dest, state.dest.buffer
    ensures state.Stepped(res, goal.slack)
    ensures res.Failed? ==> Explains(res.error, AcInRange(ToZigzag(block), 1), t.HasAll(AcTokens(ToZigzag(block), 1, 0)))
    ensures res.Done? ==> AcInRange(ToZigzag(block), 1)
    ensures res.Done? ==> (t.HasAll(AcTokens(ToZigzag(block), 1, 0)) <==> t.HasAll(AcTokens(ToZigzag(block), 64, r)))
    ensures res.Done? ==> state.Heading(goal, pending', t.AllBits(AcTokens(ToZigzag(block), 64, r)) + rest)
  {
    ghost var z := ToZigzag(block);
    res, r, pending' := Done, 0, pending;
    for k := 1 to 64
      invariant res == Done && state.Stepped(Done, goal.slack)
      invariant AcInRange(z, 1) <==> AcInRange(z, k)
      invariant t.HasAll(AcTokens(z, 1, 0)) <==> t.HasAll(AcTokens(z, k, r))
      invariant state.Heading(goal, pending', t.AllBits(AcTokens(z, k, r)) + rest)
    {
      InRangeFrom(z, k);
      res, r, pending' := EncodeAcAt(state, block, k, r, t, goal, pending', rest);
      if !res.Done? {
        return;
      }
    }
  }

  /** The AC coefficients, section F.1.2.2. */
  method EncodeAc(state: WorkingState, block: Block, t: Tables,
                  ghost goal: Goal, ghost pending: BitString, ghost rest: BitString)
    returns (res: Outcome, ghost pending': BitString)
    requires t.Shaped()
    requires state.Heading(goal, pending, t.AllBits(AcTokens(ToZigzag(block), 1, 0)) + rest)
    modifies state`next, state`free, state`putBuffer, state`putBits, state.dest, state.dest.buffer
    ensures state.Stepped(res, goal.slack)
    ensures res.Failed? ==> Explains(res.error, AcInRange(ToZigzag(block), 1), t.HasAll(AcTokens(ToZigzag(block), 1, 0)))
    ensures res.Done? ==> AcInRange(ToZigzag(block), 1) && t.HasAll(AcTokens(ToZigzag(block), 1, 0))
    ensures res.Done? ==> state.Heading(goal, pending', rest)
  {
    var r;
    res, r, pending' := EncodeAllAc(state, block, t, goal, pending, rest);
    if res.Done? {
      EndOfBlock(t, ToZigzag(block), r, rest);
      if r > 0 {
        res, pending' := EmitToken(state, t.acCodes, 0, 0, 0, false, goal, pending', rest);
      }
    }
  }

  lemma EndOfBlock(t: Tables, z: Block, r: nat, rest: BitString)
    requires t.Shaped()
    ensures r > 0 ==> t.AllBits(AcTokens(z, 64, r)) + rest == t.acCodes.Code(0) + BitsOf(0, 0) + rest
    ensures r > 0 ==> (t.HasAll(AcTokens(z, 64, r)) <==> t.acCodes.Has(0))
    ensures r == 0 ==> t.AllBits(AcTokens(z, 64, r)) + rest == rest && t.HasAll(AcTokens(z, 64, r))
  {
    if r > 0 {
      assert t.HasAll([EOB]) <==> t.Has([EOB][0]);
    }
  }

  lemma BlockHas(t: Tables, block: Block, lastDcVal: int)
    requires t.Shaped()
    ensures t.HasAll(BlockTokens(block, lastDcVal)) <==> t.Has(DcToken(block[0] - lastDcVal)) && t.HasAll(AcTokens(ToZigzag(block), 1, 0))
    ensures InRange(block, lastDcVal) <==> NBits(Abs(block[0] - lastDcVal)) <= MAX_COEF_BITS + 1 && AcInRange(ToZigzag(block), 1)
  {
    var dc := DcToken(block[0] - lastDcVal);
    HasAllConcat(t, [dc], AcTokens(ToZigzag(block), 1, 0));
    assert t.HasAll([dc]) <==> t.Has([dc][0]);
  }

  method EncodeOneBlock(state: WorkingState, block: Block, lastDcVal: int, t: Tables,
                        ghost goal: Goal, ghost pending: BitString, ghost rest: BitString)
    returns (res: Outcome, ghost pending': BitString)
    requires t.Shaped()
    requires state.Heading(goal, pending, t.AllBits(BlockTokens(block, lastDcVal)) + rest)
    modifies state`next, state`free, state`putBuffer, state`putBits, state.dest, state.dest.buffer
    ensures state.Stepped(res, goal.slack)
    ensures res.Failed? ==> Explains(res.error, InRange(block, lastDcVal), t.HasAll(BlockTokens(block, lastDcVal)))
    ensures res.Done? ==> Encodable(t, block, lastDcVal) && state.Heading(goal, pending', rest)
  {
    BlockBits(t, block, lastDcVal, rest);
    BlockHas(t, block, lastDcVal);
    res, pending' := EncodeDc(state, block[0] - lastDcVal, t, goal, pending, t.AllBits(AcTokens(ToZigzag(block), 1, 0)) + rest);
    if !res.Done? {
      return;
    }
    res, pending' := EncodeAc(state, block, t, goal, pending', rest);
  }

  // ---------------------------------------------------------------- statistics

  /** How often symbol s of the DC or the AC table occurs. */
  function Tally(ks: seq<Token>, isDC: bool, s: nat): nat
  {
    if ks == [] then 0
    else (if ks[0].isDC == isDC && ks[0].symbol == s then 1 else 0) + Tally(ks[1..], isDC, s)
  }

  lemma {:induction false} TallyConcat(a: seq<Token>, b: seq<Token>, isDC: bool, s: nat)
    ensures Tally(a + b, isDC, s) == Tally(a, isDC, s) + Tally(b, isDC, s)
  {
    if a == [] {
      assert a + b == b;
    } else {
      TallyConcat(a[1..], b, isDC, s);
      assert (a + b)[1..] == a[1..] + b;
    }
  }

  lemma {:induction false} TallyZeroRuns(n: nat, isDC: bool, s: nat)
    ensures Tally(ZeroRuns(n), isDC, s) == if !isDC && s == 0xF0 then n else 0
  {
    if n > 0 {
      assert ZeroRuns(n)[1..] == ZeroRuns(n - 1);
      TallyZeroRuns(n - 1, isDC, s);
    }
  }

  /** counts is base with every AC symbol of ks counted once per occurrence. */
  ghost predicate Counted(counts: seq<nat>, base: seq<nat>, ks: seq<Token>, isDC: bool)
  {
    |counts| == |base| == 257 &&
    forall s :: 0 <= s < 257 ==> counts[s] == base[s] + Tally(ks, isDC, s)
  }

  lemma TallyCoefficient(z: Block, k: nat, r: nat, s: nat)
    requires k < 64 && z[k] != 0
    ensures Tally(AcTokens(z, k, r), false, s)
            == (if s == 0xF0 then r / 16 else 0) + (if s == r % 16 * 16 + NBits(Abs(z[k])) then 1 else 0)
               + Tally(AcTokens(z, k + 1, 0), false, s)
  {
    var zeros, c, others := ZeroRuns(r / 16), AcToken(r % 16, z[k]), AcTokens(z, k + 1, 0);
    TallyConcat(zeros + [c], others, false, s);
    TallyConcat(zeros, [c], false, s);
    TallyZeroRuns(r / 16, false, s);
    assert Tally([c], false, s) == (if c.symbol == s then 1 else 0) + Tally([], false, s);
  }

  method CountZeroRuns(run: nat, acCounts: array<nat>) returns (r: nat)
    requires acCounts.Length == 257
    modifies acCounts
    ensures r == run % 16
    ensures forall s :: 0 <= s < 257 ==> acCounts[s] == old(acCounts[s]) + if s == 0xF0 then run / 16 else 0
  {
    r := run;
    ghost var n: nat := 0;
    while r > 15
      invariant run == 16 * n + r
      invariant forall s :: 0 <= s < 257 ==> acCounts[s] == old(acCounts[s]) + if s == 0xF0 then n else 0
    {
      acCounts[0xF0] := acCounts[0xF0] + 1;
      r, n := r - 16, n + 1;
    }
  }

  /** Counting the symbols of one nonzero coefficient. */
  method CountCoefficient(run: nat, v: int, acCounts: array<nat>) returns (res: Outcome)
    requires acCounts.Length == 257 && v != 0
    modifies acCounts
    ensures res == if NBits(Abs(v)) <= MAX_COEF_BITS then Done else Failed(BadDctCoef)
    ensures res.Done? ==>
              forall s :: 0 <= s < 257 ==>
                acCounts[s] == old(acCounts[s]) + (if s == 0xF0 then run / 16 else 0)
                               + (if s == run % 16 * 16 + NBits(Abs(v)) then 1 else 0)
  {
    var r := CountZeroRuns(run, acCounts);
    var temp := v;
    if temp < 0 { temp := -temp; }
    var nbits := CountBitsNonzero(temp);
    if nbits > MAX_COEF_BITS {
      return Failed(BadDctCoef);
    }
    acCounts[r * 16 + nbits] := acCounts[r * 16 + nbits] + 1;
    res := Done;
  }

  /** What is counted and what is still to come makes the same total at two places of the AC loop. */
  ghost predicate SameTotal(z: Block, counts: seq<nat>, k: nat, r: nat, counts0: seq<nat>, k0: nat, r0: nat)
    requires k <= 64 && k0 <= 64
  {
    |counts| == |counts0| == 257 &&
    forall s :: 0 <= s < 257 ==> counts[s] + Tally(AcTokens(z, k, r), false, s) == counts0[s] + Tally(AcTokens(z, k0, r0), false, s)
  }

  lemma CountedEob(z: Block, r: nat)
    ensures forall s :: Tally(AcTokens(z, 64, r), false, s) == if r > 0 && s == 0 then 1 else 0
  {
    assert [EOB][1..] == [];
  }

  /** One position of the AC loop: another zero, or a run and a coefficient. */
  method CountAcAt(block: Block, k: nat, r0: nat, acCounts: array<nat>) returns (res: Outcome, r: nat)
    requires acCounts.Length == 257 && r0 < k < 64
    modifies acCounts
    ensures res == if NBits(Abs(ToZigzag(block)[k])) <= MAX_COEF_BITS then Done else Failed(BadDctCoef)
    ensures res.Done? ==> r <= k && SameTotal(ToZigzag(block), acCounts[..], k + 1, r, old(acCounts[..]), k, r0)
  {
    ghost var z := ToZigzag(block);
    OrdersInverse(k);
    var temp := block[NaturalOrder(k)];
    assert temp == z[k];
    if temp == 0 {
      return Done, r0 + 1;
    }
    r := 0;
    res := CountCoefficient(r0, temp, acCounts);
    if res.Done? {
      forall s | 0 <= s < 257
        ensures acCounts[s] + Tally(AcTokens(z, k + 1, 0), false, s) == old(acCounts[..])[s] + Tally(AcTokens(z, k, r0), false, s)
      {
        TallyCoefficient(z, k, r0, s);
      }
    }
  }

  method CountAc(block: Block, acCounts: array<nat>) returns (res: Outcome)
    requires acCounts.Length == 257
    modifies acCounts
    ensures res == if AcInRange(ToZigzag(block), 1) then Done else Failed(BadDctCoef)
    ensures res.Done? ==> Counted(acCounts[..], old(acCounts[..]), AcTokens(ToZigzag(block), 1, 0), false)
  {
    ghost var z, base := ToZigzag(block), acCounts[..];
    var r := 0;
    for k := 1 to 64
      invariant r < k && (AcInRange(z, 1) <==> AcInRange(z, k))
      invariant SameTotal(z, acCounts[..], k, r, base, 1, 0)
    {
      InRangeFrom(z, k);
      res, r := CountAcAt(block, k, r, acCounts);
      if !res.Done? {
        return;
      }
    }
    if r > 0 {
      acCounts[0] := acCounts[0] + 1;
    }
    CountedEob(z, r);
    res := Done;
  }

  /** Counts exactly the symbols EncodeOneBlock would emit, and fails exactly when the range check does. */
  method HtestOneBlock(block: Block, lastDcVal: int, dcCounts: array<nat>, acCounts: array<nat>) returns (res: Outcome)
    requires dcCounts.Length == 257 && acCounts.Length == 257 && dcCounts != acCounts
    modifies dcCounts, acCounts
    ensures res == if InRange(block, lastDcVal) then Done else Failed(BadDctCoef)
    ensures res.Done? ==> Counted(dcCounts[..], old(dcCounts[..]), BlockTokens(block, lastDcVal), true)
    ensures res.Done? ==> Counted(acCounts[..], old(acCounts[..]), BlockTokens(block, lastDcVal), false)
  {
    var temp := block[0] - lastDcVal;
    if temp < 0 { temp := -temp; }
    var nbits := CountBits(temp);
    if nbits > MAX_COEF_BITS + 1 {
      return Failed(BadDctCoef);
    }
    ghost var dcBase, acBase := dcCounts[..], acCounts[..];
    dcCounts[nbits] := dcCounts[nbits] + 1;
    res := CountAc(block, acCounts);
    if res.Done? {
      forall s: nat | s < 257
        ensures dcCounts[s] == dcBase[s] + Tally(BlockTokens(block, lastDcVal), true, s)
        ensures acCounts[s] == acBase[s] + Tally(BlockTokens(block, lastDcVal), false, s)
      {
        TallyBlock(block, lastDcVal, s);
      }
    }
  }

  lemma {:induction false} NoDcAmongAc(z: Block, k: nat, r: nat, s: nat)
    requires k <= 64
    ensures Tally(AcTokens(z, k, r), true, s) == 0
    decreases 64 - k
  {
    if k < 64 {
      if z[k] == 0 {
        NoDcAmongAc(z, k + 1, r + 1, s);
      } else {
        var zeros, c, others := ZeroRuns(r / 16), AcToken(r % 16, z[k]), AcTokens(z, k + 1, 0);
        TallyConcat(zeros + [c], others, true, s);
        TallyConcat(zeros, [c], true, s);
        TallyZeroRuns(r / 16, true, s);
        assert Tally([c], true, s) == Tally([], true, s);
        NoDcAmongAc(z, k + 1, 0, s);
      }
    }
  }

  lemma TallyBlock(b: Block, lastDc: int, s: nat)
    ensures Tally(BlockTokens(b, lastDc), true, s) == if s == NBits(Abs(b[0] - lastDc)) then 1 else 0
    ensures Tally(BlockTokens(b, lastDc), false, s) == Tally(AcTokens(ToZigzag(b), 1, 0), false, s)
  {
    var dc, ac := DcToken(b[0] - lastDc), AcTokens(ToZigzag(b), 1, 0);
    NoDcAmongAc(ToZigzag(b), 1, 0, s);
    assert ([dc] + ac)[1..] == ac;
  }
}
