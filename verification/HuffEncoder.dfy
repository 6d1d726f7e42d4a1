/**
 encode_mcu_huff and its helpers: an MCU is written completely or, under suspension, not
 at all, and what accumulates in the destination is the scan of ScanModel.
 */
module HuffEncoder {
  import opened Bits
  import opened Stuffing
  import opened BitWriter
  import opened BlockCoder
  import opened ScanModel

  /** The encoder between MCUs: bits not yet sent, DC predictions, restart counters. */
  datatype Saved = Saved(pending: BitString, dc: seq<int>, togo: nat, num: nat)
  {
    predicate Fits(scan: Scan)
    {
      |pending| <= 7 && |dc| == |scan.dcTbl| && num < 8
    }
  }

  function Initial(scan: Scan): Saved
  {
    Saved([], scan.Zeros(), scan.restartInterval, 0)
  }

  /** After the restart marker due before the next MCU, if any. */
  function Restarted(scan: Scan, s: Saved): Saved
    requires s.Fits(scan)
  {
    if RestartDue(scan, s.togo) then Saved([], scan.Zeros(), scan.restartInterval, (s.num + 1) % 8) else s
  }

  function RestartBytes(scan: Scan, s: Saved): seq<Byte>
    requires s.Fits(scan)
  {
    if RestartDue(scan, s.togo) then Pack(s.pending + Ones(7)) + RestartMarker(s.num) else []
  }

  /** The state after an MCU has been written. */
  function AfterMcu(scan: Scan, ts: TableSet, s: Saved, mcu: Mcu): (s': Saved)
    requires ts.Shaped() && scan.Valid() && |mcu| == |scan.membership| && s.Fits(scan)
    ensures s'.Fits(scan)
  {
    var r := Restarted(scan, s);
    Saved(Leftover(r.pending + McuBits(scan, ts, mcu, r.dc, 0)), DcAfter(scan, mcu, r.dc, 0), TogoAfter(scan, r.togo), r.num)
  }

  /** The bytes an MCU adds to the stream. */
  function Emitted(scan: Scan, ts: TableSet, s: Saved, mcu: Mcu): seq<Byte>
    requires ts.Shaped() && scan.Valid() && |mcu| == |scan.membership| && s.Fits(scan)
  {
    var r := Restarted(scan, s);
    RestartBytes(scan, s) + Pack(r.pending + McuBits(scan, ts, mcu, r.dc, 0))
  }

  predicate NextEncodable(scan: Scan, ts: TableSet, s: Saved, mcu: Mcu)
    requires ts.Shaped() && scan.Valid() && |mcu| == |scan.membership| && s.Fits(scan)
  {
    McuEncodable(scan, ts, mcu, Restarted(scan, s).dc, 0)
  }

  method FlushBits(state: WorkingState, ghost pending: BitString) returns (ok: bool)
    requires state.Valid() && state.Clean(pending)
    modifies state`next, state`free, state`putBuffer, state`putBits, state.dest, state.dest.buffer
    ensures state.Wrote(ok, Pack(pending + Ones(7))) && state.lastDc == old(state.lastDc)
    ensures ok ==> state.Clean([])
  {
    var code: nat, size: nat := 0x7F, 7;
    assert BitsOf(code, size) == Ones(7) by { SevenOnes(); }
    var r := state.EmitBits(code, size, pending);
    ok := r.Done?;
    if ok {
      state.putBuffer := 0;
      state.putBits := 0;
      HoldsNothing();
    }
  }

  lemma HoldsNothing()
    ensures Holds(0, [])
  {
  }

  lemma SevenOnes()
    ensures BitsOf(0x7F, 7) == Ones(7)
  {
    OnesVal(7);
    BitsVal(Ones(7));
    assert Pow2(7) == 128;
  }

  /** Flush, write the marker, and clear the DC predictions. */
  method EmitRestart(state: WorkingState, scan: Scan, restartNum: nat, ghost pending: BitString) returns (ok: bool)
    requires restartNum < 8 && state.Valid() && state.Clean(pending)
    modifies state, state.dest, state.dest.buffer
    ensures state.Wrote(ok, Pack(pending + Ones(7)) + RestartMarker(restartNum))
    ensures ok ==> state.Clean([]) && state.lastDc == scan.Zeros()
  {
    ok := FlushBits(state, pending);
    if !ok { return; }
    ok := EmitMarker(state, restartNum);
    if !ok { return; }
    state.lastDc := scan.Zeros();
  }

  method EmitMarker(state: WorkingState, restartNum: nat) returns (ok: bool)
    requires restartNum < 8 && state.Valid()
    modifies state`next, state`free, state.dest, state.dest.buffer
    ensures state.Wrote(ok, RestartMarker(restartNum))
  {
    ok := state.EmitByte(0xFF);
    if ok {
      ok := state.EmitByte(0xD0 + restartNum);
    }
  }

  /** One block of the MCU, with the prediction of its component. */
  method EncodeBlockAt(state: WorkingState, scan: Scan, ts: TableSet, mcu: Mcu, blkn: nat,
                       ghost goal: Goal, ghost pending: BitString)
    returns (res: Outcome, ghost pending': BitString)
    requires ts.Shaped() && scan.Valid() && |mcu| == |scan.membership| && |state.lastDc| == |scan.dcTbl| && blkn < |mcu|
    requires state.Heading(goal, pending, McuBits(scan, ts, mcu, state.lastDc, blkn))
    modifies state, state.dest, state.dest.buffer
    ensures state.Uncommitted()
    ensures res.Suspended? ==> !state.dest.accepts && goal.slack <= 0
    ensures res.Failed? ==>
              Explains(res.error, McuInRange(scan, mcu, old(state.lastDc), blkn), McuCovered(scan, ts, mcu, old(state.lastDc), blkn))
    ensures |state.lastDc| == |scan.dcTbl|
    ensures res.Done? ==>
              (McuInRange(scan, mcu, old(state.lastDc), blkn) <==> McuInRange(scan, mcu, state.lastDc, blkn + 1)) &&
              (McuCovered(scan, ts, mcu, old(state.lastDc), blkn) <==> McuCovered(scan, ts, mcu, state.lastDc, blkn + 1)) &&
              state.Heading(goal, pending', McuBits(scan, ts, mcu, state.lastDc, blkn + 1)) &&
              DcAfter(scan, mcu, old(state.lastDc), blkn) == DcAfter(scan, mcu, state.lastDc, blkn + 1)
  {
    var ci := scan.membership[blkn];
    ghost var dc' := state.lastDc[ci := mcu[blkn][0]];
    res, pending' := EncodeOneBlock(state, mcu[blkn], state.lastDc[ci], ts.For(scan, ci), goal, pending,
                                    McuBits(scan, ts, mcu, dc', blkn + 1));
    if res.Done? {
      state.lastDc := state.lastDc[ci := mcu[blkn][0]];
    }
  }

  /** The blocks of the MCU in turn. */
  method EncodeBlocks(state: WorkingState, scan: Scan, ts: TableSet, mcu: Mcu, ghost goal: Goal, ghost pending: BitString)
    returns (res: Outcome, ghost pending': BitString)
    requires ts.Shaped() && scan.Valid() && |mcu| == |scan.membership| && |state.lastDc| == |scan.dcTbl|
    requires state.Heading(goal, pending, McuBits(scan, ts, mcu, state.lastDc, 0))
    modifies state, state.dest, state.dest.buffer
    ensures state.Uncommitted()
    ensures res.Suspended? ==> !state.dest.accepts && goal.slack <= 0
    ensures res.Failed? ==>
              Explains(res.error, McuInRange(scan, mcu, old(state.lastDc), 0), McuCovered(scan, ts, mcu, old(state.lastDc), 0))
    ensures res.Done? ==> McuEncodable(scan, ts, mcu, old(state.lastDc), 0) && state.Heading(goal, pending', [])
    ensures res.Done? ==> state.lastDc == DcAfter(scan, mcu, old(state.lastDc), 0)
  {
    ghost var dc0 := state.lastDc;
    res, pending' := Done, pending;
    var blkn := 0;
    while blkn < |scan.membership|
      invariant res == Done && blkn <= |mcu| && |state.lastDc| == |scan.dcTbl| && state.Uncommitted()
      invariant DcAfter(scan, mcu, dc0, 0) == DcAfter(scan, mcu, state.lastDc, blkn)
      invariant McuInRange(scan, mcu, dc0, 0) <==> McuInRange(scan, mcu, state.lastDc, blkn)
      invariant McuCovered(scan, ts, mcu, dc0, 0) <==> McuCovered(scan, ts, mcu, state.lastDc, blkn)
      invariant state.Heading(goal, pending', McuBits(scan, ts, mcu, state.lastDc, blkn))
    {
      res, pending' := EncodeBlockAt(state, scan, ts, mcu, blkn, goal, pending');
      if !res.Done? {
        return;
      }
      blkn := blkn + 1;
    }
    EncodableIff(scan, ts, mcu, dc0, 0);
  }

  class Encoder {
    const scan: Scan
    const ts: TableSet
    var putBuffer: nat
    var putBits: nat
    var lastDc: seq<int>
    var restartsToGo: nat
    var nextRestartNum: nat
    ghost var pending: BitString

    constructor (scan: Scan, ts: TableSet)
      requires ts.Shaped() && scan.Valid()
      ensures this.scan == scan && this.ts == ts && Valid() && State() == Initial(scan)
    {
      this.scan, this.ts := scan, ts;
      putBuffer, putBits, pending := 0, 0, [];
      lastDc := scan.Zeros();
      restartsToGo := scan.restartInterval;
      nextRestartNum := 0;
    }

    ghost predicate Valid()
      reads this
    {
      ts.Shaped() && scan.Valid() && State().Fits(scan) && |pending| == putBits && Holds(putBuffer, pending)
    }

    /** The saved state, with the accumulator read as bits. */
    ghost function State(): Saved
      reads this
    {
      Saved(pending, lastDc, restartsToGo, nextRestartNum)
    }

    /**
     One MCU.  Suspended or failed, nothing the encoder or a refusing destination keeps has
     changed; done, the bytes of exactly this MCU have been added.  An MCU that passes the
     checks is refused only by a destination without room for all of its bytes.
     */
    method EncodeMcu(dest: Destination, mcu: Mcu) returns (r: Outcome)
      requires Valid() && dest.Valid() && |mcu| == |scan.membership|
      modifies this, dest, dest.buffer
      ensures Valid() && dest.buffer == old(dest.buffer) && dest.accepts == old(dest.accepts)
      ensures !r.Done? ==> State() == old(State())
      ensures !r.Done? && !dest.accepts ==>
                dest.Valid() && dest.Stream() == old(dest.Stream()) && dest.nextOut == old(dest.nextOut) && dest.free == old(dest.free)
      ensures r.Done? ==> NextEncodable(scan, ts, old(State()), mcu)
      ensures r.Done? ==> State() == AfterMcu(scan, ts, old(State()), mcu)
      ensures r.Done? ==> dest.Valid() && dest.Stream() == old(dest.Stream()) + Emitted(scan, ts, old(State()), mcu)
      ensures r.Failed? ==> var dc := Restarted(scan, old(State())).dc; Explains(r.error, McuInRange(scan, mcu, dc, 0), McuCovered(scan, ts, mcu, dc, 0))
      ensures r.Failed? ==> !NextEncodable(scan, ts, old(State()), mcu)
      ensures r.Suspended? ==> !dest.accepts
      ensures NextEncodable(scan, ts, old(State()), mcu) ==>
                (r.Done? <==> dest.accepts || |Emitted(scan, ts, old(State()), mcu)| < old(dest.free))
    {
      var state := new WorkingState(dest, putBuffer, putBits, lastDc);
      ghost var s, out := State(), Emitted(scan, ts, State(), mcu);
      ghost var goal := Goal(state.Stream() + out, state.free - |out|, AfterMcu(scan, ts, s, mcu).pending);
      assert state.Stream() == dest.Stream();
      var ok;
      ghost var pend;
      ok, pend := RestartIfDue(state, mcu, goal);
      if !ok {
        return Suspended;
      }
      EncodableIff(scan, ts, mcu, state.lastDc, 0);
      r, pend := EncodeBlocks(state, scan, ts, mcu, goal, pend);
      if !r.Done? {
        return;
      }
      assert Leftover(pend + []) == pend && state.Stream() + Pack(pend + []) == state.Stream();
      Commit(state, pend);
    }

    /** Take over the working state. */
    method Keep(state: WorkingState, ghost pend: BitString)
      requires Valid() && state.Valid() && state.Clean(pend) && |state.lastDc| == |scan.dcTbl|
      modifies this`putBuffer, this`putBits, this`lastDc, this`pending, state.dest`nextOut, state.dest`free
      ensures Valid() && state.dest.Valid() && state.dest.Stream() == old(state.Stream())
      ensures State() == old(State()).(pending := pend, dc := state.lastDc)
    {
      state.dest.nextOut := state.next;
      state.dest.free := state.free;
      putBuffer, putBits, lastDc, pending := state.putBuffer, state.putBits, state.lastDc, pend;
    }

    /** Keep what an MCU has changed, and step the restart counters. */
    method Commit(state: WorkingState, ghost pend: BitString)
      requires Valid() && state.Valid() && state.Clean(pend) && |state.lastDc| == |scan.dcTbl|
      modifies this, state.dest`nextOut, state.dest`free
      ensures Valid() && state.dest.Valid() && state.dest.Stream() == old(state.Stream())
      ensures var r := Restarted(scan, old(State()));
              State() == Saved(pend, old(state.lastDc), TogoAfter(scan, r.togo), r.num)
    {
      Keep(state, pend);
      if scan.restartInterval != 0 {
        if restartsToGo == 0 {
          restartsToGo := scan.restartInterval;
          nextRestartNum := (nextRestartNum + 1) % 8;
        }
        restartsToGo := restartsToGo - 1;
      }
    }

    /** The restart marker in front of an MCU, if one is due. */
    method RestartIfDue(state: WorkingState, mcu: Mcu, ghost goal: Goal) returns (ok: bool, ghost pend: BitString)
      requires Valid() && |mcu| == |scan.membership| && state.Valid() && state.Clean(pending) && state.lastDc == lastDc
      requires var out := Emitted(scan, ts, State(), mcu);
               goal == Goal(state.Stream() + out, state.free - |out|, AfterMcu(scan, ts, State(), mcu).pending)
      modifies state, state.dest, state.dest.buffer
      ensures state.Uncommitted()
      ensures !ok ==> !state.dest.accepts && goal.slack <= 0
      ensures ok ==> state.lastDc == Restarted(scan, State()).dc
      ensures ok ==> state.Heading(goal, pend, McuBits(scan, ts, mcu, state.lastDc, 0))
    {
      ok, pend := true, pending;
      if scan.restartInterval != 0 && restartsToGo == 0 {
        ok := RestartNow(state, mcu, goal);
        pend := [];
      } else {
        ghost var data := Pack(pending + McuBits(scan, ts, mcu, lastDc, 0));
        assert [] + data == data;
      }
    }

    method RestartNow(state: WorkingState, mcu: Mcu, ghost goal: Goal) returns (ok: bool)
      requires Valid() && |mcu| == |scan.membership| && state.Valid() && state.Clean(pending) && RestartDue(scan, restartsToGo)
      requires var out := Emitted(scan, ts, State(), mcu);
               goal == Goal(state.Stream() + out, state.free - |out|, AfterMcu(scan, ts, State(), mcu).pending)
      modifies state, state.dest, state.dest.buffer
      ensures state.Uncommitted()
      ensures !ok ==> !state.dest.accepts && goal.slack <= 0
      ensures ok ==> state.lastDc == scan.Zeros() && state.Heading(goal, [], McuBits(scan, ts, mcu, scan.Zeros(), 0))
    {
      ghost var data := Pack([] + McuBits(scan, ts, mcu, scan.Zeros(), 0));
      Associative(state.Stream(), RestartBytes(scan, State()), data);
      ok := EmitRestart(state, scan, nextRestartNum, pending);
    }

    /** finish_pass_huff: fill the last byte with ones; this step cannot suspend. */
    method FinishPass(dest: Destination) returns (r: Outcome)
      requires Valid() && dest.Valid()
      modifies this, dest, dest.buffer
      ensures r == if dest.accepts || |Padding(old(State()))| < old(dest.free) then Done else Failed(CannotSuspend)
      ensures dest.buffer == old(dest.buffer) && dest.accepts == old(dest.accepts)
      ensures r.Done? ==> Valid() && dest.Valid() && State() == old(State()).(pending := [])
      ensures r.Done? ==> dest.Stream() == old(dest.Stream()) + Padding(old(State()))
    {
      var state := new WorkingState(dest, putBuffer, putBits, lastDc);
      assert state.Stream() == dest.Stream();
      var ok := FlushBits(state, pending);
      if !ok {
        return Failed(CannotSuspend);
      }
      Keep(state, []);
      r := Done;
    }
  }

  /** The bytes that complete a scan. */
  function Padding(s: Saved): seq<Byte>
  {
    Pack(s.pending + Ones(7))
  }

  // ---------------------------------------------------------------- runs

  function StateAfter(scan: Scan, ts: TableSet, s: Saved, mcus: seq<Mcu>): (r: Saved)
    requires ts.Shaped() && scan.Valid() && Mcus(scan, mcus) && s.Fits(scan)
    ensures r.Fits(scan)
    decreases |mcus|
  {
    if mcus == [] then s else StateAfter(scan, ts, AfterMcu(scan, ts, s, mcus[0]), mcus[1..])
  }

  function BytesOf(scan: Scan, ts: TableSet, s: Saved, mcus: seq<Mcu>): seq<Byte>
    requires ts.Shaped() && scan.Valid() && Mcus(scan, mcus) && s.Fits(scan)
    decreases |mcus|
  {
    if mcus == [] then []
    else Emitted(scan, ts, s, mcus[0]) + BytesOf(scan, ts, AfterMcu(scan, ts, s, mcus[0]), mcus[1..])
  }

  lemma {:induction false} RunExtend(scan: Scan, ts: TableSet, s: Saved, mcus: seq<Mcu>, mcu: Mcu)
    requires ts.Shaped() && scan.Valid() && Mcus(scan, mcus) && |mcu| == |scan.membership| && s.Fits(scan)
    ensures StateAfter(scan, ts, s, mcus + [mcu]) == AfterMcu(scan, ts, StateAfter(scan, ts, s, mcus), mcu)
    ensures BytesOf(scan, ts, s, mcus + [mcu])
            == BytesOf(scan, ts, s, mcus) + Emitted(scan, ts, StateAfter(scan, ts, s, mcus), mcu)
    decreases |mcus|
  {
    if mcus == [] {
      assert [mcu][1..] == [] && [] + [mcu] == [mcu];
      assert BytesOf(scan, ts, AfterMcu(scan, ts, s, mcu), []) == [];
    } else {
      var s', rest := AfterMcu(scan, ts, s, mcus[0]), mcus[1..];
      RunExtend(scan, ts, s', rest, mcu);
      FirstOfRun(scan, ts, s, mcus);
      FirstOfRun(scan, ts, s, mcus + [mcu]);
      assert (mcus + [mcu])[1..] == rest + [mcu];
      Associative(Emitted(scan, ts, s, mcus[0]), BytesOf(scan, ts, s', rest), Emitted(scan, ts, StateAfter(scan, ts, s', rest), mcu));
    }
  }

  lemma FirstOfRun(scan: Scan, ts: TableSet, s: Saved, mcus: seq<Mcu>)
    requires ts.Shaped() && scan.Valid() && Mcus(scan, mcus) && s.Fits(scan) && mcus != []
    ensures var s' := AfterMcu(scan, ts, s, mcus[0]);
            StateAfter(scan, ts, s, mcus) == StateAfter(scan, ts, s', mcus[1..]) &&
            BytesOf(scan, ts, s, mcus) == Emitted(scan, ts, s, mcus[0]) + BytesOf(scan, ts, s', mcus[1..])
  {
  }

  lemma LastEncodable(scan: Scan, ts: TableSet, mcu: Mcu, dc: seq<int>, togo: nat)
    requires ts.Shaped() && scan.Valid() && |mcu| == |scan.membership| && |dc| == |scan.dcTbl| && !RestartDue(scan, togo)
    ensures Mcus(scan, [mcu])
    ensures ScanEncodable(scan, ts, [mcu], dc, togo) == McuEncodable(scan, ts, mcu, dc, 0)
  {
    assert [mcu][1..] == [];
  }

  /** A run can be extended by exactly the MCUs the encoder would accept next. */
  lemma {:induction false} EncodableExtend(scan: Scan, ts: TableSet, s: Saved, mcus: seq<Mcu>, mcu: Mcu)
    requires ts.Shaped() && scan.Valid() && Mcus(scan, mcus) && |mcu| == |scan.membership| && s.Fits(scan)
    ensures ScanEncodable(scan, ts, mcus + [mcu], s.dc, s.togo)
            <==> ScanEncodable(scan, ts, mcus, s.dc, s.togo) && NextEncodable(scan, ts, StateAfter(scan, ts, s, mcus), mcu)
    decreases |mcus|, if s.togo == 0 then 1 else 0
  {
    if mcus == [] {
      assert [] + [mcu] == [mcu];
      var r := Restarted(scan, s);
      LastEncodable(scan, ts, mcu, r.dc, r.togo);
    } else if RestartDue(scan, s.togo) {
      AfterRestart(scan, ts, s, mcus);
      EncodableExtend(scan, ts, Restarted(scan, s), mcus, mcu);
    } else {
      assert (mcus + [mcu])[1..] == mcus[1..] + [mcu] && (mcus + [mcu])[0] == mcus[0];
      EncodableExtend(scan, ts, AfterMcu(scan, ts, s, mcus[0]), mcus[1..], mcu);
    }
  }

  lemma AfterRestart(scan: Scan, ts: TableSet, s: Saved, mcus: seq<Mcu>)
    requires ts.Shaped() && scan.Valid() && Mcus(scan, mcus) && s.Fits(scan) && mcus != [] && RestartDue(scan, s.togo)
    ensures Restarted(scan, s).Fits(scan)
    ensures BytesOf(scan, ts, s, mcus) == RestartBytes(scan, s) + BytesOf(scan, ts, Restarted(scan, s), mcus)
    ensures StateAfter(scan, ts, s, mcus) == StateAfter(scan, ts, Restarted(scan, s), mcus)
  {
    var r := Restarted(scan, s);
    assert AfterMcu(scan, ts, s, mcus[0]) == AfterMcu(scan, ts, r, mcus[0]);
    var data := Pack(r.pending + McuBits(scan, ts, mcus[0], r.dc, 0));
    assert Emitted(scan, ts, r, mcus[0]) == data by { assert [] + data == data; }
    Associative(RestartBytes(scan, s), data, BytesOf(scan, ts, AfterMcu(scan, ts, r, mcus[0]), mcus[1..]));
  }

  /** A run and its padding are the intervals of the scan from here on. */
  predicate LaidOut(scan: Scan, ts: TableSet, s: Saved, mcus: seq<Mcu>)
    requires ts.Shaped() && scan.Valid() && Mcus(scan, mcus) && s.Fits(scan)
  {
    BytesOf(scan, ts, s, mcus) + Padding(StateAfter(scan, ts, s, mcus))
    == Padded(s.pending + SegmentBits(scan, ts, mcus, s.dc, s.togo)) + AfterSegment(scan, ts, mcus, s.togo, s.num)
  }

  lemma PaddingIs(s: Saved)
    ensures Padding(s) == Padded(s.pending) == Padded(s.pending + [])
  {
    SevenOnesPad(s.pending);
    assert s.pending + [] == s.pending;
  }

  lemma RunLayoutRestart(scan: Scan, ts: TableSet, s: Saved, mcus: seq<Mcu>)
    requires ts.Shaped() && scan.Valid() && Mcus(scan, mcus) && s.Fits(scan) && mcus != [] && RestartDue(scan, s.togo)
    requires LaidOut(scan, ts, Restarted(scan, s), mcus)
    ensures LaidOut(scan, ts, s, mcus)
  {
    var r := Restarted(scan, s);
    AfterRestart(scan, ts, s, mcus);
    PaddingIs(s);
    var seg, after := SegmentBits(scan, ts, mcus, r.dc, r.togo), AfterSegment(scan, ts, mcus, r.togo, r.num);
    assert [] + seg == seg;
    Regroup(Padding(s), RestartMarker(s.num), BytesOf(scan, ts, r, mcus), Padding(StateAfter(scan, ts, r, mcus)), Padded(seg), after);
  }

  /** A run and its padding, laid out interval by interval. */
  lemma {:induction false} RunLayout(scan: Scan, ts: TableSet, s: Saved, mcus: seq<Mcu>)
    requires ts.Shaped() && scan.Valid() && Mcus(scan, mcus) && s.Fits(scan)
    ensures LaidOut(scan, ts, s, mcus)
    decreases |mcus|, if s.togo == 0 then 1 else 0
  {
    if mcus == [] {
      SevenOnesPad(s.pending);
      assert s.pending + [] == s.pending;
    } else if RestartDue(scan, s.togo) {
      RunLayout(scan, ts, Restarted(scan, s), mcus);
      RunLayoutRestart(scan, ts, s, mcus);
    } else {
      RunLayout(scan, ts, AfterMcu(scan, ts, s, mcus[0]), mcus[1..]);
      RunLayoutStep(scan, ts, s, mcus);
    }
  }

  lemma Regroup<T>(p: seq<T>, m: seq<T>, b: seq<T>, q: seq<T>, d: seq<T>, a: seq<T>)
    requires b + q == d + a
    ensures p + m + b + q == p + (m + d + a)
  {
    assert p + m + b + q == p + m + (b + q);
    assert p + m + (d + a) == p + (m + d + a);
  }

  lemma RegroupStep<T>(e: seq<T>, b: seq<T>, q: seq<T>, d: seq<T>, a: seq<T>)
    requires b + q == d + a
    ensures e + b + q == e + d + a
  {
    assert e + b + q == e + (b + q);
    assert e + (d + a) == e + d + a;
  }

  lemma RunLayoutStep(scan: Scan, ts: TableSet, s: Saved, mcus: seq<Mcu>)
    requires ts.Shaped() && scan.Valid() && Mcus(scan, mcus) && s.Fits(scan) && mcus != [] && !RestartDue(scan, s.togo)
    requires LaidOut(scan, ts, AfterMcu(scan, ts, s, mcus[0]), mcus[1..])
    ensures LaidOut(scan, ts, s, mcus)
  {
    var bits := McuBits(scan, ts, mcus[0], s.dc, 0);
    var s' := AfterMcu(scan, ts, s, mcus[0]);
    var seg := SegmentBits(scan, ts, mcus[1..], s'.dc, s'.togo);
    var after := AfterSegment(scan, ts, mcus[1..], s'.togo, s.num);
    PadLater(s.pending + bits, seg);
    Associative(s.pending, bits, seg);
    var out := Pack(s.pending + bits);
    assert Emitted(scan, ts, s, mcus[0]) == out by { assert [] + out == out; }
    RegroupStep(out, BytesOf(scan, ts, s', mcus[1..]), Padding(StateAfter(scan, ts, s', mcus[1..])), Padded(s'.pending + seg), after);
  }

  lemma PadLater(a: BitString, b: BitString)
    ensures Padded(a + b) == Pack(a) + Padded(Leftover(a) + b)
  {
    SevenOnesPad(a + b);
    SevenOnesPad(Leftover(a) + b);
    Associative(a, b, Ones(7));
    Associative(Leftover(a), b, Ones(7));
    PackConcat(a, b + Ones(7));
  }

  /** An encoder that writes MCUs one after the other produces exactly the bytes of the scan. */
  lemma RunIsScan(scan: Scan, ts: TableSet, mcus: seq<Mcu>)
    requires ts.Shaped() && scan.Valid() && Mcus(scan, mcus)
    ensures BytesOf(scan, ts, Initial(scan), mcus) + Padding(StateAfter(scan, ts, Initial(scan), mcus))
            == ScanBytes(scan, ts, mcus)
  {
    RunLayout(scan, ts, Initial(scan), mcus);
    var seg := SegmentBits(scan, ts, mcus, scan.Zeros(), scan.restartInterval);
    assert [] + seg == seg;
  }
}
