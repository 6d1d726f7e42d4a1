/**
 The working state of the Huffman encoder while it writes one MCU: a bit
 accumulator in front of an output buffer that a data destination owns.
 */
module BitWriter {
  import opened Bits
  import opened Stuffing

  const WORD := 0x1_0000_0000
  const LOW24 := 0x100_0000

  datatype JpegError = MissingCode | BadDctCoef | BadHuffTable | CodeLengthOverflow | CannotSuspend

  datatype Outcome = Done | Suspended | Failed(error: JpegError)

  /**
   A data destination.  Bytes before nextOut are committed.  When the buffer is full
   emptyOutputBuffer either takes the whole buffer (accepts) or refuses and changes nothing.
   */
  class Destination {
    var taken: seq<Byte>
    var buffer: array<Byte>
    var nextOut: nat
    var free: nat
    var accepts: bool

    ghost predicate Valid()
      reads this
    {
      nextOut + free == buffer.Length && free > 0
    }

    /** Everything handed over so far. */
    ghost function Stream(): seq<Byte>
      requires nextOut <= buffer.Length
      reads this, buffer
    {
      taken + buffer[..nextOut]
    }

    constructor (capacity: nat, accepting: bool)
      requires capacity > 0
      ensures Valid() && Stream() == [] && free == capacity && accepts == accepting
      ensures fresh(buffer)
    {
      buffer := new Byte[capacity](_ => 0);
      taken, nextOut, free, accepts := [], 0, capacity, accepting;
    }

    method EmptyOutputBuffer() returns (ok: bool)
      requires buffer.Length > 0
      modifies this
      ensures buffer == old(buffer) && accepts == old(accepts) && ok == accepts
      ensures ok ==> Valid() && nextOut == 0 && taken == old(taken) + buffer[..]
      ensures !ok ==> taken == old(taken) && nextOut == old(nextOut) && free == old(free)
    {
      ok := accepts;
      if ok {
        taken, nextOut, free := taken + buffer[..], 0, buffer.Length;
      }
    }

    /** Between calls the application may take the committed bytes and supply an empty buffer. */
    method Drain(capacity: nat, accepting: bool)
      requires Valid() && capacity > 0
      modifies this
      ensures Valid() && Stream() == old(Stream()) && fresh(buffer)
      ensures free == capacity && accepts == accepting
    {
      taken := taken + buffer[..nextOut];
      buffer := new Byte[capacity](_ => 0);
      nextOut, free, accepts := 0, capacity, accepting;
    }
  }

  /** The left-justified bits held in the low 24 bits of the accumulator. */
  ghost predicate Holds(putBuffer: nat, pending: BitString)
  {
    |pending| <= 24 && putBuffer % LOW24 == Val(pending) * Pow2(24 - |pending|)
  }

  /** The accumulator after masking the code, shifting it under the pending bits and or-ing it in. */
  function Merged(putBuffer: nat, putBits: nat, code: nat, size: nat): nat
    requires putBits + size <= 24
  {
    BitOr(code % Pow2(size) * Pow2(24 - putBits - size) % WORD, putBuffer)
  }

  lemma MergeBits(putBuffer: nat, pending: BitString, code: nat, size: nat)
    requires |pending| + size <= 24 && Holds(putBuffer, pending)
    ensures Holds(Merged(putBuffer, |pending|, code, size), pending + BitsOf(code, size))
  {
    var k := 24 - |pending| - size;
    var bits, m := BitsOf(code, size), code % Pow2(size);
    assert Val(bits) == m by { ValBits(code, size); }
    assert Val(pending + bits) == Val(pending) * Pow2(size) + m by { ValConcat(pending, bits); }
    assert Pow2(size + k) == Pow2(size) * Pow2(k) by { Pow2Add(size, k); }
    assert Pow2(|pending|) * Pow2(size + k) == LOW24 by { Pow2Add(|pending|, size + k); Pow2Constants(); }
    ValBound(pending);
    MergeOr(putBuffer, size + k, Pow2(|pending|), Val(pending), Pow2(size), m, Pow2(k));
  }

  lemma MergeOr(b: nat, j: nat, n: nat, v: nat, s: nat, m: nat, k: nat)
    requires Pow2(j) == s * k && n * (s * k) == LOW24 && v < n && m < s && k >= 1
    requires b % LOW24 == v * (s * k)
    ensures BitOr(m * k % WORD, b) % LOW24 == (v * s + m) * k
  {
    MergeSum(b, n, v, s, m, k);
    MulAtLeast(s * k, n);
    ModSmall(m * k);
    BitOrDisjoint(m * k, b, j);
  }

  lemma ModSmall(x: nat)
    requires x < LOW24
    ensures x % WORD == x
  {
  }

  lemma MergeSum(b: nat, n: nat, v: nat, s: nat, m: nat, k: nat)
    requires n * (s * k) == LOW24 && v < n && m < s && k >= 1
    requires b % LOW24 == v * (s * k)
    ensures m * k < s * k
    ensures b % (s * k) == 0
    ensures (b + m * k) % LOW24 == (v * s + m) * k
  {
    var p := s * k;
    MulBound(m, s, k);
    Distribute(v, s, m, k, p);
    Multiple(b, p, n, b / LOW24, v);
    assert v * p + p <= n * p by { MulStep(v, n, p); }
    DivModUnique(b + m * k, LOW24, b / LOW24, v * p + m * k);
  }

  lemma MulStep(v: nat, n: nat, p: nat)
    requires v < n
    ensures v * p + p <= n * p
  {
    MulAtLeast(p, n - v);
    assert n * p == v * p + (n - v) * p;
  }

  lemma Distribute(v: nat, s: nat, m: nat, k: nat, p: nat)
    requires p == s * k
    ensures (v * s + m) * k == v * p + m * k
  {
    assert v * s * k == v * (s * k);
  }

  lemma MulBound(m: nat, n: nat, p: nat)
    requires m < n && p >= 1
    ensures m * p < n * p
  {
  }

  lemma Multiple(b: nat, p: nat, n: nat, q: nat, v: nat)
    requires p >= 1 && b == n * p * q + v * p
    ensures b % p == 0
  {
    assert n * p * q == p * (n * q);
    assert b == p * (n * q + v);
    DivModUnique(b, p, n * q + v, 0);
  }

  /** The top byte of the low 24 bits is the first eight pending bits; a shift by eight drops them. */
  lemma TakeByte(b: nat, pending: BitString)
    requires |pending| >= 8 && Holds(b, pending)
    ensures b / 0x1_0000 % 256 == ByteOf(pending[..8])
    ensures Holds(b * 256 % WORD, pending[8..])
  {
    var first, others := pending[..8], pending[8..];
    var k := 24 - |pending|;
    assert pending == first + others;
    ValConcat(first, others);
    ValBound(others);
    Pow2Constants();
    Pow2Add(|others|, k);
    Pow2Add(8, k);
    SplitByte(b, ByteOf(first), Val(others), Pow2(|others|), Pow2(k));
  }

  lemma SplitByte(b: nat, f: Byte, v: nat, s: nat, k: nat)
    requires s * k == 0x1_0000 && v < s && k >= 1
    requires b % LOW24 == (f * s + v) * k
    ensures b / 0x1_0000 % 256 == f
    ensures b * 256 % WORD % LOW24 == v * (256 * k)
  {
    Distribute(f, s, v, k, 0x1_0000);
    MulBound(v, s, k);
    TopByte(b, f, v * k);
    assert v * (256 * k) == v * k * 256;
  }

  lemma TopByte(b: nat, f: Byte, low: nat)
    requires low < 0x1_0000 && b % LOW24 == f * 0x1_0000 + low
    ensures b / 0x1_0000 % 256 == f
    ensures b * 256 % WORD % LOW24 == low * 256
  {
    var q := b / LOW24;
    assert b / 0x1_0000 == q * 256 + f;
    assert b * 256 == (q * 256 + f) * LOW24 + low * 256;
  }

  /**
   Where a run of steps is heading: the stream and the bits left over at its end.
   A destination that refuses has room for all of it just when slack is positive.
   */
  datatype Goal = Goal(stream: seq<Byte>, slack: int, left: BitString)

  /** Local copies of the output pointers, the accumulator and the DC predictions. */
  class WorkingState {
    const dest: Destination
    var next: nat
    var free: nat
    var putBuffer: nat
    var putBits: nat
    var lastDc: seq<int>

    constructor (d: Destination, buf: nat, bits: nat, dc: seq<int>)
      requires d.Valid()
      ensures dest == d && next == d.nextOut && free == d.free
      ensures putBuffer == buf && putBits == bits && lastDc == dc
    {
      dest, next, free := d, d.nextOut, d.free;
      putBuffer, putBits, lastDc := buf, bits, dc;
    }

    ghost predicate Valid()
      reads this, dest
    {
      next + free == dest.buffer.Length && free > 0 &&
      dest.nextOut <= dest.buffer.Length &&
      (!dest.accepts ==> dest.nextOut <= next)
    }

    ghost predicate Clean(pending: BitString)
      reads this
    {
      |pending| == putBits <= 7 && Holds(putBuffer, pending)
    }

    /** The stream as it would be if the local pointers were committed now. */
    ghost function Stream(): seq<Byte>
      requires next <= dest.buffer.Length
      reads this, dest, dest.buffer
    {
      dest.taken + dest.buffer[..next]
    }

    /** What a destination that refuses keeps, whatever was attempted. */
    twostate predicate Uncommitted()
      reads this, dest, dest.buffer
    {
      dest.buffer == old(dest.buffer) && dest.accepts == old(dest.accepts) &&
      (!dest.accepts ==>
         dest.taken == old(dest.taken) && dest.nextOut == old(dest.nextOut) && dest.free == old(dest.free) &&
         dest.nextOut <= dest.buffer.Length && dest.buffer[..dest.nextOut] == old(dest.buffer[..dest.nextOut]))
    }

    /** Whether the step appended exactly out; it is refused just when out would fill the buffer. */
    twostate predicate Wrote(ok: bool, out: seq<Byte>)
      requires old(next <= dest.buffer.Length)
      reads this, dest, dest.buffer
    {
      Uncommitted() &&
      (ok <==> dest.accepts || |out| < old(free)) &&
      (ok ==> Valid() && Stream() == old(Stream()) + out && (!dest.accepts ==> free == old(free) - |out|))
    }

    method DumpBuffer() returns (ok: bool)
      requires dest.buffer.Length > 0
      modifies this`next, this`free, dest
      ensures dest.buffer == old(dest.buffer) && dest.accepts == old(dest.accepts) && ok == dest.accepts
      ensures ok ==> next == 0 && free == dest.buffer.Length && dest.nextOut == 0
      ensures ok ==> dest.taken == old(dest.taken) + dest.buffer[..]
      ensures !ok ==> dest.taken == old(dest.taken) && dest.nextOut == old(dest.nextOut) && dest.free == old(dest.free)
    {
      ok := dest.EmptyOutputBuffer();
      if ok {
        next, free := dest.nextOut, dest.free;
      }
    }

    method EmitByte(v: Byte) returns (ok: bool)
      requires Valid()
      modifies this`next, this`free, dest, dest.buffer
      ensures Wrote(ok, [v])
    {
      ok := true;
      dest.buffer[next] := v;
      next := next + 1;
      free := free - 1;
      assert dest.buffer[..next] == old(dest.buffer[..next]) + [v];
      assert dest.nextOut <= old(next) ==> dest.buffer[..dest.nextOut] == old(dest.buffer[..dest.nextOut]);
      if free == 0 {
        ok := DumpBuffer();
        assert dest.buffer[..] == dest.buffer[..dest.buffer.Length];
      }
    }

    /** A data byte, with a zero byte after 0xFF. */
    method EmitStuffed(c: Byte) returns (ok: bool)
      requires Valid()
      modifies this`next, this`free, dest, dest.buffer
      ensures Wrote(ok, Stuffed(c))
    {
      ok := EmitByte(c);
      if !ok { return; }
      if c == 0xFF {
        ok := EmitByte(0);
      }
    }

    /** Send the whole bytes of the accumulator; what is left is the new accumulator. */
    method EmitWholeBytes(putBuffer0: nat, putBits0: nat, ghost all: BitString)
      returns (ok: bool, buf: nat, bits: nat)
      requires Valid() && |all| == putBits0 <= 23 && Holds(putBuffer0, all)
      modifies this`next, this`free, dest, dest.buffer
      ensures Wrote(ok, Pack(all))
      ensures ok ==> bits == |Leftover(all)| && Holds(buf, Leftover(all))
    {
      ok, buf, bits := true, putBuffer0, putBits0;
      ghost var left, goal := all, Stream() + Pack(all);
      while bits >= 8
        invariant ok && Valid() && Uncommitted()
        invariant |left| == bits <= 23 && Holds(buf, left) && Leftover(left) == Leftover(all)
        invariant Stream() + Pack(left) == goal
        invariant !dest.accepts ==> free - |Pack(left)| == old(free) - |Pack(all)|
        decreases bits
      {
        var c := buf / 0x1_0000 % 256;
        TakeByte(buf, left);
        Associative(Stream(), Stuffed(c), Pack(left[8..]));
        ok := EmitStuffed(c);
        if !ok {
          return;
        }
        left := left[8..];
        buf, bits := buf * 256 % WORD, bits - 8;
      }
      assert Stream() + Pack(left) == Stream();
    }

    method EmitBits(code: nat, size: nat, ghost pending: BitString) returns (r: Outcome)
      requires Valid() && Clean(pending) && size <= 16
      modifies this`next, this`free, this`putBuffer, this`putBits, dest, dest.buffer
      ensures r.Failed? <==> size == 0
      ensures r.Failed? ==> r.error == MissingCode && Wrote(true, [])
      ensures size != 0 ==> Wrote(r.Done?, Pack(pending + BitsOf(code, size)))
      ensures r.Done? ==> Clean(Leftover(pending + BitsOf(code, size)))
    {
      if size == 0 {
        assert Stream() == Stream() + [];
        return Failed(MissingCode);
      }
      var buf := Merged(putBuffer, putBits, code, size);
      var bits := putBits + size;
      var ok;
      MergeBits(putBuffer, pending, code, size);
      ok, buf, bits := EmitWholeBytes(buf, bits, pending + BitsOf(code, size));
      if !ok {
        return Suspended;
      }
      putBuffer := buf;
      putBits := bits;
      r := Done;
    }

    /** On the way to writing `remaining` after `pending`, which will reach the goal. */
    ghost predicate Heading(goal: Goal, pending: BitString, remaining: BitString)
      reads this, dest, dest.buffer
    {
      Valid() && Clean(pending) &&
      Stream() + Pack(pending + remaining) == goal.stream &&
      Leftover(pending + remaining) == goal.left &&
      (!dest.accepts ==> free - |Pack(pending + remaining)| == goal.slack)
    }

    /** The outcome of a step on the way: it can be refused only if there is no room for the whole. */
    twostate predicate Stepped(r: Outcome, slack: int)
      reads this, dest, dest.buffer
    {
      Uncommitted() && lastDc == old(lastDc) && (r.Suspended? ==> !dest.accepts && slack <= 0)
    }

    /** emit_bits as one step on the way. */
    method Put(code: nat, size: nat, ghost goal: Goal, ghost pending: BitString, ghost rest: BitString)
      returns (r: Outcome, ghost pending': BitString)
      requires size <= 16 && Heading(goal, pending, BitsOf(code, size) + rest)
      modifies this`next, this`free, this`putBuffer, this`putBits, dest, dest.buffer
      ensures Stepped(r, goal.slack) && (r.Failed? <==> size == 0) && (r.Failed? ==> r.error == MissingCode)
      ensures r.Done? ==> Heading(goal, pending', rest)
    {
      ghost var bits := BitsOf(code, size);
      ghost var out := Pack(pending + bits);
      pending' := Leftover(pending + bits);
      PackConcat(pending + bits, rest);
      Associative(pending, bits, rest);
      Associative(Stream(), out, Pack(pending' + rest));
      r := EmitBits(code, size, pending);
    }
  }
}
