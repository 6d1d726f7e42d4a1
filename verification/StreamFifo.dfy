/** The buffer between the network thread and the decoder: reallocated and copied by every operation. */
module StreamFifo {
  import opened Bits

  class StreamBuffer {
    var buf: array<Byte>
    var size: nat

    constructor ()
      ensures Valid() && Contents() == [] && fresh(buf)
    {
      buf := new Byte[0];
      size := 0;
    }

    ghost predicate Valid()
      reads this
    {
      size <= buf.Length
    }

    ghost function Contents(): seq<Byte>
      requires Valid()
      reads this, buf
    {
      buf[..size]
    }

    /** Append the first n bytes of data. */
    method AddBuffer(data: array<Byte>, n: nat)
      requires Valid() && n <= data.Length
      modifies this
      ensures Valid() && fresh(buf) && Contents() == old(Contents()) + data[..n]
    {
      var p := new Byte[size + n](_ => 0);
      forall k | 0 <= k < size {
        p[k] := buf[k];
      }
      forall k | 0 <= k < n {
        p[size + k] := data[k];
      }
      ghost var was := Contents();
      assert p[..size + n] == was + data[..n] by {
        forall k | 0 <= k < size + n ensures p[k] == (was + data[..n])[k] {
          if k >= size { assert p[size + (k - size)] == data[k - size]; }
        }
      }
      size := size + n;
      buf := p;
    }

    method PollBuffer() returns (n: nat)
      requires Valid()
      ensures n == |Contents()|
    {
      n := size;
    }

    /** Extract up to n bytes from the front. */
    method GetBuffer(out: array<Byte>, n: nat) returns (got: nat)
      requires Valid() && n <= out.Length && out != buf
      modifies this, out
      ensures Valid() && fresh(buf)
      ensures got == (if n < |old(Contents())| then n else |old(Contents())|)
      ensures out[..got] == old(Contents())[..got] && out[got..] == old(out[got..]) && Contents() == old(Contents())[got..]
    {
      got := if n > size then size else n;
      ghost var was := Contents();
      var p := new Byte[size - got + 1](_ => 0);
      forall k | 0 <= k < got {
        out[k] := buf[k];
      }
      forall k | 0 <= k < size - got {
        p[k] := buf[got + k];
      }
      assert out[..got] == was[..got] && out[got..] == old(out[got..]);
      assert p[..size - got] == was[got..];
      size := size - got;
      buf := p;
    }

    method FlushBuffer()
      modifies this
      ensures Valid() && Contents() == [] && fresh(buf)
    {
      buf := new Byte[0];
      size := 0;
    }
  }

  function Taken<T>(s: seq<T>, n: nat): (r: seq<T>)
    ensures r <= s && |r| == if n < |s| then n else |s|
  {
    if n > |s| then s else s[..n]
  }

  function Rest<T>(s: seq<T>, n: nat): (r: seq<T>)
    ensures Taken(s, n) + r == s
  {
    if n > |s| then [] else s[n..]
  }

  // ---------------------------------------------------------------- the two threads

  /** One atomic operation: the network thread adds, the decoder takes, and a stopped player flushes. */
  datatype Event = Add(data: seq<Byte>) | Take(n: nat) | Flush

  function After(s: seq<Byte>, e: Event): (r: seq<Byte>)
    ensures e.Add? ==> r == s + e.data
    ensures e.Take? ==> r == s[if e.n < |s| then e.n else |s|..]
  {
    match e
    case Add(data) => s + data
    case Take(n) => Rest(s, n)
    case Flush => []
  }

  function Run(s: seq<Byte>, es: seq<Event>): seq<Byte>
    decreases |es|
  {
    if es == [] then s else Run(After(s, es[0]), es[1..])
  }

  /** All bytes added by a run. */
  function Added(es: seq<Event>): seq<Byte>
    decreases |es|
  {
    if es == [] then [] else (if es[0].Add? then es[0].data else []) + Added(es[1..])
  }

  /** All bytes the decoder gets in a run. */
  function Delivered(s: seq<Byte>, es: seq<Event>): seq<Byte>
    decreases |es|
  {
    if es == [] then [] else (if es[0].Take? then Taken(s, es[0].n) else []) + Delivered(After(s, es[0]), es[1..])
  }

  lemma Regroup<T>(t: seq<T>, d: seq<T>, r: seq<T>, s: seq<T>, a: seq<T>)
    requires d + r == s + a
    ensures t + d + r == t + s + a
  {
    assert t + d + r == t + (d + r);
    assert t + s + a == t + (s + a);
  }

  /** Until a flush nothing is lost, repeated or reordered: what was there and what was added is what was delivered and what is left. */
  lemma {:induction false} Conserved(s: seq<Byte>, es: seq<Event>)
    requires forall k :: 0 <= k < |es| ==> !es[k].Flush?
    ensures Delivered(s, es) + Run(s, es) == s + Added(es)
    decreases |es|
  {
    if es == [] {
      assert s + [] == s == [] + s;
    } else {
      var e, s', d, r, a := es[0], After(s, es[0]), Delivered(After(s, es[0]), es[1..]), Run(After(s, es[0]), es[1..]), Added(es[1..]);
      Conserved(s', es[1..]);
      match e
      case Add(data) =>
        Regroup(s, data, a, data, a);
        assert s + (data + a) == s + data + a;
        assert [] + d == d;
      case Take(n) =>
        assert Taken(s, n) + s' == s;
        Regroup(Taken(s, n), d, r, s', a);
        assert [] + a == a;
    }
  }

  lemma {:induction false} OnlyAdded(s: seq<Byte>, es: seq<Event>)
    requires forall k :: 0 <= k < |es| ==> es[k].Add?
    ensures Run(s, es) == s + Added(es)
    decreases |es|
  {
    if es == [] {
      assert s + [] == s;
    } else {
      OnlyAdded(After(s, es[0]), es[1..]);
      assert s + es[0].data + Added(es[1..]) == s + (es[0].data + Added(es[1..]));
    }
  }

  /** The decoder asks how much there is, then takes that much: it gets exactly those bytes, whatever has been added between. */
  lemma PolledBytes(s: seq<Byte>, es: seq<Event>)
    requires forall k :: 0 <= k < |es| ==> es[k].Add?
    ensures Taken(Run(s, es), |s|) == s && Rest(Run(s, es), |s|) == Added(es)
  {
    OnlyAdded(s, es);
  }
}
