/**
 The ICY stream: after every metaInt bytes of audio comes a length byte and 16 times as many bytes
 of metadata.  The network thread takes the stream apart byte by byte, in whatever chunks it arrives.
 */
module IcyDemux {
  import opened Bits
  import opened StreamFifo

  /** Where the stream has been left: audio bytes since the last length byte, metadata bytes still to come, those already seen. */
  datatype Pos = Pos(count: nat, left: nat, partial: seq<Byte>)
  {
    predicate Valid()
    {
      |partial| + left <= 4080 && (left == 0 ==> partial == [])
    }
  }

  /** The stream taken apart: the audio, and every complete block of metadata. */
  datatype Parts = Parts(pos: Pos, audio: seq<Byte>, metas: seq<seq<Byte>>)

  function Step(metaInt: int, p: Pos, b: Byte): Parts
  {
    if p.left != 0 then
      if p.left == 1 then Parts(Pos(p.count, 0, []), [], [p.partial + [b]])
      else Parts(Pos(p.count, p.left - 1, p.partial + [b]), [], [])
    else if p.count < metaInt then Parts(Pos(p.count + 1, 0, []), [b], [])
    else Parts(Pos(0, 16 * b, []), [], [])
  }

  function Then(a: Parts, b: Parts): Parts
  {
    Parts(b.pos, a.audio + b.audio, a.metas + b.metas)
  }

  /** The whole of a piece of the stream. */
  function Demux(metaInt: int, p: Pos, bytes: seq<Byte>): Parts
    decreases |bytes|
  {
    if bytes == [] then Parts(p, [], [])
    else
      var first := Demux(metaInt, p, bytes[..|bytes| - 1]);
      Then(first, Step(metaInt, first.pos, bytes[|bytes| - 1]))
  }

  lemma {:induction false} DemuxConcat(metaInt: int, p: Pos, a: seq<Byte>, b: seq<Byte>)
    ensures Demux(metaInt, p, a + b) == Then(Demux(metaInt, p, a), Demux(metaInt, Demux(metaInt, p, a).pos, b))
    decreases |b|
  {
    if b == [] {
      assert a + b == a;
    } else {
      var n := |b| - 1;
      assert (a + b)[..|a + b| - 1] == a + b[..n];
      DemuxConcat(metaInt, p, a, b[..n]);
    }
  }

  /** Title of the last complete block. */
  function TitleAfter(parse: seq<Byte> -> seq<Byte>, title: seq<Byte>, metas: seq<seq<Byte>>): seq<Byte>
  {
    if metas == [] then title else parse(metas[|metas| - 1])
  }

  lemma TitleConcat(parse: seq<Byte> -> seq<Byte>, title: seq<Byte>, a: seq<seq<Byte>>, b: seq<seq<Byte>>)
    ensures TitleAfter(parse, TitleAfter(parse, title, a), b) == TitleAfter(parse, title, a + b)
  {
  }

  class Receiver {
    const metaInt: int
    /** How the title is read from a block of metadata. */
    const parse: seq<Byte> -> seq<Byte>
    const fifo: StreamBuffer
    const strMeta: array<Byte>
    const streamBuf: array<Byte>
    var metaCount: nat
    var metaLen: nat
    var metaBufIndex: nat
    var title: seq<Byte>

    constructor (metaInt: int, parse: seq<Byte> -> seq<Byte>, fifo: StreamBuffer)
      requires fifo.Valid()
      ensures Valid() && this.fifo == fifo && this.metaInt == metaInt && this.parse == parse && fresh(strMeta) && fresh(streamBuf)
      ensures Position() == Pos(0, 0, []) && title == []
    {
      this.metaInt, this.parse, this.fifo := metaInt, parse, fifo;
      strMeta := new Byte[4096](_ => 0);
      streamBuf := new Byte[4096](_ => 0);
      metaCount, metaLen, metaBufIndex, title := 0, 0, 0, [];
    }

    ghost predicate Valid()
      reads this, fifo
    {
      fifo.Valid() && strMeta.Length == 4096 && streamBuf.Length == 4096 && metaBufIndex + metaLen <= 4080 &&
      strMeta != streamBuf && fifo.buf != strMeta && fifo.buf != streamBuf
    }

    ghost function Position(): Pos
      requires Valid()
      reads this, fifo, strMeta
    {
      Pos(metaCount, metaLen, if metaLen == 0 then [] else strMeta[..metaBufIndex])
    }

    /** The receiver, having begun at p with a buffer and a title, has taken d. */
    ghost predicate Reached(d: Parts, was: seq<Byte>, t: seq<Byte>)
      requires Valid()
      reads this, fifo, fifo.buf, strMeta
    {
      Position() == d.pos && fifo.Contents() == was + d.audio && title == TitleAfter(parse, t, d.metas)
    }

    /** One byte; n is the number of audio bytes of this chunk so far. */
    method Take(b: Byte, n: nat) returns (n': nat)
      requires Valid() && n < 4096
      modifies this, strMeta, streamBuf
      ensures Valid() && fifo.size == old(fifo.size)
      ensures var s := Step(metaInt, old(Position()), b);
              Position() == s.pos && n <= n' <= n + 1 && streamBuf[..n'] == old(streamBuf[..n]) + s.audio &&
              title == TitleAfter(parse, old(title), s.metas)
      ensures title == if old(metaLen) == 1 then parse(old(strMeta[..metaBufIndex]) + [b]) else old(title)
    {
      n' := n;
      if metaLen != 0 {
        strMeta[metaBufIndex] := b;
        metaBufIndex := metaBufIndex + 1;
        metaLen := metaLen - 1;
        assert strMeta[..metaBufIndex] == old(strMeta[..metaBufIndex]) + [b];
        if metaLen == 0 {
          strMeta[metaBufIndex] := 0;
          assert strMeta[..metaBufIndex] == old(strMeta[..metaBufIndex]) + [b];
          title := parse(strMeta[..metaBufIndex]);
        }
      } else {
        var count := metaCount;
        metaCount := metaCount + 1;
        if count < metaInt {
          streamBuf[n] := b;
          n' := n + 1;
        } else {
          metaLen, metaCount, metaBufIndex := b * 16, 0, 0;
        }
      }
    }

    /** One chunk as it was received: its audio is appended to the buffer, and title and position move on. */
    method Receive(chunk: seq<Byte>)
      requires Valid() && |chunk| <= 4096
      modifies this, strMeta, streamBuf, fifo
      ensures Valid() && (fresh(fifo.buf) || fifo.buf == old(fifo.buf))
      ensures Reached(Demux(metaInt, old(Position()), chunk), old(fifo.Contents()), old(title))
    {
      ghost var p, was, t := Position(), fifo.Contents(), title;
      var n: nat := 0;
      for i := 0 to |chunk|
        invariant Valid() && n <= i && fifo.Contents() == was && fifo.buf == old(fifo.buf)
        invariant var d := Demux(metaInt, p, chunk[..i]);
                  Position() == d.pos && streamBuf[..n] == d.audio && title == TitleAfter(parse, t, d.metas)
      {
        assert chunk[..i + 1][..i] == chunk[..i];
        TitleConcat(parse, t, Demux(metaInt, p, chunk[..i]).metas, Step(metaInt, Position(), chunk[i]).metas);
        n := Take(chunk[i], n);
      }
      assert chunk[..|chunk|] == chunk;
      assert was + [] == was;
      if n > 0 {
        fifo.AddBuffer(streamBuf, n);
      }
    }
  }

  function Flatten(chunks: seq<seq<Byte>>): seq<Byte>
    decreases |chunks|
  {
    if chunks == [] then [] else Flatten(chunks[..|chunks| - 1]) + chunks[|chunks| - 1]
  }

  lemma ReachedThen(r: Receiver, d: Parts, e: Parts, was: seq<Byte>, t: seq<Byte>)
    requires r.Valid() && r.Reached(e, was + d.audio, TitleAfter(r.parse, t, d.metas))
    ensures r.Reached(Then(d, e), was, t)
  {
    TitleConcat(r.parse, t, d.metas, e.metas);
    assert was + d.audio + e.audio == was + (d.audio + e.audio);
  }

  /** Any chunking of a stream gives the same audio, title and position as the stream in one piece. */
  method ReceiveAll(r: Receiver, chunks: seq<seq<Byte>>)
    requires r.Valid() && forall k :: 0 <= k < |chunks| ==> |chunks[k]| <= 4096
    modifies r, r.strMeta, r.streamBuf, r.fifo
    ensures r.Valid()
    ensures r.Reached(Demux(r.metaInt, old(r.Position()), Flatten(chunks)), old(r.fifo.Contents()), old(r.title))
  {
    ghost var p, was, t := r.Position(), r.fifo.Contents(), r.title;
    assert was + [] == was;
    for i := 0 to |chunks|
      invariant r.Valid() && r.Reached(Demux(r.metaInt, p, Flatten(chunks[..i])), was, t)
    {
      assert chunks[..i + 1][..i] == chunks[..i];
      ghost var d, e := Demux(r.metaInt, p, Flatten(chunks[..i])), Demux(r.metaInt, r.Position(), chunks[i]);
      DemuxConcat(r.metaInt, p, Flatten(chunks[..i]), chunks[i]);
      r.Receive(chunks[i]);
      ReachedThen(r, d, e, was, t);
    }
    assert chunks[..|chunks|] == chunks;
  }

  // ---------------------------------------------------------------- the sender

  /** metaInt bytes of audio and a block of metadata, whose length is a multiple of 16. */
  datatype Frame = Frame(audio: seq<Byte>, meta: seq<Byte>)
  {
    predicate Valid(metaInt: nat)
    {
      |audio| == metaInt && |meta| % 16 == 0 && |meta| <= 4080
    }
  }

  function Interleave(frames: seq<Frame>, metaInt: nat): seq<Byte>
    requires forall k :: 0 <= k < |frames| ==> frames[k].Valid(metaInt)
    decreases |frames|
  {
    if frames == [] then []
    else
      var f := frames[0];
      assert f.Valid(metaInt);
      var len: Byte := |f.meta| / 16;
      f.audio + [len] + f.meta + Interleave(frames[1..], metaInt)
  }

  function AudioOf(frames: seq<Frame>): seq<Byte>
  {
    if frames == [] then [] else frames[0].audio + AudioOf(frames[1..])
  }

  /** The blocks of metadata that are not empty. */
  function MetasOf(frames: seq<Frame>): seq<seq<Byte>>
  {
    if frames == [] then [] else (if frames[0].meta == [] then [] else [frames[0].meta]) + MetasOf(frames[1..])
  }

  lemma {:induction false} DemuxAudio(metaInt: int, count: nat, a: seq<Byte>)
    requires count + |a| <= metaInt
    ensures Demux(metaInt, Pos(count, 0, []), a) == Parts(Pos(count + |a|, 0, []), a, [])
    decreases |a|
  {
    if a != [] {
      DemuxAudio(metaInt, count, a[..|a| - 1]);
      assert a[..|a| - 1] + [a[|a| - 1]] == a;
    }
  }

  lemma {:induction false} DemuxMeta(metaInt: int, count: nat, len: nat, m: seq<Byte>)
    requires |m| <= len && len > 0
    ensures Demux(metaInt, Pos(count, len, []), m)
            == if |m| == len then Parts(Pos(count, 0, []), [], [m]) else Parts(Pos(count, len - |m|, m), [], [])
    decreases |m|
  {
    if m != [] {
      DemuxMeta(metaInt, count, len, m[..|m| - 1]);
      assert m[..|m| - 1] + [m[|m| - 1]] == m;
    }
  }

  lemma DemuxFrame(metaInt: nat, f: Frame, len: Byte)
    requires f.Valid(metaInt) && |f.meta| == 16 * len
    ensures Demux(metaInt, Pos(0, 0, []), f.audio + [len] + f.meta)
            == Parts(Pos(0, 0, []), f.audio, if f.meta == [] then [] else [f.meta])
  {
    var start := Pos(0, 0, []);
    DemuxAudio(metaInt, 0, f.audio);
    DemuxConcat(metaInt, start, f.audio, [len]);
    assert [len][..0] == [];
    assert Demux(metaInt, Pos(metaInt, 0, []), [len]) == Parts(Pos(0, 16 * len, []), [], []);
    DemuxConcat(metaInt, start, f.audio + [len], f.meta);
    if f.meta != [] {
      DemuxMeta(metaInt, 0, 16 * len, f.meta);
    }
  }

  lemma Regroup<T>(a: seq<T>, b: seq<T>, c: seq<T>)
    ensures a + b + c == a + (b + c)
  {
  }

  /** The receiver undoes the sender, for every stream that breaks off within audio. */
  lemma {:induction false} DemuxUndoesInterleave(metaInt: nat, frames: seq<Frame>, tail: seq<Byte>)
    requires (forall k :: 0 <= k < |frames| ==> frames[k].Valid(metaInt)) && |tail| <= metaInt
    ensures Demux(metaInt, Pos(0, 0, []), Interleave(frames, metaInt) + tail)
            == Parts(Pos(|tail|, 0, []), AudioOf(frames) + tail, MetasOf(frames))
    decreases |frames|
  {
    var start := Pos(0, 0, []);
    if frames == [] {
      DemuxAudio(metaInt, 0, tail);
      assert [] + tail == tail;
    } else {
      var f, rest := frames[0], frames[1..];
      var len: Byte := |f.meta| / 16;
      var head := f.audio + [len] + f.meta;
      DemuxFrame(metaInt, f, len);
      DemuxUndoesInterleave(metaInt, rest, tail);
      Regroup(head, Interleave(rest, metaInt), tail);
      DemuxConcat(metaInt, start, head, Interleave(rest, metaInt) + tail);
      Regroup(f.audio, AudioOf(rest), tail);
    }
  }

  /** A frame of the stream: its audio, a byte with a sixteenth of the length of its metadata, and the metadata. */
  lemma InterleaveFrame(f: Frame, rest: seq<Frame>, metaInt: nat)
    requires f.Valid(metaInt) && forall k :: 0 <= k < |rest| ==> rest[k].Valid(metaInt)
    ensures forall k :: 0 <= k < |[f] + rest| ==> ([f] + rest)[k].Valid(metaInt)
    ensures 16 * (|f.meta| / 16) == |f.meta| && |f.meta| / 16 < 256
    ensures Interleave([f] + rest, metaInt) == f.audio + [|f.meta| / 16] + f.meta + Interleave(rest, metaInt)
  {
    assert ([f] + rest)[0] == f && ([f] + rest)[1..] == rest;
  }

  lemma {:induction false} NoTitle(frames: seq<Frame>)
    requires forall k :: 0 <= k < |frames| ==> frames[k].meta == []
    ensures MetasOf(frames) == []
  {
    if frames != [] { NoTitle(frames[1..]); }
  }

  /** The last block of metadata is that of the last frame that has any. */
  lemma {:induction false} LastTitle(frames: seq<Frame>, k: nat)
    requires k < |frames| && frames[k].meta != [] && forall j :: k < j < |frames| ==> frames[j].meta == []
    ensures MetasOf(frames) != [] && MetasOf(frames)[|MetasOf(frames)| - 1] == frames[k].meta
  {
    if k == 0 {
      NoTitle(frames[1..]);
    } else {
      LastTitle(frames[1..], k - 1);
    }
  }

  /** The audio of frame k comes after that of k frames of the same length. */
  lemma {:induction false} AudioAt(frames: seq<Frame>, metaInt: nat, k: nat)
    requires (forall j :: 0 <= j < |frames| ==> frames[j].Valid(metaInt)) && k < |frames|
    ensures 0 <= k * metaInt && k * metaInt + metaInt <= |AudioOf(frames)|
    ensures AudioOf(frames)[k * metaInt..k * metaInt + metaInt] == frames[k].audio
  {
    assert frames[0].Valid(metaInt);
    if k > 0 {
      AudioAt(frames[1..], metaInt, k - 1);
      MulSum(k, -1, metaInt);
    }
  }

  /**
   A station from the start: for any chunking, every frame's audio is in its place, and the title is read
   from the last frame that had one to give.
   */
  method ReceiveStation(r: Receiver, frames: seq<Frame>, tail: seq<Byte>, chunks: seq<seq<Byte>>)
    requires r.Valid() && r.Position() == Pos(0, 0, []) && r.title == [] && r.fifo.Contents() == [] && r.metaInt >= 0
    requires (forall k :: 0 <= k < |frames| ==> frames[k].Valid(r.metaInt)) && |tail| <= r.metaInt
    requires Flatten(chunks) == Interleave(frames, r.metaInt) + tail && forall k :: 0 <= k < |chunks| ==> |chunks[k]| <= 4096
    modifies r, r.strMeta, r.streamBuf, r.fifo
    ensures (forall k :: 0 <= k < |frames| ==> frames[k].meta == []) ==> r.title == []
    ensures forall k :: 0 <= k < |frames| && frames[k].meta != [] && (forall j :: k < j < |frames| ==> frames[j].meta == []) ==>
              r.title == r.parse(frames[k].meta)
    ensures r.Valid() && r.fifo.Contents() == AudioOf(frames) + tail
  {
    ReceiveAll(r, chunks);
    DemuxUndoesInterleave(r.metaInt, frames, tail);
    if forall k :: 0 <= k < |frames| ==> frames[k].meta == [] {
      NoTitle(frames);
    }
    forall k | 0 <= k < |frames| && frames[k].meta != [] && (forall j :: k < j < |frames| ==> frames[j].meta == [])
      ensures r.title == r.parse(frames[k].meta)
    {
      LastTitle(frames, k);
    }
  }

  /** Without a metadata interval all of the stream is taken for metadata: a station that announces none is never heard. */
  lemma {:induction false} NoInterval(metaInt: int, p: Pos, bytes: seq<Byte>)
    requires metaInt <= 0
    ensures Demux(metaInt, p, bytes).audio == []
    decreases |bytes|
  {
    if bytes != [] {
      NoInterval(metaInt, p, bytes[..|bytes| - 1]);
    }
  }
}
