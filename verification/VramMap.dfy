/**
 What the video-memory allocator keeps track of, as a sequence of blocks: first fit from the
 bottom of memory, and what can be said of every run of allocations and frees.
 */
module VramMap {
  const BLOCKSIZE := 8192
  const MEM_SIZE := 4194304
  const ALLOC_ERROR := 0xFFFFFFFF
  const U32 := 0x1_0000_0000

  datatype Block = Block(address: nat, size: nat)
  {
    function End(): nat { address + size }
  }

  /** Round up to whole blocks, in 32-bit arithmetic. */
  function Rounded(size: nat): (r: nat)
    ensures r % BLOCKSIZE == 0
  {
    (size + BLOCKSIZE - 1) % U32 / BLOCKSIZE * BLOCKSIZE
  }

  /** Rounding loses nothing exactly below the last block of the 32-bit range; above it a request becomes empty. */
  lemma RoundedEnough(size: nat)
    requires size < U32
    ensures Rounded(size) >= size <==> size <= U32 - BLOCKSIZE
    ensures Rounded(size) == 0 <==> size == 0 || size > U32 - BLOCKSIZE
    ensures size <= U32 - BLOCKSIZE ==> Rounded(size) < size + BLOCKSIZE
  {
  }

  /** The sizes in bytes: blocks of 8192, four megabytes of memory, of which a request can have all but the last block. */
  lemma SizesInBytes(bs: seq<Block>, size: nat)
    requires size < 0x1_0000_0000
    ensures 0 < size <= 0xFFFF_E000 ==> size <= Rounded(size) < size + 8192 && Rounded(size) % 8192 == 0
    ensures size > 4186112 && size <= 0xFFFF_E000 ==> Place(bs, Rounded(size)).0 == 0xFFFF_FFFF
    ensures 0 < size <= 4186112 ==> Place([], Rounded(size)) == (0, 0)
  {
  }

  /** Address-ordered, aligned, disjoint, inside memory; the first block is at the bottom. */
  predicate Layout(bs: seq<Block>)
  {
    (bs != [] ==> bs[0].address == 0) &&
    (forall i: nat {:trigger Placed(bs[i])} :: i < |bs| ==> Placed(bs[i])) &&
    (forall i: nat, j: nat {:trigger Ordered(bs, i, j)} :: i < j < |bs| ==> Ordered(bs, i, j))
  }

  /** Whole blocks of memory. */
  predicate Placed(b: Block)
  {
    b.address % BLOCKSIZE == 0 && b.size % BLOCKSIZE == 0 && b.End() <= MEM_SIZE
  }

  predicate Ordered(bs: seq<Block>, i: nat, j: nat)
    requires i < |bs| && j < |bs|
  {
    bs[i].End() <= bs[j].address
  }

  predicate NoneEmpty(bs: seq<Block>)
  {
    forall k :: 0 <= k < |bs| ==> bs[k].size > 0
  }

  predicate Disjoint(a: Block, b: Block)
  {
    a.End() <= b.address || b.End() <= a.address
  }

  /** A block may be placed: it is inside memory and touches no other. */
  predicate Fits(bs: seq<Block>, b: Block)
  {
    b.End() <= MEM_SIZE && forall i :: 0 <= i < |bs| ==> Disjoint(b, bs[i])
  }

  /** The free space after block i - 1. */
  function Space(bs: seq<Block>, i: nat): int
    requires 1 <= i <= |bs|
  {
    (if i < |bs| then bs[i].address else MEM_SIZE) - bs[i - 1].End()
  }

  /** The first gap from the i-th on that has room; |bs| + 1 if there is none. */
  function FirstGap(bs: seq<Block>, size: nat, i: nat): (r: nat)
    requires 1 <= i <= |bs|
    ensures i <= r <= |bs| + 1
    ensures r <= |bs| ==> Space(bs, r) >= size
    decreases |bs| - i
  {
    if Space(bs, i) >= size then i else if i == |bs| then |bs| + 1 else FirstGap(bs, size, i + 1)
  }

  /** Where a request of a rounded size goes, and at which index. */
  function Place(bs: seq<Block>, size: nat): (r: (nat, nat))
    ensures r.0 != ALLOC_ERROR ==> r.1 <= |bs|
  {
    if size >= MEM_SIZE then (ALLOC_ERROR, 0)
    else if bs == [] then (0, 0)
    else
      var i := FirstGap(bs, size, 1);
      if i <= |bs| then (bs[i - 1].End(), i) else (ALLOC_ERROR, 0)
  }

  function AfterAlloc(bs: seq<Block>, size: nat): seq<Block>
  {
    var (a, i) := Place(bs, size);
    if a == ALLOC_ERROR then bs else bs[..i] + [Block(a, size)] + bs[i..]
  }

  /** The index of the first block at an address; |bs| if there is none. */
  function Find(bs: seq<Block>, address: nat, i: nat): (r: nat)
    requires i <= |bs|
    ensures i <= r <= |bs| && (r < |bs| ==> bs[r].address == address)
    ensures forall k :: i <= k < r ==> bs[k].address != address
    decreases |bs| - i
  {
    if i == |bs| || bs[i].address == address then i else Find(bs, address, i + 1)
  }

  /** Freeing the head forgets the whole list. */
  function AfterFree(bs: seq<Block>, address: nat): seq<Block>
  {
    var i := Find(bs, address, 0);
    if i == |bs| then bs else if i == 0 then [] else bs[..i] + bs[i + 1..]
  }

  // ---------------------------------------------------------------- allocation

  /** A request that fits anywhere at or above the end of block i - 1 is given room no higher. */
  lemma {:induction false} FirstGapLeast(bs: seq<Block>, size: nat, a: nat, i: nat)
    requires Layout(bs) && 1 <= i <= |bs| && Fits(bs, Block(a, size)) && bs[i - 1].End() <= a && size > 0
    ensures FirstGap(bs, size, i) <= |bs| && bs[FirstGap(bs, size, i) - 1].End() <= a
    decreases |bs| - i
  {
    if Space(bs, i) < size {
      assert Disjoint(Block(a, size), bs[i]);
      FirstGapLeast(bs, size, a, i + 1);
    }
  }

  /**
   First fit: the request is refused exactly if it is as large as memory or fits nowhere;
   otherwise it is placed at the lowest address of all where it fits, and the layout is kept.
   */
  lemma AllocIsFirstFit(bs: seq<Block>, size: nat)
    requires Layout(bs) && size > 0 && size % BLOCKSIZE == 0
    ensures Place(bs, size).0 == ALLOC_ERROR <==> size >= MEM_SIZE || forall a: nat :: !Fits(bs, Block(a, size))
    ensures Place(bs, size).0 != ALLOC_ERROR ==>
              Fits(bs, Block(Place(bs, size).0, size)) && forall a: nat :: Fits(bs, Block(a, size)) ==> Place(bs, size).0 <= a
  {
    if size < MEM_SIZE && bs != [] {
      forall a: nat | Fits(bs, Block(a, size))
        ensures FirstGap(bs, size, 1) <= |bs| && bs[FirstGap(bs, size, 1) - 1].End() <= a
      {
        assert Disjoint(Block(a, size), bs[0]);
        FirstGapLeast(bs, size, a, 1);
      }
      PlaceFits(bs, size);
    } else if size < MEM_SIZE {
      assert Fits(bs, Block(0, size));
    }
  }

  /** In addresses: what is placed lies beside every block and inside memory, and any room it could have had lies no lower. */
  lemma LowestPlace(bs: seq<Block>, size: nat, a: nat)
    requires Layout(bs) && 0 < size < 4194304 && size % 8192 == 0
    ensures Place(bs, size).0 != 0xFFFF_FFFF ==>
              Place(bs, size).0 + size <= 4194304 &&
              forall i: nat :: i < |bs| ==>
                Place(bs, size).0 + size <= bs[i].address || bs[i].address + bs[i].size <= Place(bs, size).0
    ensures a + size <= 4194304 && (forall i: nat :: i < |bs| ==> a + size <= bs[i].address || bs[i].address + bs[i].size <= a) ==>
              Place(bs, size).0 <= a
  {
    AllocIsFirstFit(bs, size);
    var p := Block(Place(bs, size).0, size);
    if Place(bs, size).0 != ALLOC_ERROR {
      forall i: nat | i < |bs| ensures p.address + size <= bs[i].address || bs[i].address + bs[i].size <= p.address {
        assert Disjoint(p, bs[i]);
      }
    }
    if a + size <= 4194304 && forall i: nat :: i < |bs| ==> a + size <= bs[i].address || bs[i].address + bs[i].size <= a {
      assert Fits(bs, Block(a, size));
    }
  }

  lemma PlaceFits(bs: seq<Block>, size: nat)
    requires Layout(bs)
    ensures Place(bs, size).0 != ALLOC_ERROR ==> Fits(bs, Block(Place(bs, size).0, size))
  {
    if size < MEM_SIZE && bs != [] {
      var i := FirstGap(bs, size, 1);
      if i <= |bs| {
        forall k: nat | k < |bs| ensures Disjoint(Block(bs[i - 1].End(), size), bs[k]) {
          assert k < i - 1 ==> Ordered(bs, k, i - 1);
          assert k > i ==> Ordered(bs, i, k);
        }
        assert Placed(bs[i - 1]);
        assert i < |bs| ==> Placed(bs[i]);
      }
    }
  }

  lemma AllocKeepsLayout(bs: seq<Block>, size: nat)
    requires Layout(bs) && size % BLOCKSIZE == 0
    ensures Layout(AfterAlloc(bs, size))
  {
    var (a, i) := Place(bs, size);
    if a != ALLOC_ERROR && bs != [] {
      assert Placed(bs[i - 1]);
      AlignedEnd(bs[i - 1].address, bs[i - 1].size);
      InsertKeepsLayout(bs, i, Block(a, size));
    }
  }

  lemma AlignedEnd(a: nat, size: nat)
    requires a % BLOCKSIZE == 0 && size % BLOCKSIZE == 0
    ensures (a + size) % BLOCKSIZE == 0
  {
  }

  lemma Inserted(bs: seq<Block>, i: nat, b: Block, k: nat)
    requires i <= |bs| && k <= |bs|
    ensures (bs[..i] + [b] + bs[i..])[k] == if k < i then bs[k] else if k == i then b else bs[k - 1]
  {
  }

  lemma InsertKeepsLayout(bs: seq<Block>, i: nat, b: Block)
    requires Layout(bs) && 1 <= i <= |bs| && b.address % BLOCKSIZE == 0 && b.size % BLOCKSIZE == 0
    requires bs[i - 1].End() <= b.address && b.End() <= if i < |bs| then bs[i].address else MEM_SIZE
    ensures Layout(bs[..i] + [b] + bs[i..])
  {
    var after := bs[..i] + [b] + bs[i..];
    forall k: nat | k <= |bs| ensures after[k] == if k < i then bs[k] else if k == i then b else bs[k - 1] {
      Inserted(bs, i, b, k);
    }
    assert i < |bs| ==> Placed(bs[i]);
    forall k: nat | k < |after| ensures Placed(after[k]) {
      if k != i { assert Placed(bs[if k < i then k else k - 1]); }
    }
    forall j: nat, k: nat | j < k < |after| ensures Ordered(after, j, k) {
      assert j < i - 1 ==> Ordered(bs, j, i - 1);
      assert k - 1 > i ==> Ordered(bs, i, k - 1);
      if j != i && k != i {
        assert Ordered(bs, if j < i then j else j - 1, if k < i then k else k - 1);
      }
    }
  }

  lemma Removed(bs: seq<Block>, i: nat, k: nat)
    requires i < |bs| && k + 1 < |bs|
    ensures (bs[..i] + bs[i + 1..])[k] == bs[if k < i then k else k + 1]
  {
  }

  lemma FreeKeepsLayout(bs: seq<Block>, address: nat)
    requires Layout(bs)
    ensures Layout(AfterFree(bs, address))
  {
    var i := Find(bs, address, 0);
    if 0 < i < |bs| { RemoveKeepsLayout(bs, i); }
  }

  lemma RemoveKeepsLayout(bs: seq<Block>, i: nat)
    requires Layout(bs) && 0 < i < |bs|
    ensures Layout(bs[..i] + bs[i + 1..])
  {
    var after := bs[..i] + bs[i + 1..];
    forall k: nat | k < |after| ensures Placed(after[k]) {
      Removed(bs, i, k);
      assert Placed(bs[if k < i then k else k + 1]);
    }
    forall j: nat, k: nat | j < k < |after| ensures Ordered(after, j, k) {
      Removed(bs, i, j);
      Removed(bs, i, k);
      assert Ordered(bs, if j < i then j else j + 1, if k < i then k else k + 1);
    }
  }

  /** Freeing what has just been allocated restores the list. */
  lemma FreeUndoesAlloc(bs: seq<Block>, size: nat)
    requires Layout(bs) && size > 0 && Place(bs, size).0 != ALLOC_ERROR
    requires NoneEmpty(bs)
    ensures AfterFree(AfterAlloc(bs, size), Place(bs, size).0) == bs
  {
    var (a, i) := Place(bs, size);
    forall k: nat | k < i ensures bs[k].address != a {
      assert k < i - 1 ==> Ordered(bs, k, i - 1);
    }
    FreeUndoesInsert(bs, i, Block(a, size));
  }

  lemma FreeUndoesInsert(bs: seq<Block>, i: nat, b: Block)
    requires i <= |bs| && (i == 0 ==> bs == []) && forall k :: 0 <= k < i ==> bs[k].address != b.address
    ensures AfterFree(bs[..i] + [b] + bs[i..], b.address) == bs
  {
    var after := bs[..i] + [b] + bs[i..];
    forall k: nat | k <= i ensures after[k] == if k < i then bs[k] else b {
      Inserted(bs, i, b, k);
    }
    FindIs(after, b.address, 0, i);
    assert after[..i] == bs[..i] && after[i + 1..] == bs[i..];
  }

  lemma {:induction false} FindIs(bs: seq<Block>, address: nat, j: nat, i: nat)
    requires j <= i < |bs| && bs[i].address == address && forall k :: j <= k < i ==> bs[k].address != address
    ensures Find(bs, address, j) == i
    decreases i - j
  {
    if j < i {
      FindIs(bs, address, j + 1, i);
    }
  }

  // ---------------------------------------------------------------- runs

  datatype Event = Alloc(size: nat) | Free(address: nat)

  function Step(bs: seq<Block>, e: Event): seq<Block>
  {
    match e
    case Alloc(size) => AfterAlloc(bs, Rounded(size))
    case Free(address) => AfterFree(bs, address)
  }

  /** The blocks in use, by what the callers have been given and have given back. */
  function InUse(bs: seq<Block>, live: set<Block>, e: Event): set<Block>
  {
    match e
    case Alloc(size) => if Place(bs, Rounded(size)).0 == ALLOC_ERROR then live else live + {Block(Place(bs, Rounded(size)).0, Rounded(size))}
    case Free(address) => set b | b in live && b.address != address
  }

  /** No empty or overlong request, and the bottom block is not given back while others are in use. */
  predicate Proper(live: set<Block>, e: Event)
  {
    match e
    case Alloc(size) => 0 < size <= U32 - BLOCKSIZE
    case Free(address) => address == 0 ==> forall b :: b in live ==> b.address == 0
  }

  ghost predicate ProperRun(bs: seq<Block>, live: set<Block>, es: seq<Event>)
    decreases |es|
  {
    es == [] || (Proper(live, es[0]) && ProperRun(Step(bs, es[0]), InUse(bs, live, es[0]), es[1..]))
  }

  function RunList(bs: seq<Block>, es: seq<Event>): seq<Block>
    decreases |es|
  {
    if es == [] then bs else RunList(Step(bs, es[0]), es[1..])
  }

  function RunInUse(bs: seq<Block>, live: set<Block>, es: seq<Event>): set<Block>
    decreases |es|
  {
    if es == [] then live else RunInUse(Step(bs, es[0]), InUse(bs, live, es[0]), es[1..])
  }

  /** The list holds exactly the blocks in use, none of them empty. */
  ghost predicate Tracks(bs: seq<Block>, live: set<Block>)
  {
    Layout(bs) && NoneEmpty(bs) && forall b: Block :: b in bs <==> b in live
  }

  /** The argument of malloc is a 32-bit number. */
  predicate Callable(e: Event)
  {
    e.Alloc? ==> e.size < U32
  }

  /** One step keeps the list and the callers' view in agreement exactly if it is proper. */
  lemma StepTracks(bs: seq<Block>, live: set<Block>, e: Event)
    requires Tracks(bs, live) && Callable(e)
    ensures Tracks(Step(bs, e), InUse(bs, live, e)) <==> Proper(live, e)
  {
    match e
    case Alloc(size) =>
      RoundedEnough(size);
      AllocKeepsLayout(bs, Rounded(size));
      if Rounded(size) == 0 {
        EmptyPlaced(bs);
      } else if Place(bs, Rounded(size)).0 != ALLOC_ERROR {
        AllocTracks(bs, live, Rounded(size));
      }
    case Free(address) =>
      if Proper(live, e) {
        FreeTracks(bs, live, address);
      } else {
        ForgottenStaysInUse(bs, live);
      }
  }

  /** An empty request is never refused, and leaves an empty block: at the bottom, or right behind the bottom block. */
  lemma EmptyPlaced(bs: seq<Block>)
    requires Layout(bs)
    ensures Place(bs, 0) == if bs == [] then (0, 0) else (bs[0].End(), 1)
    ensures !NoneEmpty(AfterAlloc(bs, 0))
  {
    if bs != [] {
      assert Placed(bs[0]);
      assert |bs| > 1 ==> Ordered(bs, 0, 1);
      assert FirstGap(bs, 0, 1) == 1;
      Inserted(bs, 1, Block(bs[0].End(), 0), 1);
    }
    assert AfterAlloc(bs, 0)[if bs == [] then 0 else 1].size == 0;
  }

  /** Freeing the bottom block forgets the others, which are still in use. */
  lemma ForgottenStaysInUse(bs: seq<Block>, live: set<Block>)
    requires Tracks(bs, live) && !Proper(live, Free(0))
    ensures !Tracks(Step(bs, Free(0)), InUse(bs, live, Free(0)))
  {
    var b :| b in live && b.address != 0;
    assert b in bs && AfterFree(bs, 0) == [];
    assert b in InUse(bs, live, Free(0));
  }

  lemma AllocTracks(bs: seq<Block>, live: set<Block>, size: nat)
    requires Tracks(bs, live) && size > 0 && Layout(AfterAlloc(bs, size)) && Place(bs, size).0 != ALLOC_ERROR
    ensures Tracks(AfterAlloc(bs, size), live + {Block(Place(bs, size).0, size)})
  {
    var (a, i) := Place(bs, size);
    InsertTracks(bs, i, Block(a, size));
    forall k: nat | k < |AfterAlloc(bs, size)| ensures AfterAlloc(bs, size)[k].size > 0 {
      Inserted(bs, i, Block(a, size), k);
    }
  }

  lemma InsertTracks(bs: seq<Block>, i: nat, b: Block)
    requires i <= |bs|
    ensures forall c :: c in bs[..i] + [b] + bs[i..] <==> c in bs || c == b
  {
    var after := bs[..i] + [b] + bs[i..];
    forall k: nat | k <= |bs| ensures after[k] == if k < i then bs[k] else if k == i then b else bs[k - 1] {
      Inserted(bs, i, b, k);
    }
    assert after[i] == b;
    forall k | 0 <= k < |bs| ensures bs[k] in after {
      assert bs[k] == after[if k < i then k else k + 1];
    }
  }

  lemma FreeTracks(bs: seq<Block>, live: set<Block>, address: nat)
    requires Tracks(bs, live) && Proper(live, Free(address))
    ensures Tracks(AfterFree(bs, address), set b | b in live && b.address != address)
  {
    var after := AfterFree(bs, address);
    FreeKeepsLayout(bs, address);
    forall k: nat | k < |after| ensures after[k].size > 0 && after[k] in bs && after[k].address != address {
      FreedFrom(bs, address, k);
    }
    forall b: Block ensures b in after <==> b in live && b.address != address {
      if b in live && b.address != address && Find(bs, address, 0) > 0 {
        NotFreed(bs, address, b);
      }
    }
  }

  /** A block at another address stays, unless the list is forgotten. */
  lemma NotFreed(bs: seq<Block>, address: nat, b: Block)
    requires b in bs && b.address != address && Find(bs, address, 0) > 0
    ensures b in AfterFree(bs, address)
  {
    var i, after := Find(bs, address, 0), AfterFree(bs, address);
    var k :| 0 <= k < |bs| && bs[k] == b;
    if 0 < i < |bs| {
      assert after[if k < i then k else k - 1] == b;
    }
  }

  lemma AddressesDiffer(bs: seq<Block>, i: nat, k: nat)
    requires Layout(bs) && i < |bs| && k < |bs| && bs[i].size > 0 && bs[k].size > 0
    ensures bs[i].address == bs[k].address ==> i == k
  {
    assert i < k ==> Ordered(bs, i, k);
    assert k < i ==> Ordered(bs, k, i);
  }

  /** What is left after a free was there before, at another address. */
  lemma FreedFrom(bs: seq<Block>, address: nat, k: nat)
    requires Layout(bs) && NoneEmpty(bs) && k < |AfterFree(bs, address)|
    ensures AfterFree(bs, address)[k] in bs && AfterFree(bs, address)[k].address != address
  {
    var i := Find(bs, address, 0);
    if 0 < i < |bs| {
      var j := if k < i then k else k + 1;
      assert AfterFree(bs, address)[k] == bs[j];
      AddressesDiffer(bs, i, j);
    }
  }

  /** The list and the callers' view agree before and after every event of a run. */
  ghost predicate AlwaysTracks(bs: seq<Block>, live: set<Block>, es: seq<Event>)
    decreases |es|
  {
    Tracks(bs, live) && (es == [] || AlwaysTracks(Step(bs, es[0]), InUse(bs, live, es[0]), es[1..]))
  }

  ghost predicate AllCallable(es: seq<Event>)
    decreases |es|
  {
    es == [] || (Callable(es[0]) && AllCallable(es[1..]))
  }

  /** The list and the callers' view agree all along a run exactly if every event of it is proper. */
  lemma {:induction false} RunTracks(bs: seq<Block>, live: set<Block>, es: seq<Event>)
    requires Tracks(bs, live) && AllCallable(es)
    ensures AlwaysTracks(bs, live, es) <==> ProperRun(bs, live, es)
    decreases |es|
  {
    if es != [] {
      StepTracks(bs, live, es[0]);
      if Proper(live, es[0]) {
        RunTracks(Step(bs, es[0]), InUse(bs, live, es[0]), es[1..]);
      }
    }
  }

  lemma {:induction false} TracksAtEnd(bs: seq<Block>, live: set<Block>, es: seq<Event>)
    requires AlwaysTracks(bs, live, es)
    ensures Tracks(RunList(bs, es), RunInUse(bs, live, es))
    decreases |es|
  {
    if es != [] { TracksAtEnd(Step(bs, es[0]), InUse(bs, live, es[0]), es[1..]); }
  }

  lemma {:induction false} ProperCallable(bs: seq<Block>, live: set<Block>, es: seq<Event>)
    requires ProperRun(bs, live, es)
    ensures AllCallable(es)
    decreases |es|
  {
    if es != [] { ProperCallable(Step(bs, es[0]), InUse(bs, live, es[0]), es[1..]); }
  }

  /** Over every proper run from the empty list the blocks in use are aligned, inside memory, and pairwise disjoint. */
  lemma InUseDisjoint(es: seq<Event>, a: Block, b: Block)
    requires ProperRun([], {}, es) && a in RunInUse([], {}, es) && b in RunInUse([], {}, es) && a != b
    ensures a.address + a.size <= b.address || b.address + b.size <= a.address
    ensures a.address % 8192 == 0 && a.size % 8192 == 0 && a.size > 0 && a.address + a.size <= 4194304
  {
    ProperCallable([], {}, es);
    RunTracks([], {}, es);
    TracksAtEnd([], {}, es);
    var bs := RunList([], es);
    var i :| 0 <= i < |bs| && bs[i] == a;
    var j :| 0 <= j < |bs| && bs[j] == b;
    assert i < j ==> Ordered(bs, i, j);
    assert j < i ==> Ordered(bs, j, i);
    assert Placed(bs[i]);
  }

  /** Freeing the bottom block while others are in use: the next request is put at the bottom, over them exactly if it is too long. */
  lemma HeadFreedEarly(bs: seq<Block>, live: set<Block>, size: nat)
    requires Tracks(bs, live) && |bs| >= 2 && 0 < size < MEM_SIZE
    ensures AfterFree(bs, 0) == [] && Place([], size).0 == 0
    ensures (forall b :: b in live && b.address != 0 ==> Disjoint(Block(0, size), b)) <==> size <= bs[1].address
  {
    assert Ordered(bs, 0, 1);
    assert bs[1] in live;
    if size <= bs[1].address {
      forall b | b in live && b.address != 0 ensures Disjoint(Block(0, size), b) {
        var k :| 0 <= k < |bs| && bs[k] == b;
        assert k > 1 ==> Ordered(bs, 1, k);
      }
    }
  }

  /** A run in which it is too long: two blocks in use overlap. */
  lemma OverlapAfterHeadFreed()
    ensures var es := [Alloc(8192), Alloc(8192), Free(0), Alloc(16384)];
            RunList([], es) == [Block(0, 16384)] &&
            RunInUse([], {}, es) == {Block(8192, 8192), Block(0, 16384)}
    ensures !Disjoint(Block(8192, 8192), Block(0, 16384))
  {
    var a, b, c := Block(0, 8192), Block(8192, 8192), Block(0, 16384);
    RoundedBlocks();
    AllocFirst(8192);
    AllocBehind(a, 8192);
    AllocFirst(16384);
    RunFrom([], {}, Alloc(8192), [Alloc(8192), Free(0), Alloc(16384)]);
    RunFrom([a], {a}, Alloc(8192), [Free(0), Alloc(16384)]);
    assert Find([a, b], 0, 0) == 0;
    RunFrom([a, b], {a, b}, Free(0), [Alloc(16384)]);
    RunFrom([], {b}, Alloc(16384), []);
  }

  lemma RoundedBlocks()
    ensures Rounded(8192) == 8192 && Rounded(16384) == 16384
  {
  }

  lemma AllocFirst(size: nat)
    requires Rounded(size) == size < MEM_SIZE
    ensures Place([], size).0 == 0 && Step([], Alloc(size)) == [Block(0, size)]
  {
  }

  lemma AllocBehind(a: Block, size: nat)
    requires Rounded(size) == size < MEM_SIZE && a.End() + size <= MEM_SIZE
    ensures Place([a], size).0 == a.End() && Step([a], Alloc(size)) == [a, Block(a.End(), size)]
  {
    assert FirstGap([a], size, 1) == 1;
  }

  lemma RunFrom(bs: seq<Block>, live: set<Block>, e: Event, es: seq<Event>)
    ensures RunList(bs, [e] + es) == RunList(Step(bs, e), es)
    ensures RunInUse(bs, live, [e] + es) == RunInUse(Step(bs, e), InUse(bs, live, e), es)
  {
    assert ([e] + es)[1..] == es;
  }

  /**
   A request of zero bytes goes right behind the bottom block.  The next one is put at the same address
   exactly if there is room; freeing that address then drops the empty block and keeps the other.
   */
  lemma EmptyRequestShares(bs: seq<Block>, size: nat)
    requires Layout(bs) && NoneEmpty(bs) && bs != [] && 0 < size < MEM_SIZE && size % BLOCKSIZE == 0
    ensures Place(bs, 0).0 == bs[0].End()
    ensures Place(AfterAlloc(bs, 0), size).0 == bs[0].End() <==> Space(bs, 1) >= size
    ensures Space(bs, 1) >= size ==>
              AfterFree(AfterAlloc(AfterAlloc(bs, 0), size), bs[0].End()) == AfterAlloc(bs, size)
  {
    var a := bs[0].End();
    EmptyPlaced(bs);
    var bs1 := AfterAlloc(bs, 0);
    assert bs1 == [bs[0], Block(a, 0)] + bs[1..];
    GapAfterEmpty(bs, bs1);
    assert Placed(bs[0]);
    if Space(bs, 1) >= size {
      SharedThenFreed(bs, bs1, size);
    } else if FirstGap(bs1, size, 1) <= |bs1| {
      LaterGapAbove(bs, bs1, FirstGap(bs1, size, 1));
    }
  }

  /** Behind the empty block is the gap that was behind the bottom block. */
  lemma GapAfterEmpty(bs: seq<Block>, bs1: seq<Block>)
    requires bs != [] && bs1 == [bs[0], Block(bs[0].End(), 0)] + bs[1..]
    ensures Space(bs1, 1) == 0 && Space(bs1, 2) == Space(bs, 1)
    ensures forall size: nat :: size > 0 ==> FirstGap(bs1, size, 1) == FirstGap(bs1, size, 2)
  {
    assert bs1[0] == bs[0] && bs1[1] == Block(bs[0].End(), 0) && (|bs| > 1 ==> bs1[2] == bs[1]);
  }

  lemma SharedThenFreed(bs: seq<Block>, bs1: seq<Block>, size: nat)
    requires bs != [] && NoneEmpty(bs) && bs[0].End() <= MEM_SIZE && 0 < size < MEM_SIZE && Space(bs, 1) >= size
    requires bs1 == [bs[0], Block(bs[0].End(), 0)] + bs[1..]
    ensures Place(bs1, size).0 == bs[0].End()
    ensures AfterFree(AfterAlloc(bs1, size), bs[0].End()) == AfterAlloc(bs, size)
  {
    var x, e, b, rest := bs[0], Block(bs[0].End(), 0), Block(bs[0].End(), size), bs[1..];
    PlacedBehind(bs, bs1, size);
    assert bs == [x] + rest;
    AllocIs([x], rest, size);
    AllocIs([x, e], rest, size);
    FreeSecond(x, e, b, rest);
  }

  lemma PlacedBehind(bs: seq<Block>, bs1: seq<Block>, size: nat)
    requires bs != [] && bs1 == [bs[0], Block(bs[0].End(), 0)] + bs[1..] && 0 < size < MEM_SIZE && Space(bs, 1) >= size
    ensures Place(bs1, size) == (bs[0].End(), 2) && Place(bs, size) == (bs[0].End(), 1)
  {
    GapAfterEmpty(bs, bs1);
    assert FirstGap(bs1, size, 2) == 2 && FirstGap(bs, size, 1) == 1;
    assert bs1[1].End() == bs[0].End();
  }

  lemma AllocIs(front: seq<Block>, rest: seq<Block>, size: nat)
    requires Place(front + rest, size).1 == |front| && Place(front + rest, size).0 != ALLOC_ERROR
    ensures AfterAlloc(front + rest, size) == front + [Block(Place(front + rest, size).0, size)] + rest
  {
    assert (front + rest)[..|front|] == front && (front + rest)[|front|..] == rest;
  }

  lemma FreeSecond(x: Block, e: Block, b: Block, rest: seq<Block>)
    requires x.address != e.address
    ensures AfterFree([x, e] + [b] + rest, e.address) == [x] + [b] + rest
  {
    var bs := [x, e] + [b] + rest;
    FindIs(bs, e.address, 0, 1);
    assert bs[..1] == [x] && bs[2..] == [b] + rest;
  }

  /** Gaps behind a later block begin higher. */
  lemma LaterGapAbove(bs: seq<Block>, bs1: seq<Block>, i: nat)
    requires Layout(bs) && NoneEmpty(bs) && bs != [] && 3 <= i <= |bs1|
    requires bs1 == [bs[0], Block(bs[0].End(), 0)] + bs[1..]
    ensures bs1[i - 1].End() > bs[0].End()
  {
    assert bs1[i - 1] == bs[i - 2];
    assert Ordered(bs, 0, i - 2);
  }

  /** With nothing allocated the empty block is the bottom one, and freeing it forgets the other. */
  lemma EmptyAtBottom(size: nat)
    requires 0 < size < MEM_SIZE
    ensures Place([], 0).0 == 0 && Place(AfterAlloc([], 0), size).0 == 0
    ensures AfterAlloc(AfterAlloc([], 0), size) == [Block(0, 0), Block(0, size)]
    ensures AfterFree(AfterAlloc(AfterAlloc([], 0), size), 0) == []
  {
    var e := Block(0, 0);
    assert AfterAlloc([], 0) == [e];
    assert FirstGap([e], size, 1) == 1;
    assert AfterAlloc([e], size) == [e, Block(0, size)];
    FindIs([e, Block(0, size)], 0, 0, 0);
  }
}
