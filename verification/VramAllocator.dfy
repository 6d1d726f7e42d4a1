/** gsLib_vram_alloc and gsLib_vram_free: a doubly linked list spliced in place. */
module VramAllocator {
  import opened DistinctSeq
  import opened VramMap

  class Node {
    var address: nat
    var size: nat
    var prev: Node?
    var next: Node?

    constructor (address: nat, size: nat, prev: Node?, next: Node?)
      ensures this.address == address && this.size == size && this.prev == prev && this.next == next
    {
      this.address, this.size, this.prev, this.next := address, size, prev, next;
    }

    function Content(): Block
      reads this
    {
      Block(address, size)
    }
  }

  /** The node at an index, or null outside. */
  function At(nodes: seq<Node>, i: int): Node?
  {
    if 0 <= i < |nodes| then nodes[i] else null
  }

  /** The i-th node points to its neighbours. */
  ghost predicate LinkedAt(nodes: seq<Node>, i: nat)
    requires i < |nodes|
    reads nodes[i]
  {
    nodes[i].prev == At(nodes, i - 1) && nodes[i].next == At(nodes, i + 1)
  }

  /** The nodes in order, linked both ways. */
  ghost predicate Linked(nodes: seq<Node>)
    reads nodes
  {
    Distinct(nodes) && forall i: nat {:trigger LinkedAt(nodes, i)} :: i < |nodes| ==> LinkedAt(nodes, i)
  }

  lemma AtInserted(ns: seq<Node>, i: nat, node: Node, k: int)
    requires i <= |ns|
    ensures At(ns[..i] + [node] + ns[i..], k) == if k < i then At(ns, k) else if k == i then node else At(ns, k - 1)
  {
  }

  /** The k-th node points to its neighbours, or to a node to be inserted before index i. */
  ghost predicate LinkedAround(ns: seq<Node>, i: nat, node: Node, k: nat)
    requires k < |ns|
    reads ns[k]
  {
    ns[k].prev == (if k == i then node else At(ns, k - 1)) && ns[k].next == if k == i - 1 then node else At(ns, k + 1)
  }

  /** A node between its neighbours, each pointing to it. */
  lemma LinkedInserted(ns: seq<Node>, i: nat, node: Node)
    requires 1 <= i <= |ns| && Distinct(ns) && node !in ns
    requires node.prev == At(ns, i - 1) && node.next == At(ns, i)
    requires forall k: nat {:trigger LinkedAround(ns, i, node, k)} :: k < |ns| ==> LinkedAround(ns, i, node, k)
    ensures Linked(ns[..i] + [node] + ns[i..])
  {
    var after := ns[..i] + [node] + ns[i..];
    DistinctInserted(ns, i, node);
    forall k: nat | k < |after| ensures LinkedAt(after, k) {
      AtInserted(ns, i, node, k - 1);
      AtInserted(ns, i, node, k);
      AtInserted(ns, i, node, k + 1);
      if k != i { assert LinkedAround(ns, i, node, if k < i then k else k - 1); }
    }
  }

  lemma AtRemoved(ns: seq<Node>, i: nat, k: int)
    requires i < |ns|
    ensures At(ns[..i] + ns[i + 1..], k) == if k < i then At(ns, k) else At(ns, k + 1)
  {
  }

  /** The k-th node points to its neighbours, or past the i-th node. */
  ghost predicate LinkedPast(ns: seq<Node>, i: nat, k: nat)
    requires k < |ns|
    reads ns[k]
  {
    ns[k].prev == At(ns, if k == i + 1 then k - 2 else k - 1) && ns[k].next == At(ns, if k + 1 == i then k + 2 else k + 1)
  }

  /** The neighbours of a removed node, pointing past it. */
  lemma LinkedRemoved(ns: seq<Node>, i: nat)
    requires i < |ns| && Distinct(ns)
    requires forall k: nat {:trigger LinkedPast(ns, i, k)} :: k < |ns| && k != i ==> LinkedPast(ns, i, k)
    ensures Linked(ns[..i] + ns[i + 1..])
  {
    var after := ns[..i] + ns[i + 1..];
    forall k: nat | k < |after| ensures LinkedAt(after, k) {
      AtRemoved(ns, i, k - 1);
      AtRemoved(ns, i, k);
      AtRemoved(ns, i, k + 1);
      assert LinkedPast(ns, i, if k < i then k else k + 1);
    }
    DistinctRemoved(ns, i);
  }

  ghost function Contents(nodes: seq<Node>): (bs: seq<Block>)
    reads nodes
    ensures |bs| == |nodes| && forall i :: 0 <= i < |nodes| ==> bs[i] == nodes[i].Content()
  {
    seq(|nodes|, i requires 0 <= i < |nodes| reads nodes => nodes[i].Content())
  }

  lemma ContentsRemoved(ns: seq<Node>, i: nat)
    requires i < |ns|
    ensures Contents(ns[..i] + ns[i + 1..]) == Contents(ns)[..i] + Contents(ns)[i + 1..]
    ensures forall n :: n in ns[..i] + ns[i + 1..] ==> n in ns
  {
  }

  class Allocator {
    var head: Node?
    ghost var nodes: seq<Node>

    constructor ()
      ensures Valid() && nodes == [] && Blocks() == []
    {
      head, nodes := null, [];
    }

    ghost predicate Valid()
      reads this, nodes
    {
      head == (if nodes == [] then null else nodes[0]) && Linked(nodes) && Layout(Contents(nodes))
    }

    ghost function Blocks(): seq<Block>
      reads this, nodes
    {
      Contents(nodes)
    }

    /** Splice a new node in between its neighbours. */
    method Insert(ghost i: nat, prev: Node, next: Node?, size: nat) returns (node: Node)
      requires 1 <= i <= |nodes| && Linked(nodes) && prev == nodes[i - 1] && next == At(nodes, i)
      modifies this`nodes, nodes
      ensures fresh(node) && nodes == old(nodes[..i] + [node] + nodes[i..]) && head == old(head) && nodes[0] == old(nodes[0])
      ensures forall n :: n in nodes ==> n in old(nodes) || n == node
      ensures Linked(nodes) && node.address == old(prev.address + prev.size)
      ensures Contents(nodes) == old(Contents(nodes)[..i] + [Block(prev.address + prev.size, size)] + Contents(nodes)[i..])
    {
      ghost var ns := nodes;
      node := new Node(prev.address + prev.size, size, prev, next);
      prev.next := node;
      if next != null {
        next.prev := node;
      }
      forall k: nat | k < |ns| ensures LinkedAround(ns, i, node, k) {
        assert old(LinkedAt(ns, k));
        if k != i - 1 { DifferAt(ns, k, i - 1); }
        if k != i && i < |ns| { DifferAt(ns, k, i); }
      }
      LinkedInserted(ns, i, node);
      nodes := ns[..i] + [node] + ns[i..];
    }

    /** Take a node out from between its neighbours. */
    method Unlink(ghost i: nat, node: Node)
      requires i < |nodes| && Linked(nodes) && node == nodes[i]
      modifies nodes
      ensures Linked(nodes[..i] + nodes[i + 1..])
      ensures Contents(nodes) == old(Contents(nodes))
    {
      ghost var ns := nodes;
      assert LinkedAt(ns, i);
      if node.prev != null {
        node.prev.next := node.next;
      }
      assert node.next == At(ns, i + 1) by {
        if i > 0 { DifferAt(ns, i - 1, i); }
      }
      if node.next != null {
        node.next.prev := node.prev;
      }
      forall k: nat | k < |ns| && k != i ensures LinkedPast(ns, i, k) {
        assert old(LinkedAt(ns, k)) && old(LinkedAt(ns, i));
        if i > 0 && k != i - 1 { DifferAt(ns, k, i - 1); }
        if i + 1 < |ns| && k != i + 1 { DifferAt(ns, k, i + 1); }
      }
      LinkedRemoved(ns, i);
    }

    /** Look for the first gap with room. */
    method FindGap(size: nat) returns (found: bool, last: Node, ptr: Node?, ghost i: nat)
      requires nodes != [] && head == nodes[0] && Linked(nodes)
      ensures 1 <= i <= |nodes| && last == nodes[i - 1] && ptr == At(nodes, i)
      ensures FirstGap(Blocks(), size, 1) == if found then i else |nodes| + 1
      ensures found == (FirstGap(Blocks(), size, 1) <= |nodes|)
      ensures found ==> last == nodes[FirstGap(Blocks(), size, 1) - 1] && ptr == At(nodes, FirstGap(Blocks(), size, 1))
    {
      assert LinkedAt(nodes, 0);
      last := head;
      ptr := head.next;
      i := 1;
      ghost var bs := Blocks();
      while ptr != null
        invariant 1 <= i <= |nodes| && last == nodes[i - 1] && ptr == At(nodes, i)
        invariant FirstGap(bs, size, 1) == FirstGap(bs, size, i)
        decreases |nodes| - i
      {
        assert bs[i] == ptr.Content() && bs[i - 1] == last.Content();
        var space := ptr.address - (last.address + last.size);
        if space >= size {
          return true, last, ptr, i;
        }
        assert LinkedAt(nodes, i);
        last := ptr;
        ptr := ptr.next;
        i := i + 1;
      }
      assert bs[i - 1] == last.Content();
      found := MEM_SIZE - (last.address + last.size) >= size;
    }

    /** gsLib_vram_alloc: the new list and the result are those of first fit. */
    method Alloc(request: nat) returns (address: nat)
      requires Valid() && request < U32
      modifies this, nodes
      ensures Valid() && fresh(set n | n in nodes && n !in old(nodes))
      ensures address == Place(old(Blocks()), Rounded(request)).0
      ensures Blocks() == Step(old(Blocks()), VramMap.Alloc(request))
    {
      var size := Rounded(request);
      AllocKeepsLayout(Blocks(), size);
      address := AllocBlocks(size);
    }

    /** The first block, at the bottom of memory. */
    method AllocHead(size: nat)
      modifies this
      ensures Linked(nodes) && head != null && nodes == [head] && fresh(head) && Contents(nodes) == [Block(0, size)]
    {
      head := new Node(0, size, null, null);
      nodes := [head];
    }

    method AllocBlocks(size: nat) returns (address: nat)
      requires Valid() && Layout(AfterAlloc(Blocks(), size))
      modifies this, nodes
      ensures Valid() && forall n :: n in nodes ==> n in old(nodes) || fresh(n)
      ensures address == Place(old(Blocks()), size).0 && Blocks() == AfterAlloc(old(Blocks()), size)
    {
      if size >= MEM_SIZE {
        return ALLOC_ERROR;
      }
      if head == null {
        AllocHead(size);
        return 0;
      }
      address := AllocInGap(size);
    }

    /** The first gap with room, between blocks or at the end. */
    method AllocInGap(size: nat) returns (address: nat)
      requires Valid() && nodes != [] && size < MEM_SIZE
      modifies this`nodes, nodes
      ensures head == old(head) && nodes != [] && head == nodes[0] && Linked(nodes) && forall n :: n in nodes ==> n in old(nodes) || fresh(n)
      ensures address == Place(old(Blocks()), size).0 && Blocks() == AfterAlloc(old(Blocks()), size)
    {
      var found, last, ptr;
      ghost var i;
      found, last, ptr, i := FindGap(size);
      ghost var bs := Blocks();
      assert i <= |bs| && bs[i - 1] == last.Content() && Placed(bs[i - 1]);
      if !found {
        return ALLOC_ERROR;
      }
      assert Place(bs, size) == (bs[i - 1].End(), i);
      var node := Insert(i, last, ptr, size);
      return node.address;
    }

    /** gsLib_vram_free: drops the first block at the address; of a list whose head is freed nothing is left. */
    method Free(address: nat)
      requires Valid()
      modifies this, nodes
      ensures Valid() && forall n :: n in nodes ==> n in old(nodes)
      ensures Blocks() == Step(old(Blocks()), VramMap.Free(address))
    {
      ghost var bs := Blocks();
      FreeKeepsLayout(bs, address);
      var node := head;
      ghost var i := 0;
      while node != null
        invariant i <= |nodes| && node == At(nodes, i)
        invariant Find(bs, address, 0) == Find(bs, address, i)
        invariant unchanged(this, nodes)
        decreases |nodes| - i
      {
        assert bs[i] == node.Content();
        if node.address == address {
          FreeNode(i, node);
          return;
        }
        assert LinkedAt(nodes, i);
        node := node.next;
        i := i + 1;
      }
    }

    /** Unlink a node; if it is the head, forget the list. */
    method FreeNode(ghost i: nat, node: Node)
      requires Valid() && i < |nodes| && node == nodes[i]
      modifies this, nodes
      ensures forall n :: n in nodes ==> n in old(nodes)
      ensures head == (if nodes == [] then null else nodes[0]) && Linked(nodes)
      ensures Blocks() == if i == 0 then [] else old(Blocks())[..i] + old(Blocks())[i + 1..]
    {
      if i > 0 { DifferAt(nodes, 0, i); }
      Unlink(i, node);
      if node == head {
        head := null;
        nodes := [];
      } else {
        ghost var ns := nodes;
        nodes := ns[..i] + ns[i + 1..];
        ContentsRemoved(ns, i);
      }
    }
  }

  /** Allocating and freeing at once leaves the list as it was, unless the request was refused or empty. */
  method AllocAndFree(vram: Allocator, request: nat) returns (address: nat)
    requires vram.Valid() && 0 < request <= U32 - BLOCKSIZE && NoneEmpty(vram.Blocks())
    modifies vram, vram.nodes
    ensures vram.Valid() && (address != ALLOC_ERROR ==> vram.Blocks() == old(vram.Blocks()))
  {
    ghost var bs, size := vram.Blocks(), Rounded(request);
    RoundedEnough(request);
    if Place(bs, size).0 != ALLOC_ERROR {
      FreeUndoesAlloc(bs, size);
    }
    address := vram.Alloc(request);
    if address != ALLOC_ERROR {
      vram.Free(address);
    }
  }
}
