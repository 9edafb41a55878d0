/** NetPoolAllocator: blocks cut into slots of one size, the free ones linked through
    their own memory. */
module PoolAllocators {
  import opened BitUtil

  class Block {
    const nextBlock: Block?

    constructor (nextBlock: Block?)
      ensures this.nextBlock == nextBlock
    {
      this.nextBlock := nextBlock;
    }
  }

  /** A slot: slot `index` of its block, starting `offset` bytes into the block's memory.
      While the slot is free its memory holds `next`; while it is live it holds an object,
      and `next` can be anything. */
  class Elem {
    const block: Block
    const index: nat
    const offset: nat
    var next: Elem?

    constructor (block: Block, index: nat, offset: nat, next: Elem?)
      ensures this.block == block && this.index == index && this.offset == offset && this.next == next
    {
      this.block, this.index, this.offset, this.next := block, index, offset, next;
    }
  }

  ghost predicate Distinct<T>(s: seq<T>)
  {
    forall i, j :: 0 <= i < j < |s| ==> s[i] != s[j]
  }

  /** The blocks hang together in a chain. */
  ghost predicate Chain(first: Block?, blocks: seq<Block>)
  {
    && Distinct(blocks) && first == NthBlock(blocks, 0)
    && forall i :: 0 <= i < |blocks| ==> blocks[i].nextBlock == NthBlock(blocks, i + 1)
  }

  lemma ShiftedBlock(block: Block, blocks: seq<Block>, i: nat)
    ensures NthBlock([block] + blocks, i + 1) == NthBlock(blocks, i)
    ensures NthBlock([block] + blocks, 0) == block
  {
  }

  lemma ChainFront(block: Block, first: Block?, blocks: seq<Block>)
    requires Chain(first, blocks) && block !in blocks && block.nextBlock == first
    ensures Chain(block, [block] + blocks)
  {
    hide NthBlock;
    var longer := [block] + blocks;
    ShiftedBlock(block, blocks, 0);
    forall i | 0 <= i < |longer| ensures longer[i].nextBlock == NthBlock(longer, i + 1) {
      if i > 0 {
        ShiftedBlock(block, blocks, i);
        assert longer[i] == blocks[i - 1];
      }
    }
  }

  function NthBlock(blocks: seq<Block>, i: nat): Block?
  {
    if i < |blocks| then blocks[i] else null
  }

  /** A free list in memory: from the first slot on, every slot links to the next. */
  ghost predicate Linked(first: Elem?, list: seq<Elem>)
    reads list
  {
    && first == Nth(list, 0)
    && forall i :: 0 <= i < |list| ==> list[i].next == Nth(list, i + 1)
  }

  function Nth(list: seq<Elem>, i: nat): (e: Elem?)
    ensures e == null <==> i >= |list|
  {
    if i < |list| then list[i] else null
  }

  lemma LinkedRest(first: Elem?, list: seq<Elem>)
    requires Linked(first, list) && list != []
    ensures first == list[0] && Linked(list[0].next, list[1..])
  {
    var rest := list[1..];
    forall i: nat | i <= |rest| ensures Nth(rest, i) == Nth(list, i + 1) {
    }
    forall i | 0 <= i < |rest| ensures rest[i].next == Nth(rest, i + 1) {
      assert rest[i] == list[i + 1];
    }
  }

  lemma LinkedFront(elem: Elem, first: Elem?, list: seq<Elem>)
    requires Linked(first, list) && elem.next == first
    ensures Linked(elem, [elem] + list)
  {
    var longer := [elem] + list;
    forall i: nat | i <= |list| ensures Nth(longer, i + 1) == Nth(list, i) {
    }
    forall i | 0 <= i < |longer| ensures longer[i].next == Nth(longer, i + 1) {
      if i > 0 { assert longer[i] == list[i - 1]; }
    }
  }

  lemma LinkedEmpty(first: Elem?, list: seq<Elem>)
    requires Linked(first, list)
    ensures first == null <==> list == []
  {
  }

  /** The free list visits no slot twice, and exactly the slots that are not live. */
  ghost predicate Partition(slots: set<Elem>, vacant: seq<Elem>, live: set<Elem>)
  {
    && Distinct(vacant) && live <= slots
    && (forall i :: 0 <= i < |vacant| ==> vacant[i] in slots && vacant[i] !in live)
    && (forall e :: e in slots && e !in live ==> e in vacant)
  }

  /** Every slot has its own place in a block. */
  ghost predicate Placed(slots: set<Elem>, blocks: seq<Block>, perBlock: nat, elemSize: nat)
  {
    && (forall e :: e in slots ==> e.block in blocks && e.index < perBlock && e.offset == e.index * elemSize)
    && (forall a, b :: a in slots && b in slots && a.block == b.block && a.index == b.index ==> a == b)
  }

  lemma TakeFirst(slots: set<Elem>, vacant: seq<Elem>, live: set<Elem>)
    requires Partition(slots, vacant, live) && vacant != []
    ensures Partition(slots, vacant[1..], live + {vacant[0]})
    ensures vacant[0] in slots && vacant[0] !in live && vacant[0] !in vacant[1..]
  {
    forall e | e in slots && e !in live + {vacant[0]} ensures e in vacant[1..] {
      var i :| 0 <= i < |vacant| && vacant[i] == e;
      assert vacant[1..][i - 1] == e;
    }
  }

  lemma PutFirst(slots: set<Elem>, vacant: seq<Elem>, live: set<Elem>, t: Elem)
    requires Partition(slots, vacant, live) && t in live
    ensures Partition(slots, [t] + vacant, live - {t}) && t !in vacant
  {
    forall e | e in slots && e !in live - {t} ensures e in [t] + vacant {
      assert e != t ==> e in vacant;
    }
  }

  lemma AddFirst(slots: set<Elem>, vacant: seq<Elem>, live: set<Elem>, t: Elem)
    requires Partition(slots, vacant, live) && t !in slots
    ensures Partition(slots + {t}, [t] + vacant, live)
  {
  }

  lemma AddPlace(slots: set<Elem>, blocks: seq<Block>, perBlock: nat, elemSize: nat, t: Elem)
    requires Placed(slots, blocks, perBlock, elemSize)
    requires t.block in blocks && t.index < perBlock && t.offset == t.index * elemSize
    requires forall e :: e in slots && e.block == t.block ==> e.index != t.index
    ensures Placed(slots + {t}, blocks, perBlock, elemSize)
  {
  }

  lemma AddBlock(slots: set<Elem>, blocks: seq<Block>, perBlock: nat, elemSize: nat, block: Block)
    requires Placed(slots, blocks, perBlock, elemSize)
    ensures Placed(slots, [block] + blocks, perBlock, elemSize)
  {
  }

  class PoolAllocator {
    const elemSize: nat   // the size of an object, or of a pointer if that is larger
    const blockMem: nat   // the bytes of a block that hold slots
    var firstBlock: Block?
    var current: Elem?
    var numAllocated: int
    ghost var blocks: seq<Block>
    ghost var slots: set<Elem>
    ghost var vacant: seq<Elem>
    ghost var live: set<Elem>

    /** As many slots as fit. */
    function ElemsPerBlock(): nat
      requires elemSize > 0
    {
      blockMem / elemSize
    }

    /** One slot more would reach into the block's pointer. */
    lemma MostThatFit()
      requires elemSize > 0
      ensures ElemsPerBlock() * elemSize <= blockMem < ElemsPerBlock() * elemSize + elemSize
    {
      assert blockMem == ElemsPerBlock() * elemSize + blockMem % elemSize;
    }

    /** The free list is acyclic, free and live slots make up all slots of all blocks, and
        `numAllocated` counts the live ones. */
    ghost predicate Valid()
      reads this, vacant
    {
      && 0 < elemSize <= blockMem
      && Chain(firstBlock, blocks) && Linked(current, vacant) && Partition(slots, vacant, live)
      && Placed(slots, blocks, ElemsPerBlock(), elemSize) && |slots| == |blocks| * ElemsPerBlock()
      && numAllocated == |live|
    }

    /** Different slots do not overlap, and none reaches beyond its block. */
    lemma NoOverlap(a: Elem, b: Elem)
      requires Valid() && a in slots && b in slots && a != b
      ensures a.block != b.block || a.offset + elemSize <= b.offset || b.offset + elemSize <= a.offset
      ensures a.offset + elemSize <= blockMem
    {
      PlaceFits(a.index, elemSize, blockMem);
      if a.block == b.block {
        if a.index < b.index {
          PlacesApart(a.index, b.index, elemSize);
        } else {
          PlacesApart(b.index, a.index, elemSize);
        }
      }
    }

    lemma InBlock(a: Elem)
      requires Valid() && a in slots
      ensures a.offset + elemSize <= blockMem
    {
      PlaceFits(a.index, elemSize, blockMem);
    }

    lemma InSlots()
      requires Valid()
      ensures live <= slots && forall e :: e in vacant ==> e in slots
    {
    }

    constructor (objectSize: nat, pointerSize: nat, blockSize: nat)
      requires pointerSize > 0 && objectSize <= blockSize - pointerSize && pointerSize <= blockSize - pointerSize
      ensures Valid() && live == {} && slots == {}
      ensures elemSize >= objectSize && elemSize >= pointerSize && (elemSize == objectSize || elemSize == pointerSize)
      ensures blockMem + pointerSize == blockSize
      ensures ElemsPerBlock() * elemSize <= blockSize - pointerSize < ElemsPerBlock() * elemSize + elemSize
    {
      elemSize := if objectSize < pointerSize then pointerSize else objectSize;
      blockMem := blockSize - pointerSize;
      firstBlock, current, numAllocated := null, null, 0;
      blocks, slots, vacant, live := [], {}, [], {};
      new;
      MostThatFit();
    }

    /** Hands out a slot that is not live; a new block is added when none is free. */
    method Allocate() returns (ptr: Elem)
      requires Valid()
      modifies this, vacant
      ensures Valid() && fresh(slots - old(slots)) && old(slots) <= slots
      ensures ptr in slots && ptr !in old(live) && live == old(live) + {ptr}
      ensures old(vacant) != [] ==> ptr == old(vacant)[0] && slots == old(slots)
      ensures numAllocated == old(numAllocated) + 1
    {
      hide Chain, Partition, Placed, Linked;
      LinkedEmpty(current, vacant);
      if current == null {
        Grow();
        LinkedEmpty(current, vacant);
      }
      ptr := current;
      assert vacant[0] in vacant;
      TakeFirst(slots, vacant, live);
      LinkedRest(current, vacant);
      current := current.next;
      numAllocated := numAllocated + 1;
      vacant := vacant[1..];
      live := live + {ptr};
      // The new object takes over the slot's memory.
      ptr.next := *;
    }

    method Deallocate(t: Elem)
      requires Valid() && t in live
      modifies this, t
      ensures Valid() && slots == old(slots)
      ensures live == old(live) - {t} && vacant == [t] + old(vacant)
      ensures numAllocated == old(numAllocated) - 1
    {
      hide Chain, Partition, Placed, Linked;
      PutFirst(slots, vacant, live, t);
      t.next := current;
      LinkedFront(t, current, vacant);
      numAllocated := numAllocated - 1;
      current := t;
      live := live - {t};
      vacant := [t] + vacant;
    }

    /** Cuts a new block into slots and links them in front of the free list. */
    method Grow()
      requires Valid()
      modifies this
      ensures Valid() && fresh(slots - old(slots)) && old(slots) <= slots
      ensures forall e :: e in vacant && e !in old(vacant) ==> fresh(e)
      ensures live == old(live) && numAllocated == old(numAllocated)
      ensures |vacant| == |old(vacant)| + ElemsPerBlock() && vacant[ElemsPerBlock()..] == old(vacant)
      ensures ElemsPerBlock() > 0
    {
      hide Chain, Partition, Placed, Linked;
      var block := new Block(firstBlock);
      NewBlock(block);
      AddBlock(slots, blocks, ElemsPerBlock(), elemSize, block);
      firstBlock := block;
      blocks := [block] + blocks;
      CutSlots(block);
      PlaceCount(|old(blocks)|, ElemsPerBlock());
      SomePlace(blockMem, elemSize);
    }

    lemma NewBlock(block: Block)
      requires Valid() && block !in blocks && block.nextBlock == firstBlock
      ensures Chain(block, [block] + blocks)
      ensures forall e :: e in slots ==> e.block != block
    {
      hide Chain, Linked, Partition;
      ChainFront(block, firstBlock, blocks);
    }

    method CutSlots(block: Block)
      requires elemSize > 0 && block in blocks && (forall e :: e in slots ==> e.block != block)
      requires Linked(current, vacant) && Partition(slots, vacant, live)
      requires Placed(slots, blocks, ElemsPerBlock(), elemSize)
      modifies this`current, this`vacant, this`slots
      ensures Linked(current, vacant) && Partition(slots, vacant, live)
      ensures Placed(slots, blocks, ElemsPerBlock(), elemSize) && |slots| == |old(slots)| + ElemsPerBlock()
      ensures fresh(slots - old(slots)) && old(slots) <= slots
      ensures forall e :: e in vacant && e !in old(vacant) ==> fresh(e)
      ensures |vacant| == |old(vacant)| + ElemsPerBlock() && vacant[ElemsPerBlock()..] == old(vacant)
    {
      hide Partition, Placed, Linked, PoolAllocator.ElemsPerBlock;
      var offset := 0;
      var index := 0;
      while index < ElemsPerBlock()
        invariant 0 <= index <= ElemsPerBlock() && offset == index * elemSize
        invariant Linked(current, vacant) && Partition(slots, vacant, live)
        invariant Placed(slots, blocks, ElemsPerBlock(), elemSize) && |slots| == |old(slots)| + index
        invariant fresh(slots - old(slots)) && old(slots) <= slots
        invariant forall e :: e in vacant && e !in old(vacant) ==> fresh(e)
        invariant forall e :: e in slots && e.block == block ==> e.index < index
        invariant |vacant| == |old(vacant)| + index && vacant[index..] == old(vacant)
      {
        var elem := CutSlot(block, index, offset);
        NextPlace(index, elemSize);
        offset := offset + elemSize;
        index := index + 1;
      }
    }

    method CutSlot(block: Block, index: nat, offset: nat) returns (elem: Elem)
      requires elemSize > 0 && block in blocks && index < ElemsPerBlock() && offset == index * elemSize
      requires Linked(current, vacant) && Partition(slots, vacant, live)
      requires Placed(slots, blocks, ElemsPerBlock(), elemSize)
      requires forall e :: e in slots && e.block == block ==> e.index < index
      modifies this`current, this`vacant, this`slots
      ensures Linked(current, vacant) && Partition(slots, vacant, live)
      ensures Placed(slots, blocks, ElemsPerBlock(), elemSize)
      ensures fresh(elem) && elem.block == block && elem.index == index
      ensures vacant == [elem] + old(vacant) && slots == old(slots) + {elem} && |slots| == |old(slots)| + 1
    {
      hide Partition, Placed, Linked, PoolAllocator.ElemsPerBlock;
      elem := new Elem(block, index, offset, current);
      AddFirst(slots, vacant, live, elem);
      AddPlace(slots, blocks, ElemsPerBlock(), elemSize, elem);
      LinkedFront(elem, current, vacant);
      current := elem;
      vacant := [elem] + vacant;
      slots := slots + {elem};
    }
  }

  // ----- places -----

  lemma PlaceFits(i: nat, size: nat, total: nat)
    requires size > 0 && i < total / size
    ensures i * size + size <= total
  {
    assert (total / size) * size <= total;
    PlacesApart(i, total / size, size);
  }

  lemma PlacesApart(i: nat, j: nat, size: nat)
    requires i < j
    ensures i * size + size <= j * size
  {
    TimesMonotone(i + 1, j, size);
    NextPlace(i, size);
  }

  lemma NextPlace(i: nat, size: nat)
    ensures (i + 1) * size == i * size + size
  {
  }

  lemma SomePlace(total: nat, size: nat)
    requires 0 < size <= total
    ensures total / size > 0
  {
  }

  lemma PlaceCount(blocks: nat, n: nat)
    ensures (blocks + 1) * n == blocks * n + n
  {
  }

  // ----- runs -----

  datatype Request =
    | Take
    | GiveBack(which: nat)

  /** The objects held are distinct, they are exactly the live slots, and the allocator
      counts them. */
  ghost predicate Holds(pool: PoolAllocator, held: seq<Elem>)
    reads pool, pool.vacant
  {
    && pool.Valid() && Distinct(held) && pool.numAllocated == |held|
    && (forall e :: e in held ==> e in pool.live) && (forall e :: e in pool.live ==> e in held)
  }

  /** The memory of two objects does not overlap. */
  predicate Beside(a: Elem, b: Elem, objectSize: nat)
  {
    a.block != b.block || a.offset + objectSize <= b.offset || b.offset + objectSize <= a.offset
  }

  ghost predicate Apart(held: seq<Elem>, objectSize: nat)
  {
    forall i, j :: 0 <= i < j < |held| ==> Beside(held[i], held[j], objectSize)
  }

  /** No object reaches beyond the memory of its block. */
  ghost predicate Inside(held: seq<Elem>, objectSize: nat, blockMem: int)
  {
    forall i :: 0 <= i < |held| ==> held[i].offset + objectSize <= blockMem
  }

  /** Any run of requests. */
  method Serve(objectSize: nat, pointerSize: nat, blockSize: nat, requests: seq<Request>)
    returns (pool: PoolAllocator, held: seq<Elem>)
    requires pointerSize > 0 && objectSize <= blockSize - pointerSize && pointerSize <= blockSize - pointerSize
    ensures fresh(pool) && Holds(pool, held)
    ensures Apart(held, objectSize) && Inside(held, objectSize, blockSize - pointerSize)
  {
    hide PoolAllocator.Valid;
    pool := new PoolAllocator(objectSize, pointerSize, blockSize);
    held := [];
    var i := 0;
    while i < |requests|
      invariant 0 <= i <= |requests| && fresh(pool) && Holds(pool, held)
      invariant fresh(pool.slots)
    {
      held := ServeOne(pool, held, requests[i]);
      i := i + 1;
    }
    HeldApart(pool, held, objectSize);
  }

  lemma HeldApart(pool: PoolAllocator, held: seq<Elem>, objectSize: nat)
    requires Holds(pool, held) && objectSize <= pool.elemSize
    ensures Apart(held, objectSize) && Inside(held, objectSize, pool.blockMem)
  {
    hide PoolAllocator.Valid;
    pool.InSlots();
    forall i, j | 0 <= i < j < |held|
      ensures Beside(held[i], held[j], objectSize)
    {
      assert held[i] in held && held[j] in held;
      pool.NoOverlap(held[i], held[j]);
    }
    forall i | 0 <= i < |held| ensures held[i].offset + objectSize <= pool.blockMem {
      assert held[i] in held;
      pool.InBlock(held[i]);
    }
  }

  method ServeOne(pool: PoolAllocator, held: seq<Elem>, request: Request) returns (now: seq<Elem>)
    requires Holds(pool, held)
    modifies pool, pool.slots
    ensures Holds(pool, now)
    ensures fresh(pool.slots - old(pool.slots)) && old(pool.slots) <= pool.slots
  {
    hide PoolAllocator.Valid;
    now := held;
    pool.InSlots();
    match request {
      case Take =>
        var ptr := pool.Allocate();
        now := held + [ptr];
      case GiveBack(which) =>
        if which < |held| {
          pool.Deallocate(held[which]);
          Removed(held, which);
          now := held[..which] + held[which + 1..];
        }
    }
  }

  lemma Removed<T>(s: seq<T>, k: nat)
    requires k < |s| && Distinct(s)
    ensures Distinct(s[..k] + s[k + 1..])
    ensures forall x :: x in s[..k] + s[k + 1..] <==> x in s && x != s[k]
  {
    var r := s[..k] + s[k + 1..];
    forall x | x in s && x != s[k] ensures x in r {
      var i :| 0 <= i < |s| && s[i] == x;
      assert r[if i < k then i else i - 1] == x;
    }
    forall x | x in r ensures x in s && x != s[k] {
      var i :| 0 <= i < |r| && r[i] == x;
      assert s[if i < k then i else i + 1] == x;
    }
  }
}
