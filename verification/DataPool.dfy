/** data-pool.c: a pool of list nodes in blocks of doubling size. It behaves as a
    sequence that nodes are only appended to, and that can be threaded into a
    linked list at any time. */
module DataPool {
  import opened Base
  import opened Decoding

  const DATA_POOL_NUM_BLOCKS := 32
  const SIZE_MAX := UINT64_LIMIT - 1

  // sizeof(MMDB_entry_data_list_s) on a 64-bit system: 64 of them make 4 KiB.
  const ELEMENT_SIZE := 64

  function CanMultiply(max: nat, m: nat, n: nat): bool {
    m != 0 && n <= max / m
  }

  /** can_multiply is true exactly when the product of positive `m` with `n` is
      no more than `max`. */
  lemma CanMultiplyIsExact(max: nat, m: nat, n: nat)
    ensures CanMultiply(max, m, n) <==> m != 0 && m * n <= max
  {
    if m != 0 {
      assert max == m * (max / m) + max % m;
      if n <= max / m {
        assert m * n <= m * (max / m);
      } else {
        assert m * n >= m * (max / m + 1);
      }
    }
  }

  // ---- block geometry ----

  /** Size of block `i` of a pool whose first block has `initial` elements. */
  function BlockSize(initial: nat, i: nat): (size: nat)
    ensures initial > 0 ==> size > 0
  {
    if i == 0 then initial else 2 * BlockSize(initial, i - 1)
  }

  /** How many elements the blocks before block `i` have. */
  function BlockStart(initial: nat, i: nat): nat {
    if i == 0 then 0 else BlockStart(initial, i - 1) + BlockSize(initial, i - 1)
  }

  lemma BlockStep(initial: nat, i: nat)
    ensures BlockStart(initial, i + 1) == BlockStart(initial, i) + BlockSize(initial, i)
    ensures BlockSize(initial, i + 1) == 2 * BlockSize(initial, i)
  {
  }

  function TwoToThe(n: nat): (p: nat)
    ensures p > 0
  {
    if n == 0 then 1 else 2 * TwoToThe(n - 1)
  }

  /** The blocks before block `i` hold initial * (2^i - 1) elements, and it holds
      initial * 2^i. */
  lemma {:induction false} BlocksDouble(initial: nat, i: nat)
    ensures BlockSize(initial, i) == initial * TwoToThe(i)
    ensures BlockStart(initial, i) == initial * (TwoToThe(i) - 1)
  {
    if i > 0 {
      BlocksDouble(initial, i - 1);
    }
  }

  lemma {:induction false} BlocksAreInOrder(initial: nat, i: nat, j: nat)
    requires i < j
    ensures BlockStart(initial, i) + BlockSize(initial, i) <= BlockStart(initial, j)
  {
    if i < j - 1 {
      BlocksAreInOrder(initial, i, j - 1);
    }
  }

  // ---- memory ----

  /** MMDB_entry_data_list_s. The entry data is a part of the node. */
  class ListNode {
    const entryData: EntryData
    var next: ListNode?
    var pool: Pool?

    constructor ()
      ensures fresh(entryData) && entryData.IsZero() && next == null && pool == null
    {
      var data := new EntryData();
      entryData, next, pool := data, null, null;
    }
  }

  ghost predicate Distinct(nodes: seq<ListNode>) {
    forall i, j | 0 <= i < j < |nodes| :: nodes[i] != nodes[j] && nodes[i].entryData != nodes[j].entryData
  }

  /** calloc, when it succeeds: a block of zeroed nodes. */
  method Calloc(count: nat) returns (block: seq<ListNode>)
    ensures |block| == count && Distinct(block)
    ensures forall n | n in block :: fresh(n) && fresh(n.entryData) && n.next == null && n.pool == null
  {
    block := [];
    for i := 0 to count
      invariant |block| == i && Distinct(block)
      invariant forall n | n in block :: fresh(n) && fresh(n.entryData) && n.next == null && n.pool == null
    {
      var node := new ListNode();
      block := block + [node];
    }
  }

  // ---- the pool ----

  /** Whether a pool whose last block, number `index`, has `size` elements may try
      to allocate another block: there is a slot for it, and neither its size
      nor its size in bytes overflows. */
  predicate CanGrow(size: nat, index: nat) {
    index + 1 < DATA_POOL_NUM_BLOCKS && 2 * size * ELEMENT_SIZE <= SIZE_MAX
  }

  /** How many elements later blocks can add, when calloc succeeds for block
      number i exactly if `memory(i)`. */
  function RoomInLaterBlocks(size: nat, index: nat, memory: nat -> bool): nat
    decreases DATA_POOL_NUM_BLOCKS - index
  {
    if CanGrow(size, index) && memory(index + 1) then 2 * size + RoomInLaterBlocks(2 * size, index + 1, memory)
    else 0
  }

  /** Blocks 0..index hold, one after the other, the nodes of `all`. */
  ghost predicate LaidOut(initial: nat, index: nat, sizes: seq<nat>, blocks: seq<seq<ListNode>>, all: seq<ListNode>) {
    && |sizes| == |blocks| && index < |blocks|
    && |all| == BlockStart(initial, index) + BlockSize(initial, index)
    && forall i {:trigger blocks[i]} {:trigger sizes[i]} | 0 <= i <= index ::
         && sizes[i] == BlockSize(initial, i)
         && BlockStart(initial, i) + sizes[i] <= |all|
         && blocks[i] == all[BlockStart(initial, i)..BlockStart(initial, i) + sizes[i]]
  }

  lemma SliceOfPrefix<T>(s: seq<T>, t: seq<T>, from: nat, to: nat)
    requires from <= to <= |s|
    ensures (s + t)[from..to] == s[from..to]
  {
  }

  lemma BlockElement(
      initial: nat, index: nat, sizes: seq<nat>, blocks: seq<seq<ListNode>>, all: seq<ListNode>, j: nat)
    requires LaidOut(initial, index, sizes, blocks, all) && j < BlockSize(initial, index)
    ensures BlockStart(initial, index) + j < |all| && |blocks[index]| == BlockSize(initial, index)
    ensures blocks[index][j] == all[BlockStart(initial, index) + j]
  {
    hide BlockStart, BlockSize;
  }

  /** Where block `i` lies in the sequence of all nodes. */
  lemma BlockInPool(
      initial: nat, index: nat, sizes: seq<nat>, blocks: seq<seq<ListNode>>, all: seq<ListNode>, i: nat)
    requires LaidOut(initial, index, sizes, blocks, all) && i <= index && initial > 0
    ensures sizes[i] == |blocks[i]| == BlockSize(initial, i) >= 1
    ensures BlockStart(initial, i) + |blocks[i]| <= |all|
    ensures forall j | 0 <= j < |blocks[i]| :: blocks[i][j] == all[BlockStart(initial, i) + j]
    ensures i < index ==>
              BlockStart(initial, i) + |blocks[i]| == BlockStart(initial, i + 1) <= BlockStart(initial, index)
    ensures BlockStart(initial, 0) == 0
    ensures |all| == BlockStart(initial, index) + BlockSize(initial, index)
  {
    if i < index {
      BlocksAreInOrder(initial, i, index);
    }
  }

  /** The first `count` links are in place. */
  ghost predicate ChainedTo(nodes: seq<ListNode>, count: int)
    reads nodes
  {
    forall k | 0 <= k < count && k + 1 < |nodes| :: nodes[k].next == nodes[k + 1]
  }

  /** `list` leads through exactly `nodes`, in order, and then to NULL. */
  ghost predicate IsChain(list: ListNode?, nodes: seq<ListNode>)
    reads nodes
  {
    if nodes == [] then list == null
    else list == nodes[0] && ChainedTo(nodes, |nodes| - 1) && nodes[|nodes| - 1].next == null
  }

  /** Every link that is set goes to the next one of the first `count` nodes. */
  ghost predicate LinkedWithin(nodes: seq<ListNode>, count: nat)
    reads nodes
  {
    forall k | 0 <= k < |nodes| ::
      nodes[k].next == null || (k + 1 < count && k + 1 < |nodes| && nodes[k].next == nodes[k + 1])
  }

  lemma LinkedWithBlock(nodes: seq<ListNode>, newBlock: seq<ListNode>, count: nat)
    requires LinkedWithin(nodes, |nodes|) && |nodes| <= count && forall n | n in newBlock :: n.next == null
    ensures LinkedWithin(nodes + newBlock, count)
  {
    forall k | |nodes| <= k < |nodes + newBlock| ensures (nodes + newBlock)[k].next == null {
      assert (nodes + newBlock)[k] == newBlock[k - |nodes|];
    }
  }

  lemma EmptyChain(nodes: seq<ListNode>)
    ensures ChainedTo(nodes, 0)
  {
  }

  lemma LaidOutWithBlock(
      initial: nat, index: nat, sizes: seq<nat>, blocks: seq<seq<ListNode>>, all: seq<ListNode>,
      newBlock: seq<ListNode>)
    requires LaidOut(initial, index, sizes, blocks, all) && index + 1 < |blocks|
    requires |newBlock| == 2 * BlockSize(initial, index)
    ensures |all| == BlockStart(initial, index) + BlockSize(initial, index) == BlockStart(initial, index + 1)
    ensures BlockSize(initial, index + 1) == |newBlock|
    ensures LaidOut(initial, index + 1, sizes[index + 1 := |newBlock|], blocks[index + 1 := newBlock], all + newBlock)
  {
    hide BlockStart, BlockSize;
    var all' := all + newBlock;
    BlockStep(initial, index);
    var sizes', blocks' := sizes[index + 1 := |newBlock|], blocks[index + 1 := newBlock];
    forall i {:trigger blocks'[i]} | 0 <= i <= index
      ensures BlockStart(initial, i) + sizes'[i] <= |all'|
      ensures blocks'[i] == all'[BlockStart(initial, i)..BlockStart(initial, i) + sizes'[i]]
    {
      assert blocks'[i] == blocks[i] && sizes'[i] == sizes[i];
      SliceOfPrefix(all, newBlock, BlockStart(initial, i), BlockStart(initial, i) + sizes[i]);
    }
    assert newBlock == all'[|all|..|all| + |newBlock|];
  }

  lemma {:induction false} TwoToTheSum(a: nat, b: nat)
    ensures TwoToThe(a + b) == TwoToThe(a) * TwoToThe(b)
  {
    if b > 0 {
      TwoToTheSum(a, b - 1);
      assert TwoToThe(a + b) == 2 * TwoToThe(a + b - 1);
    }
  }

  lemma TwoToThe32()
    ensures TwoToThe(32) == UINT32_LIMIT
  {
    assert TwoToThe(4) == 16;
    TwoToTheSum(4, 4);
    TwoToTheSum(8, 8);
    TwoToTheSum(16, 16);
  }

  lemma TwoToTheStep(i: nat)
    ensures TwoToThe(i + 1) == 2 * TwoToThe(i)
  {
  }

  lemma SmallBlocksCanGrow(i: nat)
    requires i + 1 < DATA_POOL_NUM_BLOCKS
    ensures CanGrow(64 * TwoToThe(i), i)
  {
    hide TwoToThe;
    TwoToThe32();
    TwoToTheSum(i, 32 - i);
    assert TwoToThe(i) * 1 <= TwoToThe(i) * TwoToThe(32 - i);
  }

  /** A pool may try to grow while a slot of its 32 is free and the bytes of the next
      block, 64 for each element, can be counted in 64 bits. */
  lemma CanGrowIff(size: nat, index: nat)
    ensures CanGrow(size, index) <==> index < 31 && 2 * size * 64 < 0x1_0000_0000_0000_0000
  {
  }

  lemma NoSlotLeft(size: nat, index: nat)
    requires index + 1 >= DATA_POOL_NUM_BLOCKS
    ensures !CanGrow(size, index)
  {
  }

  /** A pool that starts with 64 elements can grow until the first block `stop` for
      which there is no memory, or until its 32 block slots are used, and never
      fails for an overflow: the blocks from `i` on hold 64 * (2^stop - 2^i)
      elements. */
  lemma {:induction false} RoomEndsAtFirstFailure(i: nat, stop: nat, memory: nat -> bool)
    requires i < stop <= 32 && forall k | i < k < stop :: memory(k)
    requires stop < 32 ==> !memory(stop)
    ensures RoomInLaterBlocks(64 * TwoToThe(i), i, memory) == 64 * (TwoToThe(stop) - TwoToThe(i + 1))
    decreases stop - i
  {
    hide TwoToThe, CanGrow;
    TwoToTheStep(i);
    TwoToTheStep(i + 1);
    if i + 1 < stop {
      SmallBlocksCanGrow(i);
      RoomEndsAtFirstFailure(i + 1, stop, memory);
    } else if stop == 32 {
      NoSlotLeft(64 * TwoToThe(i), i);
    }
  }

  lemma RoomFromStart(stop: nat, memory: nat -> bool)
    requires 0 < stop <= 32 && forall k | 0 < k < stop :: memory(k)
    requires stop < 32 ==> !memory(stop)
    ensures 64 + RoomInLaterBlocks(64, 0, memory) == 64 * (TwoToThe(stop) - 1)
  {
    assert TwoToThe(0) == 1 && TwoToThe(1) == 2 by {
      TwoToTheStep(0);
    }
    hide TwoToThe, RoomInLaterBlocks;
    RoomEndsAtFirstFailure(0, stop, memory);
  }

  /** With memory for every block, it holds 64 * (2^32 - 1) elements. */
  lemma RoomIsLimitedBySlots(memory: nat -> bool)
    requires forall k :: memory(k)
    ensures 64 + RoomInLaterBlocks(64, 0, memory) == 64 * 0xFFFF_FFFF
  {
    hide TwoToThe, RoomInLaterBlocks;
    RoomFromStart(32, memory);
    TwoToThe32();
  }

  class Pool {
    var index: nat
    var size: nat
    var used: nat
    var block: seq<ListNode>
    const sizes: array<nat>
    const blocks: array<seq<ListNode>>

    ghost const initial: nat
    // Every node of every block, in order. The first ones are those given out.
    ghost var all: seq<ListNode>

    ghost predicate Valid()
      reads this, sizes, blocks
    {
      && sizes.Length == DATA_POOL_NUM_BLOCKS && blocks.Length == DATA_POOL_NUM_BLOCKS
      && index < DATA_POOL_NUM_BLOCKS && initial > 0
      && size == BlockSize(initial, index) && size * ELEMENT_SIZE <= SIZE_MAX
      && used <= size && (index > 0 ==> used > 0)
      && block == blocks[index]
      && LaidOut(initial, index, sizes[..], blocks[..], all)
      && Distinct(all)
    }

    /** How many elements have been allocated. */
    ghost function Count(): nat
      reads this
    {
      BlockStart(initial, index) + used
    }

    /** The allocated elements, oldest first. */
    ghost function Elements(): seq<ListNode>
      requires Valid()
      reads this, sizes, blocks
    {
      all[..Count()]
    }

    /** The entry data of nodes not given out yet. */
    ghost function Spare(): set<object>
      reads this
    {
      set k | Count() <= k < |all| :: all[k].entryData
    }

    ghost predicate Linked()
      reads this, all
    {
      LinkedWithin(all, Count())
    }

    /** How many more allocations can succeed. */
    ghost function Room(memory: nat -> bool): nat
      reads this
    {
      (if used < size then size - used else 0) + RoomInLaterBlocks(size, index, memory)
    }

    /** data_pool_new, when it succeeds. */
    constructor (initialSize: nat)
      requires initialSize > 0 && initialSize * ELEMENT_SIZE <= SIZE_MAX
      ensures Valid() && Linked() && Count() == 0 && initial == initialSize == size && index == 0 == used
      ensures fresh(sizes) && fresh(blocks)
      ensures forall n | n in all :: fresh(n) && fresh(n.entryData)
      ensures all[0].pool == this
    {
      var first := Calloc(initialSize);
      var sizeTable := new nat[DATA_POOL_NUM_BLOCKS](_ => 0);
      var blockTable := new seq<ListNode>[DATA_POOL_NUM_BLOCKS](_ => []);
      blockTable[0] := first;
      sizeTable[0] := initialSize;
      index, size, used, block := 0, initialSize, 0, first;
      sizes, blocks := sizeTable, blockTable;
      initial, all := initialSize, first;
      new;
      assert first[0] in first;
      first[0].pool := this;
    }

    /** data_pool_alloc: it fails exactly when there is no room left, and then
        changes nothing; otherwise it appends one element and touches no node. */
    method Alloc(memory: nat -> bool) returns (element: ListNode?)
      requires Valid() && Linked()
      modifies this, sizes, blocks
      ensures Valid() && Linked()
      ensures forall o | o in Spare() :: o in old(Spare()) || fresh(o)
      ensures old(all) <= all && forall n | n in all :: n in old(all) || fresh(n)
      ensures old(Room(memory)) == 0 ==> element == null && Elements() == old(Elements()) && Room(memory) == 0
      ensures old(Room(memory)) > 0 ==>
                && element != null && (element.entryData in old(Spare()) || fresh(element.entryData))
                && Elements() == old(Elements()) + [element]
                && Room(memory) == old(Room(memory)) - 1
    {
      hide BlockStart, BlockSize, LaidOut;
      if used < size {
        BlockElement(initial, index, sizes[..], blocks[..], all, used);
        element := block[used];
        assert all[..Count() + 1] == all[..Count()] + [element];
        used := used + 1;
        return element;
      }
      element := AllocFromNewBlock(memory);
    }

    /** data_pool_alloc when the current block is full. */
    method AllocFromNewBlock(memory: nat -> bool) returns (element: ListNode?)
      requires Valid() && Linked() && used == size
      modifies this, sizes, blocks
      ensures Valid() && Linked()
      ensures forall o | o in Spare() :: o in old(Spare()) || fresh(o)
      ensures old(all) <= all && forall n | n in all :: n in old(all) || fresh(n)
      ensures old(Room(memory)) == 0 ==> element == null && Elements() == old(Elements()) && Room(memory) == 0
      ensures old(Room(memory)) > 0 ==>
                && element != null && (element.entryData in old(Spare()) || fresh(element.entryData))
                && Elements() == old(Elements()) + [element]
                && Room(memory) == old(Room(memory)) - 1
    {
      hide BlockStart, BlockSize, LaidOut, Spare;
      var newIndex := index + 1;
      if newIndex == DATA_POOL_NUM_BLOCKS {
        return null;
      }
      CanMultiplyIsExact(SIZE_MAX, size, 2);
      if !CanMultiply(SIZE_MAX, size, 2) {
        return null;
      }
      var newSize := size * 2;
      CanMultiplyIsExact(SIZE_MAX, newSize, ELEMENT_SIZE);
      if !CanMultiply(SIZE_MAX, newSize, ELEMENT_SIZE) {
        return null;
      }
      if !memory(newIndex) {
        return null;
      }
      var newBlock := Calloc(newSize);
      assert newBlock[0] in newBlock;
      newBlock[0].pool := this;
      AddBlock(newBlock);
      return block[0];
    }

    /** The end of data_pool_alloc, from storing the new block on. */
    method AddBlock(newBlock: seq<ListNode>)
      requires Valid() && Linked() && used == size
      requires CanGrow(size, index) && |newBlock| == 2 * size && Distinct(all + newBlock)
      requires forall n | n in newBlock :: n.next == null
      modifies this, sizes, blocks
      ensures Valid() && Linked() && index == old(index) + 1 && size == 2 * old(size) && used == 1
      ensures all == old(all) + newBlock && block == newBlock
      ensures forall o | o in Spare() :: exists n :: n in newBlock && o == n.entryData
      ensures Elements() == old(Elements()) + [newBlock[0]]
    {
      hide LinkedWithin, BlockStart, BlockSize, LaidOut, Distinct;
      LaidOutWithBlock(initial, index, sizes[..], blocks[..], all, newBlock);
      LinkedWithBlock(all, newBlock, |all| + 1);
      var newIndex := index + 1;
      blocks[newIndex] := newBlock;
      index := newIndex;
      block := blocks[index];
      size := 2 * size;
      sizes[index] := size;
      used := 1;
      all := all + newBlock;
      assert sizes[..] == old(sizes[..])[newIndex := size] && blocks[..] == old(blocks[..])[newIndex := newBlock];
      assert old(Elements()) == old(all);
      assert Elements() == old(all) + [newBlock[0]];
    }

    /** data_pool_to_list: the allocated elements, in the order of allocation, as
        a chain that ends. It can be called again after further allocations. */
    method ToList() returns (list: ListNode?)
      requires Valid() && Linked()
      modifies set n | n in all
      ensures Valid() && Linked() && all == old(all) && Elements() == old(Elements())
      ensures Elements() == [] ==> list == null
      ensures Elements() != [] ==> list == Elements()[0] && IsChain(list, Elements())
      ensures forall n | n in all :: n.pool == old(n.pool)
    {
      hide BlockStart, BlockSize, LaidOut, LinkedWithin, ChainedTo, IsChain, Distinct;
      BlockInPool(initial, index, sizes[..], blocks[..], all, 0);
      EmptyChain(all);
      if index == 0 && used == 0 {
        return null;
      }
      var i := 0;
      while i <= index
        invariant 0 <= i <= index + 1
        invariant Valid() && Linked()
        invariant ChainedTo(all, if i <= index then BlockStart(initial, i) else Count() - 1)
        invariant forall n | n in all :: n.pool == old(n.pool)
      {
        LinkFromBlock(i);
        i := i + 1;
      }
      list := blocks[0][0];
      ElementsAreChained();
    }

    /** One round of the outer loop of data_pool_to_list: links block `i`, and its
        last element to the first of the next block. */
    method LinkFromBlock(i: nat)
      requires Valid() && Linked() && i <= index && Count() > 0
      requires ChainedTo(all, BlockStart(initial, i))
      modifies set n | n in all
      ensures Linked() && ChainedTo(all, if i < index then BlockStart(initial, i + 1) else Count() - 1)
      ensures forall n | n in all :: n.pool == old(n.pool)
    {
      hide BlockStart, BlockSize, LaidOut, Linked, ChainedTo, Distinct;
      var current := blocks[i];
      var count := if i == index then used else sizes[i];
      BlockInPool(initial, index, sizes[..], blocks[..], all, i);
      ghost var start := BlockStart(initial, i);
      assert count >= 1;
      LinkBlock(start, current, count);
      if i < index {
        BlockInPool(initial, index, sizes[..], blocks[..], all, i + 1);
        assert current[count - 1] == all[start + count - 1] && blocks[i + 1][0] == all[start + count];
        LinkOne(start + count - 1, current[count - 1], blocks[i + 1][0]);
      }
    }

    /** One assignment to a next member. */
    method LinkOne(ghost k: nat, node: ListNode, next: ListNode)
      requires Distinct(all) && Linked() && ChainedTo(all, k)
      requires k + 1 < Count() <= |all| && node == all[k] && next == all[k + 1]
      modifies node`next
      ensures Linked() && ChainedTo(all, k + 1)
    {
      hide BlockStart;
      node.next := next;
    }

    /** The inner loop of data_pool_to_list, over the elements of one block. */
    method LinkBlock(ghost start: nat, current: seq<ListNode>, count: nat)
      requires Valid() && Linked() && ChainedTo(all, start)
      requires 1 <= count <= |current| && start + count <= Count() <= |all|
      requires start + |current| <= |all| && forall j | 0 <= j < |current| :: current[j] == all[start + j]
      modifies set n | n in all
      ensures Linked() && ChainedTo(all, start + count - 1)
      ensures forall n | n in all :: n.pool == old(n.pool)
    {
      hide Valid, BlockStart, Linked, ChainedTo;
      assert Distinct(all) by { ValidIsDistinct(); }
      var j := 0;
      while j < count - 1
        invariant 0 <= j <= count - 1
        invariant Linked() && ChainedTo(all, start + j)
        invariant forall n | n in all :: n.pool == old(n.pool)
      {
        assert current[j] == all[start + j] && current[j + 1] == all[start + j + 1];
        LinkOne(start + j, current[j], current[j + 1]);
        j := j + 1;
      }
    }

    lemma ElementsAreChained()
      requires Valid() && Linked() && Count() > 0 && ChainedTo(all, Count() - 1)
      ensures IsChain(all[0], Elements())
    {
      hide BlockStart, LaidOut;
      BlockInPool(initial, index, sizes[..], blocks[..], all, 0);
      forall k | 0 <= k < Count() - 1 ensures Elements()[k].next == Elements()[k + 1] {
        assert all[k].next == all[k + 1];
      }
    }

    /** After n allocations, n = initial * (2^index - 1) + used. */
    lemma CountInClosedForm()
      ensures Count() == initial * (TwoToThe(index) - 1) + used
    {
      BlocksDouble(initial, index);
    }

    /** The entry data of a node given out is not spare, nor that of another node. */
    lemma GivenOutIsApart(i: nat)
      requires Valid() && i < |Elements()|
      ensures Elements()[i].entryData !in Spare()
      ensures forall j | 0 <= j < |Elements()| && j != i :: Elements()[j].entryData != Elements()[i].entryData
    {
      hide BlockStart, BlockSize;
      forall j | 0 <= j < |Elements()| && j != i ensures Elements()[j].entryData != Elements()[i].entryData {
        assert if j < i then all[j].entryData != all[i].entryData else all[i].entryData != all[j].entryData;
      }
    }

    lemma ValidIsDistinct()
      requires Valid()
      ensures Distinct(all) && Elements() <= all
    {
    }
  }

  /** data_pool_new; `memory(0)` says whether its allocations succeed. */
  method NewPool(size: nat, memory: nat -> bool) returns (pool: Pool?)
    ensures pool == null <==> size == 0 || size * ELEMENT_SIZE > SIZE_MAX || !memory(0)
    ensures pool != null ==>
              && fresh(pool) && fresh(pool.sizes) && fresh(pool.blocks)
              && pool.Valid() && pool.Linked() && pool.Elements() == []
              && pool.initial == size && pool.size == size && pool.index == 0 && pool.used == 0
              && |pool.all| == size && pool.all[0].pool == pool
              && forall n | n in pool.all :: fresh(n) && fresh(n.entryData)
  {
    CanMultiplyIsExact(SIZE_MAX, size, ELEMENT_SIZE);
    if size == 0 || !CanMultiply(SIZE_MAX, size, ELEMENT_SIZE) || !memory(0) {
      return null;
    }
    pool := new Pool(size);
  }
}
