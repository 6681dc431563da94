/** get_entry_data_list and MMDB_get_entry_data_list on the real pool: the list
    that is returned shows exactly the items of `Flatten`, one node each. */
module EntryList {
  import opened Base
  import opened Wire
  import opened Decoding
  import opened Flattening
  import opened DataPool

  const MMDB_POOL_INIT_SIZE := 64

  /** Node by node, the list shows `items`. */
  ghost predicate ShowsAll(nodes: seq<ListNode>, items: seq<Decoded>)
    reads set n | n in nodes :: n.entryData
  {
    |nodes| == |items| && forall i | 0 <= i < |nodes| :: nodes[i].entryData.Shows(items[i])
  }

  /** `list` is a chain that shows `items`. */
  ghost predicate Lists(list: ListNode?, nodes: seq<ListNode>, items: seq<Decoded>)
    reads nodes, set n | n in nodes :: n.entryData
  {
    IsChain(list, nodes) && ShowsAll(nodes, items) && forall d | d in items :: IsExact(d.field)
  }

  /** What the C code knows of the list it is at. */
  lemma NextInList(list: ListNode?, nodes: seq<ListNode>, items: seq<Decoded>)
    requires Lists(list, nodes, items)
    ensures list == null <==> items == []
    ensures items != [] ==>
              && nodes != [] && list.entryData.Shows(items[0]) && IsExact(items[0].field)
              && Lists(list.next, nodes[1..], items[1..])
  {
    hide IsExact, EntryData.Shows;
    if items != [] {
      assert items[0] in items;
    }
  }

  function StatusOfFlat(r: Flat): Status {
    match r
    case Listed(_) => Success
    case Failed(status) => status
  }

  function StatusOfKids(r: FlatKids): Status {
    match r
    case KidsListed(_, _) => Success
    case KidsFailed(status) => status
  }

  /** The pool is in order, and what it held is still there. */
  ghost predicate Grown(all: seq<ListNode>, elements: seq<ListNode>, pool: Pool)
    reads pool, pool.sizes, pool.blocks, pool.all
  {
    pool.Valid() && pool.Linked() && all <= pool.all && elements <= pool.Elements()
  }

  /** Allocating a node for a child and filling in its subtree. The nodes from
      number `base` on, which showed `items`, still do, followed by the child's. */
  method ListChild(
      mem: seq<byte>, at: uint32, pool: Pool, memory: nat -> bool, depth: nat, ghost base: nat,
      ghost items: seq<Decoded>)
    returns (status: Status, next: uint32)
    requires Readable(mem) && pool.Valid() && pool.Linked()
    requires base <= |pool.Elements()| && ShowsAll(pool.Elements()[base..], items)
    modifies pool, pool.sizes, pool.blocks, pool.Spare()
    ensures Grown(old(pool.all), old(pool.Elements()), pool)
    ensures forall o | o in pool.Spare() :: o in old(pool.Spare()) || fresh(o)
    ensures forall n | n in pool.all :: n in old(pool.all) || fresh(n)
    ensures old(pool.Room(memory)) == 0 ==> status == OutOfMemory
    ensures old(pool.Room(memory)) > 0 ==>
              var r := Flatten(mem, at, depth, old(pool.Room(memory)) - 1, true);
              && status == StatusOfFlat(r)
              && (r.Listed? ==>
                    && pool.Room(memory) == old(pool.Room(memory)) - |r.items|
                    && ShowsAll(pool.Elements()[base..], items + r.items)
                    && next == r.items[0].next)
    decreases MAXIMUM_DATA_STRUCTURE_DEPTH - depth, 1
  {
    hide Flatten, ShowsAll, Pool.Valid, Pool.Linked, Pool.Room, Pool.Spare;
    next := 0;
    ghost var before := |pool.Elements()|;
    ghost var shown := pool.Elements()[base..];
    assert ShowsAll(shown, items);
    var child := pool.Alloc(memory);
    assert ShowsAll(shown, items);
    if child == null {
      return OutOfMemory, next;
    }
    assert child == pool.Elements()[before] && shown == pool.Elements()[base..before];
    ShownIsApart(pool, base, before);
    ghost var room := pool.Room(memory);
    assert room == old(pool.Room(memory)) - 1;
    label Before:
    status := GetEntryDataList(mem, at, child, pool, memory, depth);
    ghost var nodes := pool.Elements();
    assert shown == nodes[base..before];
    forall n | n in shown ensures unchanged@Before(n.entryData) {
      assert n in old@Before(pool.Elements());
    }
    assert ShowsAll(shown, items);
    if status == Success {
      next := child.entryData.offsetToNext;
      ghost var r := Flatten(mem, at, depth, room, true);
      assert r.Listed? && pool.Room(memory) == room - (|r.items| - 1);
      AppendShown(nodes, base, before, items, r.items);
    }
  }

  lemma ShownIsApart(pool: Pool, base: nat, last: nat)
    requires pool.Valid() && base <= last < |pool.Elements()|
    ensures forall n | n in pool.Elements()[base..last] ::
              n.entryData !in pool.Spare() && n.entryData != pool.Elements()[last].entryData
  {
    hide Pool.Valid, Pool.Spare;
    forall i | base <= i < last
      ensures pool.Elements()[i].entryData !in pool.Spare()
      ensures pool.Elements()[i].entryData != pool.Elements()[last].entryData
    {
      pool.GivenOutIsApart(i);
    }
  }

  lemma LastIsShown(nodes: seq<ListNode>, d: Decoded)
    requires nodes != [] && nodes[|nodes| - 1].entryData.Shows(d)
    ensures ShowsAll(nodes[|nodes| - 1..], [d])
  {
  }

  lemma TailIsShown(nodes: seq<ListNode>, last: nat, items: seq<Decoded>)
    requires 0 < last <= |nodes| && ShowsAll(nodes[last - 1..], items)
    ensures items != [] && nodes[last - 1].entryData.Shows(items[0]) && ShowsAll(nodes[last..], items[1..])
  {
    assert nodes[last - 1..][0] == nodes[last - 1];
    forall i | 0 <= i < |nodes[last..]| ensures nodes[last..][i].entryData.Shows(items[1..][i]) {
      assert nodes[last..][i] == nodes[last - 1..][i + 1];
    }
  }

  lemma AppendShown(nodes: seq<ListNode>, base: nat, middle: nat, a: seq<Decoded>, b: seq<Decoded>)
    requires base <= middle <= |nodes| && ShowsAll(nodes[base..middle], a) && ShowsAll(nodes[middle..], b)
    ensures ShowsAll(nodes[base..], a + b)
  {
    assert nodes[base..] == nodes[base..middle] + nodes[middle..];
  }

  /** The loop over array elements. */
  method ListElements(
      mem: seq<byte>, from: uint32, count: nat, pool: Pool, memory: nat -> bool, depth: nat, ghost base: nat,
      ghost head: seq<Decoded>)
    returns (status: Status, end: uint32)
    requires Readable(mem) && pool.Valid() && pool.Linked()
    requires base <= |pool.Elements()| && ShowsAll(pool.Elements()[base..], head)
    modifies pool, pool.sizes, pool.blocks, pool.Spare()
    ensures Grown(old(pool.all), old(pool.Elements()), pool)
    ensures forall o | o in pool.Spare() :: o in old(pool.Spare()) || fresh(o)
    ensures forall n | n in pool.all :: n in old(pool.all) || fresh(n)
    ensures var r := FlattenKids(mem, from, count, depth, old(pool.Room(memory)), true);
            && status == StatusOfKids(r)
            && (r.KidsListed? ==>
                  && pool.Room(memory) == old(pool.Room(memory)) - |r.items|
                  && ShowsAll(pool.Elements()[base..], head + r.items)
                  && end == r.end)
    decreases MAXIMUM_DATA_STRUCTURE_DEPTH - depth, 2
  {
    hide Flatten, FlattenKids, ShowsAll, Pool.Valid, Pool.Linked, Pool.Room, Pool.Spare;
    end := from;
    var size := count;
    ghost var items: seq<Decoded> := [];
    assert head + [] == head;
    while size > 0
      invariant Grown(old(pool.all), old(pool.Elements()), pool)
      invariant forall o | o in pool.Spare() :: o in old(pool.Spare()) || fresh(o)
      invariant forall n | n in pool.all :: n in old(pool.all) || fresh(n)
      invariant pool.Room(memory) == old(pool.Room(memory)) - |items|
      invariant ShowsAll(pool.Elements()[base..], head + items)
      invariant FlattenKids(mem, from, count, depth, old(pool.Room(memory)), true)
             == WithItems(items, FlattenKids(mem, end, size, depth, pool.Room(memory), true))
    {
      size := size - 1;
      ghost var room, at := pool.Room(memory), end;
      KidsStep(mem, at, size + 1, depth, room, true);
      status, end := ListChild(mem, end, pool, memory, depth, base, head + items);
      if status != Success {
        return status, end;
      }
      ghost var child := Flatten(mem, at, depth, room - 1, true).items;
      WithItemsTwice(items, child, FlattenKids(mem, end, size, depth, room - |child|, true));
      assert head + items + child == head + (items + child);
      items := items + child;
    }
    assert items + [] == items;
    NoKids(mem, end, depth, pool.Room(memory), true);
    return Success, end;
  }

  /** One map entry: a node for the key, then one for the value. */
  method ListEntry(
      mem: seq<byte>, from: uint32, pool: Pool, memory: nat -> bool, depth: nat, ghost base: nat,
      ghost head: seq<Decoded>)
    returns (status: Status, end: uint32)
    requires Readable(mem) && pool.Valid() && pool.Linked()
    requires base <= |pool.Elements()| && ShowsAll(pool.Elements()[base..], head)
    modifies pool, pool.sizes, pool.blocks, pool.Spare()
    ensures Grown(old(pool.all), old(pool.Elements()), pool)
    ensures forall o | o in pool.Spare() :: o in old(pool.Spare()) || fresh(o)
    ensures forall n | n in pool.all :: n in old(pool.all) || fresh(n)
    ensures var r := FlattenKids(mem, from, 2, depth, old(pool.Room(memory)), true);
            && status == StatusOfKids(r)
            && (r.KidsListed? ==>
                  && pool.Room(memory) == old(pool.Room(memory)) - |r.items|
                  && ShowsAll(pool.Elements()[base..], head + r.items)
                  && end == r.end)
    decreases MAXIMUM_DATA_STRUCTURE_DEPTH - depth, 2, 0
  {
    hide Flatten, ShowsAll, Pool.Valid, Pool.Linked, Pool.Room, Pool.Spare;
    end := from;
    ghost var room := pool.Room(memory);
    status, end := ListChild(mem, end, pool, memory, depth, base, head);
    if status != Success {
      return status, end;
    }
    ghost var key := Flatten(mem, from, depth, room - 1, true).items;
    ghost var room', at' := pool.Room(memory), end;
    status, end := ListChild(mem, end, pool, memory, depth, base, head + key);
    if status != Success {
      return status, end;
    }
    ghost var value := Flatten(mem, at', depth, room' - 1, true).items;
    assert head + key + value == head + (key + value);
    assert FlattenKids(mem, end, 0, depth, room' - |value|, true) == KidsListed([], end);
    assert key + (value + []) == key + value;
  }

  /** The loop over map entries. */
  method ListEntries(
      mem: seq<byte>, from: uint32, count: nat, pool: Pool, memory: nat -> bool, depth: nat, ghost base: nat,
      ghost head: seq<Decoded>)
    returns (status: Status, end: uint32)
    requires Readable(mem) && pool.Valid() && pool.Linked()
    requires base <= |pool.Elements()| && ShowsAll(pool.Elements()[base..], head)
    modifies pool, pool.sizes, pool.blocks, pool.Spare()
    ensures Grown(old(pool.all), old(pool.Elements()), pool)
    ensures forall o | o in pool.Spare() :: o in old(pool.Spare()) || fresh(o)
    ensures forall n | n in pool.all :: n in old(pool.all) || fresh(n)
    ensures var r := FlattenKids(mem, from, 2 * count, depth, old(pool.Room(memory)), true);
            && status == StatusOfKids(r)
            && (r.KidsListed? ==>
                  && pool.Room(memory) == old(pool.Room(memory)) - |r.items|
                  && ShowsAll(pool.Elements()[base..], head + r.items)
                  && end == r.end)
    decreases MAXIMUM_DATA_STRUCTURE_DEPTH - depth, 2, 1
  {
    hide Flatten, FlattenKids, ShowsAll, Pool.Valid, Pool.Linked, Pool.Room, Pool.Spare;
    end := from;
    var size := count;
    ghost var items: seq<Decoded> := [];
    assert head + [] == head;
    while size > 0
      invariant Grown(old(pool.all), old(pool.Elements()), pool)
      invariant forall o | o in pool.Spare() :: o in old(pool.Spare()) || fresh(o)
      invariant forall n | n in pool.all :: n in old(pool.all) || fresh(n)
      invariant pool.Room(memory) == old(pool.Room(memory)) - |items|
      invariant ShowsAll(pool.Elements()[base..], head + items)
      invariant FlattenKids(mem, from, 2 * count, depth, old(pool.Room(memory)), true)
             == WithItems(items, FlattenKids(mem, end, 2 * size, depth, pool.Room(memory), true))
    {
      size := size - 1;
      ghost var room, at := pool.Room(memory), end;
      status, end := ListEntry(mem, end, pool, memory, depth, base, head + items);
      FlattenKidsSplit(mem, at, 2, 2 * size, depth, room, true);
      if status != Success {
        return status, end;
      }
      ghost var entry := FlattenKids(mem, at, 2, depth, room, true).items;
      WithItemsTwice(items, entry, FlattenKids(mem, end, 2 * size, depth, room - |entry|, true));
      assert head + items + entry == head + (items + entry);
      items := items + entry;
    }
    assert items + [] == items;
    NoKids(mem, end, depth, pool.Room(memory), true);
    return Success, end;
  }

  /** The array case of get_entry_data_list. */
  method ListArray(
      mem: seq<byte>, node: ListNode, pool: Pool, memory: nat -> bool, depth: nat, ghost d: Decoded)
    returns (status: Status)
    requires Readable(mem) && pool.Valid() && pool.Linked()
    requires pool.Elements() != [] && node == pool.Elements()[|pool.Elements()| - 1]
    requires d.field.Array? && node.entryData.Shows(d) && d.next <= |mem|
    modifies pool, pool.sizes, pool.blocks, pool.Spare(), node.entryData
    ensures Grown(old(pool.all), old(pool.Elements()), pool)
    ensures forall o | o in pool.Spare() :: o in old(pool.Spare()) || fresh(o)
    ensures forall n | n in pool.all :: n in old(pool.all) || fresh(n)
    ensures var r := if d.field.count > |mem| - d.next then Failed(InvalidData)
                     else WithHead(d, FlattenKids(mem, d.next, d.field.count, depth, old(pool.Room(memory)), true));
            && status == StatusOfFlat(r)
            && (r.Listed? ==>
                  && pool.Room(memory) == old(pool.Room(memory)) - (|r.items| - 1)
                  && ShowsAll(pool.Elements()[|old(pool.Elements())| - 1..], r.items))
    decreases MAXIMUM_DATA_STRUCTURE_DEPTH - depth, 3
  {
    hide Flatten, FlattenKids, ShowsAll, Pool.Valid, Pool.Linked, Pool.Room, Pool.Spare;
    var sectionSize: uint32 := |mem|;
    var arraySize := node.entryData.dataSize;
    var arrayOffset := node.entryData.offsetToNext;
    if arrayOffset > sectionSize || arraySize > sectionSize - arrayOffset {
      return InvalidData;
    }
    ghost var last := |pool.Elements()|;
    NodeIsApart(pool);
    NothingShown(pool.Elements());
    status, arrayOffset := ListElements(mem, arrayOffset, arraySize, pool, memory, depth, last, []);
    if status != Success {
      return status;
    }
    assert node.entryData.Shows(d);
    ghost var kids := FlattenKids(mem, d.next, d.field.count, depth, old(pool.Room(memory)), true).items;
    assert [] + kids == kids;
    SetNext(node, pool, last, arrayOffset, d, kids);
  }

  /** The map case of get_entry_data_list. */
  method ListMap(
      mem: seq<byte>, node: ListNode, pool: Pool, memory: nat -> bool, depth: nat, ghost d: Decoded)
    returns (status: Status)
    requires Readable(mem) && pool.Valid() && pool.Linked()
    requires pool.Elements() != [] && node == pool.Elements()[|pool.Elements()| - 1]
    requires d.field.Map? && node.entryData.Shows(d) && d.next <= |mem|
    modifies pool, pool.sizes, pool.blocks, pool.Spare(), node.entryData
    ensures Grown(old(pool.all), old(pool.Elements()), pool)
    ensures forall o | o in pool.Spare() :: o in old(pool.Spare()) || fresh(o)
    ensures forall n | n in pool.all :: n in old(pool.all) || fresh(n)
    ensures var r := if d.field.count > (|mem| - d.next) / 2 then Failed(InvalidData)
                     else WithHead(d, FlattenKids(mem, d.next, 2 * d.field.count, depth, old(pool.Room(memory)), true));
            && status == StatusOfFlat(r)
            && (r.Listed? ==>
                  && pool.Room(memory) == old(pool.Room(memory)) - (|r.items| - 1)
                  && ShowsAll(pool.Elements()[|old(pool.Elements())| - 1..], r.items))
    decreases MAXIMUM_DATA_STRUCTURE_DEPTH - depth, 3
  {
    hide Flatten, FlattenKids, ShowsAll, Pool.Valid, Pool.Linked, Pool.Room, Pool.Spare;
    var sectionSize: uint32 := |mem|;
    var size := node.entryData.dataSize;
    var offset: uint32 := node.entryData.offsetToNext;
    if offset > sectionSize || size > (sectionSize - offset) / 2 {
      return InvalidData;
    }
    ghost var last := |pool.Elements()|;
    NodeIsApart(pool);
    NothingShown(pool.Elements());
    status, offset := ListEntries(mem, offset, size, pool, memory, depth, last, []);
    if status != Success {
      return status;
    }
    assert node.entryData.Shows(d);
    ghost var kids := FlattenKids(mem, d.next, 2 * d.field.count, depth, old(pool.Room(memory)), true).items;
    assert [] + kids == kids;
    SetNext(node, pool, last, offset, d, kids);
  }

  /** The pointer case of get_entry_data_list. */
  method ListTarget(
      mem: seq<byte>, node: ListNode, pool: Pool, memory: nat -> bool, depth: nat, ghost d: Decoded)
    returns (status: Status)
    requires Readable(mem) && pool.Valid() && pool.Linked()
    requires pool.Elements() != [] && node == pool.Elements()[|pool.Elements()| - 1]
    requires d.field.Pointer? && d.field.target < UINT32_LIMIT && node.entryData.Shows(d) && d.next <= |mem|
    modifies pool, pool.sizes, pool.blocks, pool.Spare(), node.entryData
    ensures Grown(old(pool.all), old(pool.Elements()), pool)
    ensures forall o | o in pool.Spare() :: o in old(pool.Spare()) || fresh(o)
    ensures forall n | n in pool.all :: n in old(pool.all) || fresh(n)
    ensures var r := FlattenTarget(mem, d.field.target, d.next, depth, old(pool.Room(memory)), true);
            && status == StatusOfFlat(r)
            && (r.Listed? ==>
                  && pool.Room(memory) == old(pool.Room(memory)) - (|r.items| - 1)
                  && ShowsAll(pool.Elements()[|old(pool.Elements())| - 1..], r.items))
    decreases MAXIMUM_DATA_STRUCTURE_DEPTH - depth, 1
  {
    hide Decode, Flatten, ShowsAll, Pool.Valid, Pool.Linked, Pool.Room, Pool.Spare;
    var nextOffset := node.entryData.offsetToNext;
    var lastOffset: uint32 := node.entryData.value.target;
    ghost var last := |pool.Elements()|;
    status := node.entryData.DecodeOne(mem, lastOffset);
    if status != Success {
      return status;
    }
    ghost var target := Decode(mem, lastOffset).value;
    DecodedTypeIsExact(mem, lastOffset);
    if node.entryData.typ == TYPE_POINTER {
      return InvalidData;
    }
    ghost var items := [target];
    if node.entryData.typ == TYPE_ARRAY || node.entryData.typ == TYPE_MAP {
      status := GetEntryDataList(mem, lastOffset, node, pool, memory, depth);
      if status != Success {
        return status;
      }
      items := Flatten(mem, lastOffset, depth, old(pool.Room(memory)), true).items;
    } else {
      LastIsShown(pool.Elements(), target);
      assert items[1..] == [] && [target.(next := nextOffset)] + [] == [target.(next := nextOffset)];
    }
    assert node == old(pool.Elements())[last - 1] == pool.Elements()[last - 1];
    TailIsShown(pool.Elements(), last, items);
    SetNext(node, pool, last, nextOffset, items[0], items[1..]);
  }

  /** The assignment to offset_to_next once the children are listed. */
  method SetNext(node: ListNode, pool: Pool, ghost last: nat, next: uint32, ghost d: Decoded, ghost items: seq<Decoded>)
    requires pool.Valid() && 0 < last <= |pool.Elements()| && node == pool.Elements()[last - 1]
    requires node.entryData.Shows(d) && ShowsAll(pool.Elements()[last..], items)
    modifies node.entryData`offsetToNext
    ensures ShowsAll(pool.Elements()[last - 1..], [d.(next := next)] + items)
  {
    hide Pool.Valid;
    pool.GivenOutIsApart(last - 1);
    assert forall i | last <= i < |pool.Elements()| :: pool.Elements()[last..][i - last] == pool.Elements()[i];
    node.entryData.offsetToNext := next;
    assert pool.Elements()[last - 1..last] == [node];
    AppendShown(pool.Elements(), last - 1, last, [d.(next := next)], items);
  }

  lemma NothingShown(nodes: seq<ListNode>)
    ensures ShowsAll(nodes[|nodes|..], [])
  {
  }

  lemma NodeIsApart(pool: Pool)
    requires pool.Valid() && pool.Elements() != []
    ensures pool.Elements()[|pool.Elements()| - 1].entryData !in pool.Spare()
  {
    hide Pool.Valid, Pool.Spare;
    pool.GivenOutIsApart(|pool.Elements()| - 1);
  }

  method GetEntryDataList(mem: seq<byte>, at: uint32, node: ListNode, pool: Pool, memory: nat -> bool, depth: nat)
    returns (status: Status)
    requires Readable(mem) && pool.Valid() && pool.Linked()
    requires pool.Elements() != [] && node == pool.Elements()[|pool.Elements()| - 1]
    modifies pool, pool.sizes, pool.blocks, pool.Spare(), node.entryData
    ensures pool.Valid() && pool.Linked()
    ensures old(pool.all) <= pool.all
    ensures forall o | o in pool.Spare() :: o in old(pool.Spare()) || fresh(o)
    ensures forall n | n in pool.all :: n in old(pool.all) || fresh(n)
    ensures old(pool.Elements()) <= pool.Elements()
    ensures var r := Flatten(mem, at, depth, old(pool.Room(memory)), true);
            && status == StatusOfFlat(r)
            && (r.Listed? ==>
                  && pool.Room(memory) == old(pool.Room(memory)) - (|r.items| - 1)
                  && ShowsAll(pool.Elements()[|old(pool.Elements())| - 1..], r.items)
                  && node.entryData.offsetToNext == r.items[0].next)
    decreases MAXIMUM_DATA_STRUCTURE_DEPTH - depth, 0
  {
    hide Decode, Pool.Valid, Pool.Linked, Pool.Room;
    if depth >= MAXIMUM_DATA_STRUCTURE_DEPTH {
      return InvalidData;
    }
    status := node.entryData.DecodeOne(mem, at);
    if status != Success {
      return status;
    }
    ghost var d := Decode(mem, at).value;
    DecodedTypeIsExact(mem, at);
    if node.entryData.typ == TYPE_POINTER {
      status := ListTarget(mem, node, pool, memory, depth + 1, d);
    } else if node.entryData.typ == TYPE_ARRAY {
      status := ListArray(mem, node, pool, memory, depth + 1, d);
    } else if node.entryData.typ == TYPE_MAP {
      status := ListMap(mem, node, pool, memory, depth + 1, d);
    }
    return status;
  }

  /** How many nodes a list can have, beyond its first. */
  function ListRoom(memory: nat -> bool): nat {
    MMDB_POOL_INIT_SIZE - 1 + RoomInLaterBlocks(MMDB_POOL_INIT_SIZE, 0, memory)
  }

  /** A list can have as many nodes as the blocks of 64, 128, 256, ... nodes up to the
      first that is refused. */
  lemma ListRoomIsExact(memory: nat -> bool, stop: nat)
    requires 0 < stop <= 32 && (forall k | 0 < k < stop :: memory(k)) && (stop < 32 ==> !memory(stop))
    ensures 1 + ListRoom(memory) == 64 * (TwoToThe(stop) - 1)
  {
    hide TwoToThe, RoomInLaterBlocks;
    RoomFromStart(stop, memory);
  }

  /** MMDB_get_entry_data_list up to the linking of the list: the pool that holds
      the nodes, when it could be filled. */
  method FillPool(mem: seq<byte>, start: uint32, memory: nat -> bool) returns (status: Status, pool: Pool?)
    requires Readable(mem)
    ensures pool != null <==> status == Success
    ensures !memory(0) ==> status == OutOfMemory
    ensures memory(0) ==> status == StatusOfFlat(Flatten(mem, start, 0, ListRoom(memory), true))
    ensures pool != null ==>
              && fresh(pool) && pool.Valid() && pool.Linked() && pool.Elements() != []
              && (forall n | n in pool.all :: fresh(n))
              && pool.Elements()[0].pool == pool
              && ShowsAll(pool.Elements(), Flatten(mem, start, 0, ListRoom(memory), true).items)
  {
    hide Flatten, Pool.Valid, Pool.Linked, RoomInLaterBlocks, ShowsAll;
    pool := NewPool(MMDB_POOL_INIT_SIZE, memory);
    if pool == null {
      return OutOfMemory, null;
    }
    var first := pool.Alloc(memory);
    if first == null {
      return OutOfMemory, null;
    }
    assert first == pool.Elements()[0] == pool.all[0];
    assert forall n | n in pool.all :: fresh(n);
    status := GetEntryDataList(mem, start, first, pool, memory, 0);
    if status != Success {
      return status, null;
    }
    assert pool.Elements()[0] == first;
    assert pool.Elements()[0..] == pool.Elements();
  }

  /** MMDB_get_entry_data_list: on success `list` is a chain of the nodes, headed
      by the one that owns the pool, and shows exactly the items of `Flatten`. */
  method MmdbGetEntryDataList(mem: seq<byte>, start: uint32, memory: nat -> bool)
    returns (status: Status, list: ListNode?, ghost nodes: seq<ListNode>)
    requires Readable(mem)
    ensures status != Success ==> list == null
    ensures !memory(0) ==> status == OutOfMemory
    ensures memory(0) ==>
              var r := Flatten(mem, start, 0, ListRoom(memory), true);
              && status == StatusOfFlat(r)
              && (r.Listed? ==>
                    && list != null && list.pool != null
                    && IsChain(list, nodes) && Distinct(nodes) && ShowsAll(nodes, r.items))
  {
    hide Flatten, Pool.Valid, Pool.Linked, RoomInLaterBlocks, ShowsAll;
    nodes := [];
    list := null;
    var pool;
    status, pool := FillPool(mem, start, memory);
    if pool == null {
      return status, null, nodes;
    }
    nodes := pool.Elements();
    pool.ValidIsDistinct();
    assert nodes == pool.all[..|nodes|] && nodes[0] in pool.all;
    assert ShowsAll(nodes, Flatten(mem, start, 0, ListRoom(memory), true).items);
    list := pool.ToList();
    if list == null {
      return OutOfMemory, null, nodes;
    }
  }
}
