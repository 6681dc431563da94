/** get_entry_data_list as a function, and what it means: it succeeds exactly on
    the offsets that denote a value tree, and lists that tree in preorder. */
module Flattening {
  import opened Base
  import opened Decoding
  import opened ValueTree

  const MAXIMUM_DATA_STRUCTURE_DEPTH := 512

  /** The list nodes filled in, the first one for the value itself; or the
      error that ended the traversal. */
  datatype Flat = Listed(items: seq<Decoded>) | Failed(status: Status)

  /** The nodes of a run of children, and where the run ends. */
  datatype FlatKids = KidsListed(items: seq<Decoded>, end: nat) | KidsFailed(status: Status)

  /** get_entry_data_list from `at`. `room` is how many more list nodes can be
      allocated; the node of the value itself already is. With `guarded` false
      the two size-plausibility tests are left out. */
  function Flatten(section: seq<byte>, at: nat, depth: nat, room: nat, guarded: bool): (r: Flat)
    ensures r.Listed? ==> 1 <= |r.items| <= 1 + room
    ensures r.Failed? ==> r.status in {InvalidData, OutOfMemory}
    decreases MAXIMUM_DATA_STRUCTURE_DEPTH - depth, 0
  {
    if depth >= MAXIMUM_DATA_STRUCTURE_DEPTH then Failed(InvalidData) else
    match Decode(section, at)
    case None => Failed(InvalidData)
    case Some(d) =>
      match d.field
      case Pointer(target, _) => FlattenTarget(section, target, d.next, depth + 1, room, guarded)
      case Array(count) =>
        if guarded && count > |section| - d.next then Failed(InvalidData)
        else WithHead(d, FlattenKids(section, d.next, count, depth + 1, room, guarded))
      case Map(count) =>
        if guarded && count > (|section| - d.next) / 2 then Failed(InvalidData)
        else WithHead(d, FlattenKids(section, d.next, 2 * count, depth + 1, room, guarded))
      case Plain(_) => Listed([d])
  }

  /** The pointer case: the node shows the target but goes on after the pointer. */
  function FlattenTarget(section: seq<byte>, target: nat, next: nat, depth: nat, room: nat, guarded: bool): (r: Flat)
    ensures r.Listed? ==> 1 <= |r.items| <= 1 + room
    ensures r.Failed? ==> r.status in {InvalidData, OutOfMemory}
    decreases MAXIMUM_DATA_STRUCTURE_DEPTH - depth, 1
  {
    match Decode(section, target)
    case None => Failed(InvalidData)
    case Some(d) =>
      match d.field
      case Pointer(_, _) => Failed(InvalidData)
      case Plain(_) => Listed([d.(next := next)])
      case _ => WithNext(next, Flatten(section, target, depth, room, guarded))
  }

  /** The loops over array elements and over map keys and values: each child is
      allocated, then flattened. */
  function FlattenKids(section: seq<byte>, from: nat, count: nat, depth: nat, room: nat, guarded: bool): (r: FlatKids)
    ensures r.KidsListed? ==> |r.items| <= room
    ensures r.KidsFailed? ==> r.status in {InvalidData, OutOfMemory}
    decreases MAXIMUM_DATA_STRUCTURE_DEPTH - depth, 1 + count
  {
    if count == 0 then KidsListed([], from)
    else if room == 0 then KidsFailed(OutOfMemory)
    else
      match Flatten(section, from, depth, room - 1, guarded)
      case Failed(status) => KidsFailed(status)
      case Listed(items) =>
        WithItems(items, FlattenKids(section, items[0].next, count - 1, depth, room - |items|, guarded))
  }

  function WithHead(d: Decoded, kids: FlatKids): Flat {
    match kids
    case KidsFailed(status) => Failed(status)
    case KidsListed(items, end) => Listed([d.(next := end)] + items)
  }

  function WithNext(next: nat, r: Flat): Flat
    requires r.Listed? ==> |r.items| >= 1
  {
    match r
    case Failed(status) => Failed(status)
    case Listed(items) => Listed([items[0].(next := next)] + items[1..])
  }

  function WithItems(items: seq<Decoded>, kids: FlatKids): FlatKids {
    match kids
    case KidsFailed(status) => KidsFailed(status)
    case KidsListed(more, end) => KidsListed(items + more, end)
  }

  lemma WithItemsTwice(a: seq<Decoded>, b: seq<Decoded>, kids: FlatKids)
    ensures WithItems(a, WithItems(b, kids)) == WithItems(a + b, kids)
  {
    if kids.KidsListed? {
      assert a + (b + kids.items) == a + b + kids.items;
    }
  }

  lemma NoKids(section: seq<byte>, from: nat, depth: nat, room: nat, guarded: bool)
    ensures FlattenKids(section, from, 0, depth, room, guarded) == KidsListed([], from)
  {
  }

  /** The children of a container, one at a time. */
  lemma KidsStep(section: seq<byte>, from: nat, count: nat, depth: nat, room: nat, guarded: bool)
    requires count > 0
    ensures FlattenKids(section, from, count, depth, room, guarded)
         == if room == 0 then KidsFailed(OutOfMemory)
            else
              var first := Flatten(section, from, depth, room - 1, guarded);
              if first.Failed? then KidsFailed(first.status)
              else
                WithItems(
                  first.items,
                  FlattenKids(section, first.items[0].next, count - 1, depth, room - |first.items|, guarded))
  {
    hide Flatten;
  }

  /** Listing `n` more children after `first` ones. */
  function ThenKids(first: FlatKids, section: seq<byte>, n: nat, depth: nat, room: nat, guarded: bool): FlatKids
    requires first.KidsListed? ==> |first.items| <= room
  {
    match first
    case KidsFailed(status) => KidsFailed(status)
    case KidsListed(items, end) => WithItems(items, FlattenKids(section, end, n, depth, room - |items|, guarded))
  }

  lemma ThenKidsWithItems(
      items: seq<Decoded>, first: FlatKids, section: seq<byte>, n: nat, depth: nat, room: nat, guarded: bool)
    requires |items| <= room && (first.KidsListed? ==> |items| + |first.items| <= room)
    ensures WithItems(items, first).KidsListed? ==> |WithItems(items, first).items| <= room
    ensures ThenKids(WithItems(items, first), section, n, depth, room, guarded)
         == WithItems(items, ThenKids(first, section, n, depth, room - |items|, guarded))
  {
    hide FlattenKids;
    if first.KidsListed? {
      var left := room - |items| - |first.items|;
      WithItemsTwice(items, first.items, FlattenKids(section, first.end, n, depth, left, guarded));
    }
  }

  /** A run of children can be listed in two parts. */
  lemma {:induction false} FlattenKidsSplit(
      section: seq<byte>, from: nat, m: nat, n: nat, depth: nat, room: nat, guarded: bool)
    ensures FlattenKids(section, from, m + n, depth, room, guarded)
         == ThenKids(FlattenKids(section, from, m, depth, room, guarded), section, n, depth, room, guarded)
    decreases m
  {
    hide Flatten, FlattenKids, WithItems;
    if m == 0 {
      NoKids(section, from, depth, room, guarded);
      NoItems(FlattenKids(section, from, n, depth, room, guarded));
    } else {
      KidsStep(section, from, m, depth, room, guarded);
      KidsStep(section, from, m + n, depth, room, guarded);
      if room > 0 && Flatten(section, from, depth, room - 1, guarded).Listed? {
        var items := Flatten(section, from, depth, room - 1, guarded).items;
        var left := room - |items|;
        FlattenKidsSplit(section, items[0].next, m - 1, n, depth, left, guarded);
        var first := FlattenKids(section, items[0].next, m - 1, depth, left, guarded);
        ThenKidsWithItems(items, first, section, n, depth, room, guarded);
      }
    }
  }

  lemma NoItems(kids: FlatKids)
    ensures WithItems([], kids) == kids
  {
  }

  // ---- a denoted tree is listed in preorder ----

  lemma {:induction false} FlattenOfTree(section: seq<byte>, t: Tree, depth: nat, room: nat, guarded: bool)
    requires Parses(section, t) && depth + Height(t) <= MAXIMUM_DATA_STRUCTURE_DEPTH
    requires |Preorder(t)| <= 1 + room
    ensures Flatten(section, t.at, depth, room, guarded) == Listed(Preorder(t))
    decreases t
  {
    hide Decode;
    DecodeOfTree(section, t);
    if t.Ref? {
      DecodeOfTree(section, t.target);
      if t.target.IsContainer() {
        FlattenOfTree(section, t.target, depth + 1, room, guarded);
      }
    } else if t.IsContainer() {
      TreeExtent(section, t);
      FlattenKidsOfForest(section, t.body, t.kids, t.end, depth + 1, room, guarded);
    }
  }

  lemma {:induction false} FlattenKidsOfForest(
      section: seq<byte>, from: nat, kids: Forest, end: nat, depth: nat, room: nat, guarded: bool)
    requires Chain(section, from, kids, end) && depth + MaxHeight(kids) <= MAXIMUM_DATA_STRUCTURE_DEPTH
    requires |PreorderAll(kids)| <= room
    ensures FlattenKids(section, from, Len(kids), depth, room, guarded) == KidsListed(PreorderAll(kids), end)
    decreases kids
  {
    hide Flatten, FlattenKids, Parses;
    NoKids(section, from, depth, room, guarded);
    if kids.Cons? {
      KidsStep(section, from, Len(kids), depth, room, guarded);
      FlattenOfTree(section, kids.head, depth, room - 1, guarded);
      FlattenKidsOfForest(section, kids.head.end, kids.tail, end, depth, room - |Preorder(kids.head)|, guarded);
    }
  }

  // ---- whatever is listed is the preorder of a denoted tree ----

  lemma {:induction false} TreeOfFlatten(section: seq<byte>, at: nat, depth: nat, room: nat, guarded: bool)
    returns (t: Tree)
    requires Flatten(section, at, depth, room, guarded).Listed?
    ensures t.at == at && Parses(section, t) && depth + Height(t) <= MAXIMUM_DATA_STRUCTURE_DEPTH
    ensures Flatten(section, at, depth, room, guarded).items == Preorder(t)
    decreases MAXIMUM_DATA_STRUCTURE_DEPTH - depth, 0
  {
    hide Decode;
    var d := Decode(section, at).value;
    match d.field
    case Plain(scalar) =>
      t := Leaf(at, d.next, scalar);
    case Array(count) =>
      var kids, end := ForestOfFlatten(section, d.next, count, depth + 1, room, guarded);
      t := Items(at, d.next, end, kids);
    case Map(count) =>
      var kids, end := ForestOfFlatten(section, d.next, 2 * count, depth + 1, room, guarded);
      t := Entries(at, d.next, end, kids);
    case Pointer(target, _) =>
      var u := TargetOfFlatten(section, target, d.next, depth + 1, room, guarded);
      t := Ref(at, d.next, u);
  }

  lemma {:induction false} TargetOfFlatten(
      section: seq<byte>, target: nat, next: nat, depth: nat, room: nat, guarded: bool)
    returns (t: Tree)
    requires FlattenTarget(section, target, next, depth, room, guarded).Listed?
    ensures t.at == target && !t.Ref? && Parses(section, t)
    ensures t.IsContainer() ==> depth + Height(t) <= MAXIMUM_DATA_STRUCTURE_DEPTH
    ensures FlattenTarget(section, target, next, depth, room, guarded).items
         == [Preorder(t)[0].(next := next)] + Preorder(t)[1..]
    decreases MAXIMUM_DATA_STRUCTURE_DEPTH - depth, 1
  {
    hide Decode;
    var d := Decode(section, target).value;
    if d.field.Plain? {
      t := Leaf(target, d.next, d.field.scalar);
    } else {
      t := TreeOfFlatten(section, target, depth, room, guarded);
      DecodeOfTree(section, t);
    }
  }

  lemma {:induction false} ForestOfFlatten(
      section: seq<byte>, from: nat, count: nat, depth: nat, room: nat, guarded: bool)
    returns (kids: Forest, end: nat)
    requires FlattenKids(section, from, count, depth, room, guarded).KidsListed?
    ensures Chain(section, from, kids, end) && Len(kids) == count
    ensures count > 0 ==> depth + MaxHeight(kids) <= MAXIMUM_DATA_STRUCTURE_DEPTH
    ensures FlattenKids(section, from, count, depth, room, guarded) == KidsListed(PreorderAll(kids), end)
    decreases MAXIMUM_DATA_STRUCTURE_DEPTH - depth, 1 + count
  {
    hide Decode;
    if count == 0 {
      return Nil, from;
    }
    var items := Flatten(section, from, depth, room - 1, guarded).items;
    var head := TreeOfFlatten(section, from, depth, room - 1, guarded);
    var tail, last := ForestOfFlatten(section, head.end, count - 1, depth, room - |items|, guarded);
    return Cons(head, tail), last;
  }

  // ---- the main results ----

  /** The list produced for an offset, if any, is the preorder of the one tree
      denoted there, and every tree that is not too deep is listed when there is
      room for its nodes. */
  lemma FlattenIsPreorder(section: seq<byte>, at: nat, depth: nat, room: nat, guarded: bool, items: seq<Decoded>)
    ensures Flatten(section, at, depth, room, guarded) == Listed(items)
       <==> exists t :: ListedTree(section, at, depth, room, t, items)
  {
    hide Denotes, Parses, Flatten, Preorder, Height;
    if Flatten(section, at, depth, room, guarded) == Listed(items) {
      var t := TreeOfFlatten(section, at, depth, room, guarded);
      DenotesIsParses(section, t);
      assert ListedTree(section, at, depth, room, t, items);
    }
    if t :| ListedTree(section, at, depth, room, t, items) {
      DenotesIsParses(section, t);
      FlattenOfTree(section, t, depth, room, guarded);
    }
  }

  ghost predicate ListedTree(section: seq<byte>, at: nat, depth: nat, room: nat, t: Tree, items: seq<Decoded>) {
    && t.at == at
    && Denotes(section, t)
    && depth + Height(t) <= 512
    && items == Preorder(t)
    && |items| <= 1 + room
  }

  /** On well-formed data only the depth limit and lack of memory make the
      traversal fail. */
  lemma FlattenSucceedsIff(section: seq<byte>, t: Tree, depth: nat, room: nat, guarded: bool)
    requires Parses(section, t)
    ensures Flatten(section, t.at, depth, room, guarded).Listed?
       <==> depth + Height(t) <= 512 && |Preorder(t)| <= 1 + room
  {
    hide Parses, Flatten, Preorder, Height;
    if Flatten(section, t.at, depth, room, guarded).Listed? {
      var u := TreeOfFlatten(section, t.at, depth, room, guarded);
      ParsesIsDeterministic(section, t, u);
    } else if depth + Height(t) <= MAXIMUM_DATA_STRUCTURE_DEPTH && |Preorder(t)| <= 1 + room {
      FlattenOfTree(section, t, depth, room, guarded);
    }
  }

  /** The size-plausibility tests reject nothing that would otherwise have been
      listed. */
  lemma GuardsRejectNothing(section: seq<byte>, at: nat, depth: nat, room: nat, items: seq<Decoded>)
    ensures Flatten(section, at, depth, room, true) == Listed(items)
       <==> Flatten(section, at, depth, room, false) == Listed(items)
  {
    FlattenIsPreorder(section, at, depth, room, true, items);
    FlattenIsPreorder(section, at, depth, room, false, items);
  }

  /** What is listed at one depth is listed, unchanged, at every smaller depth. */
  lemma ShallowerListsTheSame(section: seq<byte>, at: nat, depth: nat, shallower: nat, room: nat, guarded: bool)
    requires shallower <= depth && Flatten(section, at, depth, room, guarded).Listed?
    ensures Flatten(section, at, shallower, room, guarded) == Flatten(section, at, depth, room, guarded)
  {
    var t := TreeOfFlatten(section, at, depth, room, guarded);
    FlattenOfTree(section, t, shallower, room, guarded);
  }

  /** Lack of memory is the only thing that more memory changes. */
  lemma {:induction false} MoreRoomChangesOnlyOutOfMemory(
      section: seq<byte>, at: nat, depth: nat, room: nat, more: nat, guarded: bool)
    requires room <= more && Flatten(section, at, depth, room, guarded) != Failed(OutOfMemory)
    ensures Flatten(section, at, depth, more, guarded) == Flatten(section, at, depth, room, guarded)
    decreases MAXIMUM_DATA_STRUCTURE_DEPTH - depth, 0
  {
    hide Decode;
    if depth < MAXIMUM_DATA_STRUCTURE_DEPTH && Decode(section, at).Some? {
      var d := Decode(section, at).value;
      match d.field
      case Plain(_) =>
      case Pointer(target, _) =>
        if Decode(section, target).Some? && Decode(section, target).value.field.IsContainer() {
          MoreRoomChangesOnlyOutOfMemory(section, target, depth + 1, room, more, guarded);
        }
      case Array(count) =>
        if !guarded || count <= |section| - d.next {
          MoreRoomForKids(section, d.next, count, depth + 1, room, more, guarded);
        }
      case Map(count) =>
        if !guarded || count <= (|section| - d.next) / 2 {
          MoreRoomForKids(section, d.next, 2 * count, depth + 1, room, more, guarded);
        }
    }
  }

  lemma {:induction false} MoreRoomForKids(
      section: seq<byte>, from: nat, count: nat, depth: nat, room: nat, more: nat, guarded: bool)
    requires room <= more && FlattenKids(section, from, count, depth, room, guarded) != KidsFailed(OutOfMemory)
    ensures FlattenKids(section, from, count, depth, more, guarded)
         == FlattenKids(section, from, count, depth, room, guarded)
    decreases MAXIMUM_DATA_STRUCTURE_DEPTH - depth, 1 + count
  {
    hide Decode, Flatten;
    if count > 0 {
      MoreRoomChangesOnlyOutOfMemory(section, from, depth, room - 1, more - 1, guarded);
      var child := Flatten(section, from, depth, room - 1, guarded);
      if child.Listed? {
        var used := |child.items|;
        MoreRoomForKids(section, child.items[0].next, count - 1, depth, room - used, more - used, guarded);
      }
    }
  }

  /** Some amount of memory is enough: where the traversal fails with it, the data is
      invalid. So it reports lack of memory only when there is too little. */
  lemma {:induction false} EnoughRoom(section: seq<byte>, at: nat, depth: nat, guarded: bool) returns (room: nat)
    ensures forall more: nat | more >= room :: Flatten(section, at, depth, more, guarded) != Failed(OutOfMemory)
    decreases MAXIMUM_DATA_STRUCTURE_DEPTH - depth, 0
  {
    hide Decode, FlattenKids;
    room := 0;
    if depth >= MAXIMUM_DATA_STRUCTURE_DEPTH || Decode(section, at).None? {
      return;
    }
    var d := Decode(section, at).value;
    match d.field
    case Plain(_) =>
    case Pointer(target, _) =>
      room := EnoughRoom(section, target, depth + 1, guarded);
      forall more: nat | more >= room ensures Flatten(section, at, depth, more, guarded) != Failed(OutOfMemory) {
        assert Flatten(section, target, depth + 1, more, guarded) != Failed(OutOfMemory);
      }
    case Array(count) =>
      room := EnoughRoomForKids(section, d.next, count, depth + 1, guarded);
      forall more: nat | more >= room ensures Flatten(section, at, depth, more, guarded) != Failed(OutOfMemory) {
        assert FlattenKids(section, d.next, count, depth + 1, more, guarded) != KidsFailed(OutOfMemory);
      }
    case Map(count) =>
      room := EnoughRoomForKids(section, d.next, 2 * count, depth + 1, guarded);
      forall more: nat | more >= room ensures Flatten(section, at, depth, more, guarded) != Failed(OutOfMemory) {
        assert FlattenKids(section, d.next, 2 * count, depth + 1, more, guarded) != KidsFailed(OutOfMemory);
      }
  }

  lemma {:induction false} EnoughRoomForKids(section: seq<byte>, from: nat, count: nat, depth: nat, guarded: bool)
    returns (room: nat)
    ensures forall more: nat | more >= room ::
              FlattenKids(section, from, count, depth, more, guarded) != KidsFailed(OutOfMemory)
    decreases MAXIMUM_DATA_STRUCTURE_DEPTH - depth, 1 + count
  {
    hide Flatten, FlattenKids;
    if count == 0 {
      room := 0;
      forall more: nat ensures FlattenKids(section, from, 0, depth, more, guarded) != KidsFailed(OutOfMemory) {
        NoKids(section, from, depth, more, guarded);
      }
      return;
    }
    var first := EnoughRoom(section, from, depth, guarded);
    var child := Flatten(section, from, depth, first, guarded);
    var rest := 0;
    if child.Listed? {
      rest := EnoughRoomForKids(section, child.items[0].next, count - 1, depth, guarded);
    }
    room := 1 + first + rest;
    forall more: nat | more >= room
      ensures FlattenKids(section, from, count, depth, more, guarded) != KidsFailed(OutOfMemory)
    {
      KidsStep(section, from, count, depth, more, guarded);
      MoreRoomChangesOnlyOutOfMemory(section, from, depth, first, more - 1, guarded);
      if child.Listed? {
        var left := more - |child.items|;
        assert FlattenKids(section, child.items[0].next, count - 1, depth, left, guarded) != KidsFailed(OutOfMemory);
      }
    }
  }

  /** Without any memory for children, an array is rejected as invalid exactly when
      it claims more elements than there are bytes left, and a map when it claims
      more than one entry for each two bytes: before anything is allocated. */
  lemma GuardsAreExact(section: seq<byte>, at: nat, depth: nat)
    requires depth < 512 && Decode(section, at).Some?
    ensures var d := Decode(section, at).value;
            && (d.field.Array? && d.field.count > 0 ==>
                  Flatten(section, at, depth, 0, true)
                  == Failed(if d.field.count > |section| - d.next then InvalidData else OutOfMemory))
            && (d.field.Map? && d.field.count > 0 ==>
                  Flatten(section, at, depth, 0, true)
                  == Failed(if 2 * d.field.count > |section| - d.next then InvalidData else OutOfMemory))
  {
    hide Decode, FlattenKids;
    var d := Decode(section, at).value;
    if d.field.Array? && d.field.count > 0 {
      KidsStep(section, d.next, d.field.count, depth + 1, 0, true);
    } else if d.field.Map? && d.field.count > 0 {
      KidsStep(section, d.next, 2 * d.field.count, depth + 1, 0, true);
    }
  }

  /** No pointer in the tree leads to a container. */
  predicate NoContainerRefs(t: Tree) {
    match t
    case Leaf(_, _, _) => true
    case Items(_, _, _, kids) => NoContainerRefsIn(kids)
    case Entries(_, _, _, kids) => NoContainerRefsIn(kids)
    case Ref(_, _, target) => target.Leaf?
  }

  predicate NoContainerRefsIn(kids: Forest) {
    match kids
    case Nil => true
    case Cons(head, tail) => NoContainerRefs(head) && NoContainerRefsIn(tail)
  }

  /** Without pointers to containers the list has at most one node for each byte
      the value takes. */
  lemma {:induction false} ListNoLongerThanBytes(section: seq<byte>, t: Tree)
    requires Parses(section, t) && NoContainerRefs(t)
    ensures |Preorder(t)| <= t.end - t.at
    decreases t
  {
    TreeExtent(section, t);
    if t.IsContainer() {
      KidsNoLongerThanBytes(section, t.body, t.kids, t.end);
    }
  }

  lemma {:induction false} KidsNoLongerThanBytes(section: seq<byte>, from: nat, kids: Forest, end: nat)
    requires Chain(section, from, kids, end) && NoContainerRefsIn(kids)
    ensures |PreorderAll(kids)| <= end - from
    decreases kids
  {
    if kids.Cons? {
      ListNoLongerThanBytes(section, kids.head);
      KidsNoLongerThanBytes(section, kids.head.end, kids.tail, end);
    }
  }

  // ---- data that contains itself ----

  /** Flattening the value at `a` visits the value at `b`: the target of a
      pointer, or a child that comes after well-formed siblings. */
  ghost predicate Visits(section: seq<byte>, a: nat, b: nat) {
    match Decode(section, a)
    case None => false
    case Some(d) =>
      match d.field
      case Pointer(target, _) => b == target
      case Array(count) => exists before :: Chain(section, d.next, before, b) && Len(before) < count
      case Map(count) => exists before :: Chain(section, d.next, before, b) && Len(before) < 2 * count
      case Plain(_) => false
  }

  ghost predicate IsTrail(section: seq<byte>, trail: seq<nat>) {
    |trail| >= 1 && forall i :: 0 < i < |trail| ==> Visits(section, trail[i - 1], trail[i])
  }

  ghost function Size(t: Tree): nat {
    match t
    case Leaf(_, _, _) => 1
    case Items(_, _, _, kids) => 1 + SizeAll(kids)
    case Entries(_, _, _, kids) => 1 + SizeAll(kids)
    case Ref(_, _, target) => 1 + Size(target)
  }

  ghost function SizeAll(kids: Forest): nat {
    match kids
    case Nil => 0
    case Cons(head, tail) => Size(head) + SizeAll(tail)
  }

  lemma {:induction false} ChildAfter(section: seq<byte>, from: nat, before: Forest, at: nat, kids: Forest, end: nat)
    returns (child: Tree)
    requires Chain(section, from, before, at) && Chain(section, from, kids, end) && Len(before) < Len(kids)
    ensures child.at == at && Parses(section, child) && Size(child) <= SizeAll(kids)
    decreases before
  {
    hide Parses, Decode;
    match before
    case Nil =>
      child := kids.head;
    case Cons(first, rest) =>
      ParsesIsDeterministic(section, first, kids.head);
      child := ChildAfter(section, first.end, rest, at, kids.tail, end);
  }

  lemma VisitedSubtree(section: seq<byte>, t: Tree, at: nat) returns (u: Tree)
    requires Parses(section, t) && Visits(section, t.at, at)
    ensures u.at == at && Parses(section, u) && Size(u) < Size(t)
  {
    hide Decode;
    DecodeOfTree(section, t);
    match t
    case Leaf(_, _, _) =>
    case Ref(_, _, target) =>
      u := target;
    case Items(_, body, end, kids) =>
      var before :| Chain(section, body, before, at) && Len(before) < Len(kids);
      u := ChildAfter(section, body, before, at, kids, end);
    case Entries(_, body, end, kids) =>
      var before :| Chain(section, body, before, at) && Len(before) < Len(kids);
      u := ChildAfter(section, body, before, at, kids, end);
  }

  lemma {:induction false} TrailSubtree(section: seq<byte>, t: Tree, trail: seq<nat>) returns (u: Tree)
    requires Parses(section, t) && IsTrail(section, trail) && trail[0] == t.at
    ensures u.at == trail[|trail| - 1] && Parses(section, u)
    ensures Size(u) + |trail| <= Size(t) + 1
    decreases |trail|
  {
    hide Parses, Visits, Size;
    if |trail| == 1 {
      return t;
    }
    assert Visits(section, trail[0], trail[1]);
    var child := VisitedSubtree(section, t, trail[1]);
    forall i | 0 < i < |trail| - 1 ensures Visits(section, trail[1..][i - 1], trail[1..][i]) {
      assert Visits(section, trail[i], trail[i + 1]);
    }
    u := TrailSubtree(section, child, trail[1..]);
  }

  /** A value that contains itself, over any number of pointers and containers,
      is never listed, at any depth and with any amount of memory. */
  lemma CyclicDataIsNeverListed(
      section: seq<byte>, trail: seq<nat>, depth: nat, room: nat, guarded: bool)
    requires IsTrail(section, trail) && |trail| > 1 && trail[0] == trail[|trail| - 1]
    ensures Flatten(section, trail[0], depth, room, guarded).Failed?
  {
    hide Parses, Flatten, Visits, Size;
    if Flatten(section, trail[0], depth, room, guarded).Listed? {
      var t := TreeOfFlatten(section, trail[0], depth, room, guarded);
      var u := TrailSubtree(section, t, trail);
      ParsesIsDeterministic(section, t, u);
      assert false;
    }
  }
}
