/** dump_entry_data_list: printing a flat list by parsing it back into the tree it
    was made from. Lines are kept as data; their text layout is not modelled. */
module Dumping {
  import opened Base
  import opened CStrings
  import opened Wire
  import opened Decoding
  import opened ValueTree
  import opened PathLookup
  import opened DataPool
  import opened EntryList
  import opened Flattening

  // ---- what is printed ----

  datatype Line =
    | OpenMap(indent: int)
    | CloseMap(indent: int)
    | OpenArray(indent: int)
    | CloseArray(indent: int)
    | KeyLine(indent: int, text: seq<byte>)
    | ValueLine(indent: int, scalar: Scalar)

  function Printed(scalar: Scalar): Scalar {
    if scalar.Utf8? then Utf8(Cut(scalar.text)) else scalar
  }

  /** What has to be allocated to print a value. */
  function Copied(scalar: Scalar): Option<seq<byte>> {
    match scalar
    case Utf8(text) => Some(Cut(text))
    case Bytes(data) => Some(data)
    case _ => None
  }

  /** The nodes left over and the lines printed; or an error; or a step from the
      last node to NULL that is then dereferenced. */
  datatype Dumped = Dumped(rest: seq<Decoded>, lines: seq<Line>) | DumpFailed(status: Status) | NullNode

  function Dump(items: seq<Decoded>, indent: int, memory: seq<byte> -> bool): (r: Dumped)
    ensures r.Dumped? ==> |r.rest| < |items|
    ensures r.DumpFailed? ==> r.status in {InvalidData, OutOfMemory}
    decreases |items|, 0
  {
    if items == [] then NullNode else
    match items[0].field
    case Map(count) =>
      Wrapped(OpenMap(indent), DumpEntries(items[1..], count, indent + 2, memory), CloseMap(indent))
    case Array(count) =>
      Wrapped(OpenArray(indent), DumpElements(items[1..], count, indent + 2, memory), CloseArray(indent))
    case Pointer(_, _) => DumpFailed(InvalidData)
    case Plain(scalar) =>
      if scalar.Other? then DumpFailed(InvalidData)
      else if Copied(scalar).Some? && !memory(Copied(scalar).value) then DumpFailed(OutOfMemory)
      else Dumped(items[1..], [ValueLine(indent, Printed(scalar))])
  }

  /** The loop over map entries. It also ends when the list does. */
  function DumpEntries(items: seq<Decoded>, size: nat, indent: int, memory: seq<byte> -> bool): (r: Dumped)
    ensures r.Dumped? ==> |r.rest| <= |items|
    ensures r.DumpFailed? ==> r.status in {InvalidData, OutOfMemory}
    decreases |items|, 1
  {
    if size == 0 || items == [] then Dumped(items, []) else
    match items[0].field
    case Plain(Utf8(text)) =>
      if !memory(Cut(text)) then DumpFailed(OutOfMemory)
      else
        (match Dump(items[1..], indent + 2, memory)
         case Dumped(rest, lines) =>
           After([KeyLine(indent, Cut(text))] + lines, DumpEntries(rest, size - 1, indent, memory))
         case failed => failed)
    case _ => DumpFailed(InvalidData)
  }

  /** The loop over array elements. It also ends when the list does. */
  function DumpElements(items: seq<Decoded>, size: nat, indent: int, memory: seq<byte> -> bool): (r: Dumped)
    ensures r.Dumped? ==> |r.rest| <= |items|
    ensures r.DumpFailed? ==> r.status in {InvalidData, OutOfMemory}
    decreases |items|, 1
  {
    if size == 0 || items == [] then Dumped(items, []) else
    match Dump(items, indent, memory)
    case Dumped(rest, lines) => After(lines, DumpElements(rest, size - 1, indent, memory))
    case failed => failed
  }

  function Wrapped(first: Line, inner: Dumped, last: Line): Dumped {
    match inner
    case Dumped(rest, lines) => Dumped(rest, [first] + lines + [last])
    case failed => failed
  }

  function After(lines: seq<Line>, more: Dumped): Dumped {
    match more
    case Dumped(rest, others) => Dumped(rest, lines + others)
    case failed => failed
  }

  // ---- the reference: printing a tree ----

  function Render(t: Tree, indent: int): seq<Line> {
    match t
    case Leaf(_, _, Utf8(text)) => [ValueLine(indent, Utf8(Cut(text)))]
    case Leaf(_, _, scalar) => [ValueLine(indent, scalar)]
    case Items(_, _, _, kids) => [OpenArray(indent)] + RenderElements(kids, indent + 2) + [CloseArray(indent)]
    case Entries(_, _, _, kids) => [OpenMap(indent)] + RenderEntries(kids, indent + 2) + [CloseMap(indent)]
    case Ref(_, _, target) => Render(target, indent)
  }

  function RenderElements(kids: Forest, indent: int): seq<Line> {
    match kids
    case Nil => []
    case Cons(head, tail) => Render(head, indent) + RenderElements(tail, indent)
  }

  function RenderEntries(kids: Forest, indent: int): seq<Line> {
    match kids
    case Cons(key, Cons(value, rest)) =>
      [KeyLine(indent, Cut(KeyText(key)))] + Render(value, indent + 2) + RenderEntries(rest, indent)
    case _ => []
  }

  /** Every key is a string, and no value has an undefined type. */
  predicate Dumpable(t: Tree) {
    match t
    case Leaf(_, _, scalar) => !scalar.Other?
    case Items(_, _, _, kids) => DumpableElements(kids)
    case Entries(_, _, _, kids) => DumpableEntries(kids)
    case Ref(_, _, target) => Dumpable(target)
  }

  predicate DumpableElements(kids: Forest) {
    match kids
    case Nil => true
    case Cons(head, tail) => Dumpable(head) && DumpableElements(tail)
  }

  predicate DumpableEntries(kids: Forest) {
    match kids
    case Cons(key, Cons(value, rest)) => IsText(key) && Dumpable(value) && DumpableEntries(rest)
    case _ => true
  }

  /** The first thing, in the order of printing, that cannot be printed: a key that
      is no string, a type that no value has, or a copy that is not granted. */
  function Trouble(t: Tree, memory: seq<byte> -> bool): Option<Status> {
    match t
    case Leaf(_, _, Utf8(text)) => if memory(Cut(text)) then None else Some(OutOfMemory)
    case Leaf(_, _, Bytes(data)) => if memory(data) then None else Some(OutOfMemory)
    case Leaf(_, _, Other(_)) => Some(InvalidData)
    case Leaf(_, _, _) => None
    case Items(_, _, _, kids) => TroubleInElements(kids, memory)
    case Entries(_, _, _, kids) => TroubleInEntries(kids, memory)
    case Ref(_, _, target) => Trouble(target, memory)
  }

  function TroubleInElements(kids: Forest, memory: seq<byte> -> bool): Option<Status> {
    match kids
    case Nil => None
    case Cons(head, tail) => Earlier(Trouble(head, memory), TroubleInElements(tail, memory))
  }

  function TroubleInEntries(kids: Forest, memory: seq<byte> -> bool): Option<Status> {
    match kids
    case Cons(key, Cons(value, rest)) =>
      Earlier(TroubleWithKey(key, memory), Earlier(Trouble(value, memory), TroubleInEntries(rest, memory)))
    case _ => None
  }

  function TroubleWithKey(key: Tree, memory: seq<byte> -> bool): Option<Status> {
    if !IsText(key) then Some(InvalidData) else if memory(Cut(KeyText(key))) then None else Some(OutOfMemory)
  }

  function Earlier(first: Option<Status>, second: Option<Status>): Option<Status> {
    if first.Some? then first else second
  }

  ghost predicate Plenty(memory: seq<byte> -> bool) {
    forall s :: memory(s)
  }

  /** With memory for every copy, only keys that are no strings and types that no
      value has are in the way, and they are invalid data. */
  lemma {:induction false} TroubleWithPlenty(t: Tree, memory: seq<byte> -> bool)
    requires Plenty(memory)
    ensures Trouble(t, memory) == if Dumpable(t) then None else Some(InvalidData)
    decreases t
  {
    hide Cut;
    match t
    case Leaf(_, _, _) =>
    case Items(_, _, _, kids) => ElementsWithPlenty(kids, memory);
    case Entries(_, _, _, kids) => EntriesWithPlenty(kids, memory);
    case Ref(_, _, target) => TroubleWithPlenty(target, memory);
  }

  lemma {:induction false} ElementsWithPlenty(kids: Forest, memory: seq<byte> -> bool)
    requires Plenty(memory)
    ensures TroubleInElements(kids, memory) == if DumpableElements(kids) then None else Some(InvalidData)
    decreases kids
  {
    if kids.Cons? {
      TroubleWithPlenty(kids.head, memory);
      ElementsWithPlenty(kids.tail, memory);
    }
  }

  lemma {:induction false} EntriesWithPlenty(kids: Forest, memory: seq<byte> -> bool)
    requires Plenty(memory)
    ensures TroubleInEntries(kids, memory) == if DumpableEntries(kids) then None else Some(InvalidData)
    decreases kids
  {
    hide Cut, IsText, KeyText;
    match kids
    case Cons(key, Cons(value, rest)) =>
      TroubleWithPlenty(value, memory);
      EntriesWithPlenty(rest, memory);
    case _ =>
  }

  // ---- dumping a preorder list prints the tree ----

  /** The outcome of dumping a list that starts with the preorder of something: it
      ends after that, having printed `lines`, or reports the trouble there is. */
  ghost predicate Outcome(r: Dumped, rest: seq<Decoded>, lines: seq<Line>, trouble: Option<Status>) {
    r == if trouble.None? then Dumped(rest, lines) else DumpFailed(trouble.value)
  }

  lemma {:induction false} DumpOfTree(t: Tree, rest: seq<Decoded>, indent: int, memory: seq<byte> -> bool)
    requires Paired(t)
    ensures Outcome(Dump(Preorder(t) + rest, indent, memory), rest, Render(t, indent), Trouble(t, memory))
    decreases t
  {
    hide DumpEntries, DumpElements, RenderEntries, RenderElements, TroubleInEntries, TroubleInElements;
    hide PairedIn, Cut, Height;
    var items := Preorder(t) + rest;
    match t
    case Leaf(_, _, _) =>
      assert items[1..] == rest;
    case Ref(_, end, target) =>
      DumpOfTree(target, rest, indent, memory);
      assert items[1..] == (Preorder(target) + rest)[1..];
    case Items(_, _, _, kids) =>
      DumpOfElements(kids, rest, indent + 2, memory);
      assert items[1..] == PreorderAll(kids) + rest;
    case Entries(_, _, _, kids) =>
      DumpOfEntries(kids, rest, indent + 2, memory);
      assert items[1..] == PreorderAll(kids) + rest;
  }

  lemma {:induction false} DumpOfElements(kids: Forest, rest: seq<Decoded>, indent: int, memory: seq<byte> -> bool)
    requires PairedIn(kids)
    ensures Outcome(DumpElements(PreorderAll(kids) + rest, Len(kids), indent, memory), rest,
                    RenderElements(kids, indent), TroubleInElements(kids, memory))
    decreases kids
  {
    match kids
    case Nil =>
      assert [] + rest == rest;
    case Cons(head, tail) =>
      assert PreorderAll(kids) + rest == Preorder(head) + (PreorderAll(tail) + rest);
      DumpOfTree(head, PreorderAll(tail) + rest, indent, memory);
      DumpOfElements(tail, rest, indent, memory);
  }

  lemma {:induction false} DumpOfEntries(kids: Forest, rest: seq<Decoded>, indent: int, memory: seq<byte> -> bool)
    requires PairedIn(kids) && Len(kids) % 2 == 0
    ensures Outcome(DumpEntries(PreorderAll(kids) + rest, Len(kids) / 2, indent, memory), rest,
                    RenderEntries(kids, indent), TroubleInEntries(kids, memory))
    decreases kids
  {
    hide Dump, DumpEntries, Render, Trouble, Preorder, Paired, Outcome, IsText, Cut, Resolve;
    match kids
    case Nil =>
      assert [] + rest == rest;
      EntriesDone(rest, indent, memory);
    case Cons(key, Cons(value, more)) =>
      var items := PreorderAll(kids) + rest;
      var after := PreorderAll(more) + rest;
      assert PairedIn(kids.tail);
      KeyItem(key);
      assert PreorderAll(kids.tail) == Preorder(value) + PreorderAll(more);
      assert items == Preorder(key) + (Preorder(value) + after);
      if IsText(key) {
        DumpOfTree(value, after, indent + 2, memory);
        DumpOfEntries(more, rest, indent, memory);
      }
      EntryStep(key, value, more, rest, indent, memory);
  }

  lemma EntriesDone(rest: seq<Decoded>, indent: int, memory: seq<byte> -> bool)
    ensures Outcome(DumpEntries(rest, 0, indent, memory), rest, [], None)
  {
  }

  /** One turn of the loop over map entries. */
  lemma EntryStep(key: Tree, value: Tree, more: Forest, rest: seq<Decoded>, indent: int, memory: seq<byte> -> bool)
    requires Paired(key) && Len(more) % 2 == 0
    requires IsText(key) ==>
               && Outcome(Dump(Preorder(value) + (PreorderAll(more) + rest), indent + 2, memory),
                          PreorderAll(more) + rest, Render(value, indent + 2), Trouble(value, memory))
               && Outcome(DumpEntries(PreorderAll(more) + rest, Len(more) / 2, indent, memory), rest,
                          RenderEntries(more, indent), TroubleInEntries(more, memory))
    ensures Outcome(DumpEntries(Preorder(key) + (Preorder(value) + (PreorderAll(more) + rest)),
                                1 + Len(more) / 2, indent, memory),
                    rest,
                    [KeyLine(indent, Cut(KeyText(key)))] + Render(value, indent + 2) + RenderEntries(more, indent),
                    Earlier(TroubleWithKey(key, memory),
                            Earlier(Trouble(value, memory), TroubleInEntries(more, memory))))
  {
    hide Dump, Render, Trouble, Preorder, RenderEntries, TroubleInEntries, Paired;
    KeyItem(key);
    var after := Preorder(value) + (PreorderAll(more) + rest);
    var items := Preorder(key) + after;
    assert items[0] == Preorder(key)[0];
    if IsText(key) {
      assert items[1..] == after;
    }
  }

  /** Dumping the list made from a well-formed value prints that value and ends
      exactly at the end of the list, without ever touching a node past it; or it
      reports the first trouble that there is. */
  lemma DumpPrintsTheTree(section: seq<byte>, t: Tree, indent: int, memory: seq<byte> -> bool)
    requires Parses(section, t)
    ensures Outcome(Dump(Preorder(t), indent, memory), [], Render(t, indent), Trouble(t, memory))
  {
    ParsedIsPaired(section, t);
    DumpOfTree(t, [], indent, memory);
    assert Preorder(t) + [] == Preorder(t);
  }

  // ---- the C function ----

  /** The output stream. */
  class Stream {
    var lines: seq<Line>

    constructor ()
      ensures lines == []
    {
      lines := [];
    }

    method Put(line: Line)
      modifies this
      ensures lines == old(lines) + [line]
    {
      lines := lines + [line];
    }
  }

  lemma EmptyListIsNull(items: seq<Decoded>, indent: int, memory: seq<byte> -> bool)
    ensures items == [] ==> Dump(items, indent, memory) == NullNode
  {
  }

  lemma AfterTwice(a: seq<Line>, b: seq<Line>, more: Dumped)
    ensures After(a, After(b, more)) == After(a + b, more)
  {
    if more.Dumped? {
      assert a + (b + more.lines) == a + b + more.lines;
    }
  }

  lemma AfterNothing(more: Dumped)
    ensures After([], more) == more
  {
  }

  /** dump_entry_data_list. On success the rest of the list is returned and the
      lines of `Dump` are printed. Its loops are methods of their own here. */
  method DumpEntryDataList(
      stream: Stream, list: ListNode, indent: int, memory: seq<byte> -> bool, ghost nodes: seq<ListNode>,
      ghost items: seq<Decoded>)
    returns (status: Status, rest: ListNode?, ghost restNodes: seq<ListNode>)
    requires Lists(list, nodes, items) && Dump(items, indent, memory) != NullNode
    modifies stream
    ensures match Dump(items, indent, memory)
            case Dumped(left, lines) =>
              && status == Success && stream.lines == old(stream.lines) + lines && Lists(rest, restNodes, left)
            case DumpFailed(error) => status == error
            case NullNode => false
    decreases |items|, 0
  {
    hide Lists, IsExact, DumpEntries, DumpElements;
    ghost var d := items[0];
    NextInList(list, nodes, items);
    ExactType(d.field);
    rest, restNodes := null, [];
    var kind := list.entryData.typ;
    if kind == TYPE_MAP {
      stream.Put(OpenMap(indent));
      status, rest, restNodes :=
        DumpMapEntries(stream, list.next, list.entryData.dataSize, indent + 2, memory, nodes[1..], items[1..]);
      if status != Success {
        return status, null, [];
      }
      stream.Put(CloseMap(indent));
    } else if kind == TYPE_ARRAY {
      stream.Put(OpenArray(indent));
      status, rest, restNodes :=
        DumpArrayElements(stream, list.next, list.entryData.dataSize, indent + 2, memory, nodes[1..], items[1..]);
      if status != Success {
        return status, null, [];
      }
      stream.Put(CloseArray(indent));
    } else {
      status := DumpScalar(stream, list, indent, memory, d);
      if status != Success {
        return status, null, [];
      }
      rest, restNodes := list.next, nodes[1..];
    }
  }

  /** The cases of dump_entry_data_list for values without children. */
  method DumpScalar(stream: Stream, list: ListNode, indent: int, memory: seq<byte> -> bool, ghost d: Decoded)
    returns (status: Status)
    requires list.entryData.Shows(d) && !d.field.IsContainer() && IsExact(d.field)
    modifies stream
    ensures match d.field
            case Plain(scalar) =>
              if scalar.Other? then status == InvalidData
              else if Copied(scalar).Some? && !memory(Copied(scalar).value) then status == OutOfMemory
              else status == Success && stream.lines == old(stream.lines) + [ValueLine(indent, Printed(scalar))]
            case _ => status == InvalidData
  {
    var kind := list.entryData.typ;
    if kind == TYPE_UTF8_STRING {
      var copy := StrNDup(list.entryData.value.scalar.text, list.entryData.dataSize, memory);
      assert d.field.scalar.text[..|d.field.scalar.text|] == d.field.scalar.text;
      if copy.None? {
        return OutOfMemory;
      }
      stream.Put(ValueLine(indent, Utf8(copy.value)));
    } else if kind == TYPE_BYTES {
      if !memory(list.entryData.value.scalar.data) {
        return OutOfMemory;
      }
      stream.Put(ValueLine(indent, list.entryData.value.scalar));
    } else if kind in {TYPE_DOUBLE, TYPE_FLOAT, TYPE_UINT16, TYPE_UINT32, TYPE_BOOLEAN, TYPE_UINT64,
                       TYPE_UINT128, TYPE_INT32} {
      stream.Put(ValueLine(indent, list.entryData.value.scalar));
    } else {
      return InvalidData;
    }
    return Success;
  }

  /** The type test and the copy of a map key. */
  method CopyKey(list: ListNode, memory: seq<byte> -> bool, ghost d: Decoded) returns (status: Status, key: seq<byte>)
    requires list.entryData.Shows(d) && IsExact(d.field)
    ensures match d.field
            case Plain(Utf8(text)) =>
              if memory(Cut(text)) then status == Success && key == Cut(text) else status == OutOfMemory
            case _ => status == InvalidData
  {
    if list.entryData.typ != TYPE_UTF8_STRING {
      return InvalidData, [];
    }
    var copy := StrNDup(list.entryData.value.scalar.text, list.entryData.dataSize, memory);
    assert d.field.scalar.text[..|d.field.scalar.text|] == d.field.scalar.text;
    if copy.None? {
      return OutOfMemory, [];
    }
    return Success, copy.value;
  }

  /** The loop over map entries. */
  method DumpMapEntries(
      stream: Stream, first: ListNode?, count: nat, indent: int, memory: seq<byte> -> bool,
      ghost nodes: seq<ListNode>, ghost items: seq<Decoded>)
    returns (status: Status, rest: ListNode?, ghost restNodes: seq<ListNode>)
    requires Lists(first, nodes, items) && DumpEntries(items, count, indent, memory) != NullNode
    modifies stream
    ensures match DumpEntries(items, count, indent, memory)
            case Dumped(left, lines) =>
              && status == Success && stream.lines == old(stream.lines) + lines && Lists(rest, restNodes, left)
            case DumpFailed(error) => status == error
            case NullNode => false
    decreases |items|, 1
  {
    hide Dump, DumpElements, Lists, IsExact, EntryData.Shows, Cut, Copied, Printed;
    var list, size := first, count;
    NextInList(first, nodes, items);
    restNodes := nodes;
    ghost var left: seq<Decoded>, lines: seq<Line> := items, [];
    AfterNothing(DumpEntries(items, count, indent, memory));
    while size > 0 && list != null
      invariant Lists(list, restNodes, left) && |left| <= |items| && (list == null <==> left == [])
      invariant stream.lines == old(stream.lines) + lines
      invariant DumpEntries(items, count, indent, memory) == After(lines, DumpEntries(left, size, indent, memory))
      decreases size
    {
      NextInList(list, restNodes, left);
      NextInList(list.next, restNodes[1..], left[1..]);
      EmptyListIsNull(left[1..], indent + 2, memory);
      var key;
      status, key := CopyKey(list, memory, left[0]);
      if status != Success {
        return status, null, [];
      }
      stream.Put(KeyLine(indent, key));
      ghost var printed := Dump(left[1..], indent + 2, memory);
      status, list, restNodes :=
        DumpEntryDataList(stream, list.next, indent + 2, memory, restNodes[1..], left[1..]);
      if status != Success {
        return status, null, [];
      }
      size := size - 1;
      AfterTwice(lines, [KeyLine(indent, key)] + printed.lines, DumpEntries(printed.rest, size, indent, memory));
      lines := lines + ([KeyLine(indent, key)] + printed.lines);
      left := printed.rest;
      NextInList(list, restNodes, left);
    }
    return Success, list, restNodes;
  }

  /** The loop over array elements. */
  method DumpArrayElements(
      stream: Stream, first: ListNode?, count: nat, indent: int, memory: seq<byte> -> bool,
      ghost nodes: seq<ListNode>, ghost items: seq<Decoded>)
    returns (status: Status, rest: ListNode?, ghost restNodes: seq<ListNode>)
    requires Lists(first, nodes, items) && DumpElements(items, count, indent, memory) != NullNode
    modifies stream
    ensures match DumpElements(items, count, indent, memory)
            case Dumped(left, lines) =>
              && status == Success && stream.lines == old(stream.lines) + lines && Lists(rest, restNodes, left)
            case DumpFailed(error) => status == error
            case NullNode => false
    decreases |items|, 1
  {
    hide Dump, Lists, IsExact, EntryData.Shows;
    var list, size := first, count;
    NextInList(first, nodes, items);
    restNodes := nodes;
    ghost var left: seq<Decoded>, lines: seq<Line> := items, [];
    AfterNothing(DumpElements(items, count, indent, memory));
    while size > 0 && list != null
      invariant Lists(list, restNodes, left) && |left| <= |items| && (list == null <==> left == [])
      invariant stream.lines == old(stream.lines) + lines
      invariant DumpElements(items, count, indent, memory) == After(lines, DumpElements(left, size, indent, memory))
      decreases size
    {
      ghost var printed := Dump(left, indent, memory);
      status, list, restNodes := DumpEntryDataList(stream, list, indent, memory, restNodes, left);
      if status != Success {
        return status, null, [];
      }
      size := size - 1;
      AfterTwice(lines, printed.lines, DumpElements(printed.rest, size, indent, memory));
      lines := lines + printed.lines;
      left := printed.rest;
      NextInList(list, restNodes, left);
    }
    return Success, list, restNodes;
  }

  /** Listing the value at `start` and dumping the list, as mmdblookup does: what
      is printed is the tree that the bytes denote. */
  method PrintValue(
      mem: seq<byte>, start: uint32, indent: int, nodes: nat -> bool, copies: seq<byte> -> bool, stream: Stream)
    returns (status: Status)
    requires Readable(mem)
    modifies stream
    ensures status == Success ==>
              exists t :: Denotes(mem, t) && t.at == start && Trouble(t, copies) == None
                       && stream.lines == old(stream.lines) + Render(t, indent)
    ensures forall t | Denotes(mem, t) && t.at == start && nodes(0) ::
              Height(t) <= 512 && |Preorder(t)| <= 1 + ListRoom(nodes) ==>
                status == if Trouble(t, copies).None? then Success else Trouble(t, copies).value
  {
    hide Denotes, Parses, Flatten, Dump, Render, Trouble, Preorder, Height;
    hide ListRoom, IsChain, ShowsAll, IsExact, Outcome;
    var list;
    ghost var chain;
    status, list, chain := MmdbGetEntryDataList(mem, start, nodes);
    forall t | Denotes(mem, t) && t.at == start
      ensures Parses(mem, t)
      ensures Flatten(mem, start, 0, ListRoom(nodes), true).Listed?
         <==> Height(t) <= MAXIMUM_DATA_STRUCTURE_DEPTH && |Preorder(t)| <= 1 + ListRoom(nodes)
    {
      DenotesIsParses(mem, t);
      FlattenSucceedsIff(mem, t, 0, ListRoom(nodes), true);
    }
    if status != Success {
      return status;
    }
    ghost var t := TreeOfFlatten(mem, start, 0, ListRoom(nodes), true);
    DenotesIsParses(mem, t);
    DumpPrintsTheTree(mem, t, indent, copies);
    ListedFieldsAreExact(mem, t);
    DumpOutcome(Dump(Preorder(t), indent, copies), [], Render(t, indent), Trouble(t, copies));
    var rest;
    ghost var restNodes;
    status, rest, restNodes := DumpEntryDataList(stream, list, indent, copies, chain, Preorder(t));
    forall u | Denotes(mem, u) && u.at == start ensures u == t {
      DenotesIsParses(mem, u);
      ParsesIsDeterministic(mem, t, u);
    }
  }

  lemma DumpOutcome(r: Dumped, rest: seq<Decoded>, lines: seq<Line>, trouble: Option<Status>)
    requires Outcome(r, rest, lines, trouble)
    ensures r == if trouble.None? then Dumped(rest, lines) else DumpFailed(trouble.value)
  {
  }
}
