/** skip_map_or_array: stepping over a value without following pointers. It
    decodes only the head of a map key, so it ends where the value ends exactly
    when no map key stored in place is a container with children. */
module Skipping {
  import opened Base
  import opened Wire
  import opened Decoding
  import opened ValueTree
  import opened Flattening

  /** Where the next field starts, and how many fields were decoded on the way. */
  datatype Skipped = Skipped(end: nat, decodes: nat)

  /** skip_map_or_array after decode_one has read `d`. */
  function Skip(section: seq<byte>, d: Decoded, depth: nat): (r: Option<Skipped>)
    requires d.next <= |section|
    ensures r.Some? ==> d.next + r.value.decodes <= r.value.end <= |section|
    decreases MAXIMUM_DATA_STRUCTURE_DEPTH - depth, 0
  {
    if depth >= MAXIMUM_DATA_STRUCTURE_DEPTH then None else
    match d.field
    case Map(count) => SkipPairs(section, d.next, count, depth + 1)
    case Array(count) => SkipElements(section, d.next, count, depth + 1)
    case _ => Some(Skipped(d.next, 0))
  }

  /** The loop over map entries: one decode for the key, a full skip for the value. */
  function SkipPairs(section: seq<byte>, from: nat, count: nat, depth: nat): (r: Option<Skipped>)
    requires from <= |section|
    ensures r.Some? ==> from + r.value.decodes <= r.value.end <= |section|
    decreases MAXIMUM_DATA_STRUCTURE_DEPTH - depth, 1 + count
  {
    if count == 0 then Some(Skipped(from, 0)) else
    match Decode(section, from)
    case None => None
    case Some(key) =>
      match Decode(section, key.next)
      case None => None
      case Some(value) =>
        match Skip(section, value, depth)
        case None => None
        case Some(Skipped(end, inner)) =>
          match SkipPairs(section, end, count - 1, depth)
          case None => None
          case Some(Skipped(last, rest)) => Some(Skipped(last, 2 + inner + rest))
  }

  /** The loop over array elements. */
  function SkipElements(section: seq<byte>, from: nat, count: nat, depth: nat): (r: Option<Skipped>)
    requires from <= |section|
    ensures r.Some? ==> from + r.value.decodes <= r.value.end <= |section|
    decreases MAXIMUM_DATA_STRUCTURE_DEPTH - depth, 1 + count
  {
    if count == 0 then Some(Skipped(from, 0)) else
    match Decode(section, from)
    case None => None
    case Some(value) =>
      match Skip(section, value, depth)
      case None => None
      case Some(Skipped(end, inner)) =>
        match SkipElements(section, end, count - 1, depth)
        case None => None
        case Some(Skipped(last, rest)) => Some(Skipped(last, 1 + inner + rest))
  }

  /** The struct shows the field that decode_one reads at its offset. */
  ghost predicate ShowsOwnField(mem: seq<byte>, entryData: EntryData)
    reads entryData
  {
    Decode(mem, entryData.offset).Some? && entryData.Shows(Decode(mem, entryData.offset).value)
  }

  /** The C function: the struct ends up holding the field that was decoded last,
      which ends where the skip ends. Its two loops are methods of their own
      here. */
  method SkipMapOrArray(mem: seq<byte>, entryData: EntryData, ghost d: Decoded, depth: nat) returns (status: Status)
    requires Readable(mem) && Decode(mem, d.offset) == Some(d) && entryData.Shows(d)
    modifies entryData
    ensures status == if Skip(mem, d, depth).Some? then Success else InvalidData
    ensures status == Success ==>
              entryData.offsetToNext == Skip(mem, d, depth).value.end && ShowsOwnField(mem, entryData)
    decreases MAXIMUM_DATA_STRUCTURE_DEPTH - depth, 0
  {
    hide Decode;
    DecodedTypeIsExact(mem, d.offset);
    if depth >= MAXIMUM_DATA_STRUCTURE_DEPTH {
      return InvalidData;
    }
    if entryData.typ == TYPE_MAP {
      status := SkipMapEntries(mem, entryData, entryData.dataSize, depth + 1);
      return status;
    } else if entryData.typ == TYPE_ARRAY {
      status := SkipArrayElements(mem, entryData, entryData.dataSize, depth + 1);
      return status;
    }
    return Success;
  }

  method SkipMapEntries(mem: seq<byte>, entryData: EntryData, count: nat, depth: nat) returns (status: Status)
    requires Readable(mem) && entryData.offsetToNext <= |mem| && ShowsOwnField(mem, entryData)
    modifies entryData
    ensures var r := SkipPairs(mem, old(entryData.offsetToNext), count, depth);
            && status == (if r.Some? then Success else InvalidData)
            && (r.Some? ==> entryData.offsetToNext == r.value.end && ShowsOwnField(mem, entryData))
    decreases MAXIMUM_DATA_STRUCTURE_DEPTH - depth, 1
  {
    hide Decode, Skip;
    var size := count;
    while size > 0
      invariant entryData.offsetToNext <= |mem| && ShowsOwnField(mem, entryData)
      invariant SameOutcome(SkipPairs(mem, old(entryData.offsetToNext), count, depth),
                            SkipPairs(mem, entryData.offsetToNext, size, depth))
    {
      size := size - 1;
      status := entryData.DecodeOne(mem, entryData.offsetToNext);
      if status != Success {
        return status;
      }
      status := entryData.DecodeOne(mem, entryData.offsetToNext);
      if status != Success {
        return status;
      }
      status := SkipMapOrArray(mem, entryData, Decode(mem, entryData.offset).value, depth);
      if status != Success {
        return status;
      }
    }
    return Success;
  }

  method SkipArrayElements(mem: seq<byte>, entryData: EntryData, count: nat, depth: nat) returns (status: Status)
    requires Readable(mem) && entryData.offsetToNext <= |mem| && ShowsOwnField(mem, entryData)
    modifies entryData
    ensures var r := SkipElements(mem, old(entryData.offsetToNext), count, depth);
            && status == (if r.Some? then Success else InvalidData)
            && (r.Some? ==> entryData.offsetToNext == r.value.end && ShowsOwnField(mem, entryData))
    decreases MAXIMUM_DATA_STRUCTURE_DEPTH - depth, 1
  {
    hide Decode, Skip;
    var size := count;
    while size > 0
      invariant entryData.offsetToNext <= |mem| && ShowsOwnField(mem, entryData)
      invariant SameOutcome(SkipElements(mem, old(entryData.offsetToNext), count, depth),
                            SkipElements(mem, entryData.offsetToNext, size, depth))
    {
      size := size - 1;
      status := entryData.DecodeOne(mem, entryData.offsetToNext);
      if status != Success {
        return status;
      }
      status := SkipMapOrArray(mem, entryData, Decode(mem, entryData.offset).value, depth);
      if status != Success {
        return status;
      }
    }
    return Success;
  }

  /** Equal up to the number of decodes. */
  ghost predicate SameOutcome(a: Option<Skipped>, b: Option<Skipped>) {
    (a.Some? <==> b.Some?) && (a.Some? ==> a.value.end == b.value.end)
  }

  // ---- where the skipper lands on well-formed data ----

  predicate HeadOnly(key: Tree) {
    key.IsContainer() ==> key.kids == Nil
  }

  /** No map stored in place has a key that is a container with children. */
  predicate SkipSafe(t: Tree) {
    match t
    case Leaf(_, _, _) => true
    case Ref(_, _, _) => true
    case Items(_, _, _, kids) => SafeElements(kids, Len(kids))
    case Entries(_, _, _, kids) => SafePairs(kids, Len(kids) / 2)
  }

  predicate SafeElements(kids: Forest, count: nat) {
    match kids
    case Nil => true
    case Cons(value, rest) => count == 0 || (SkipSafe(value) && SafeElements(rest, count - 1))
  }

  predicate SafePairs(kids: Forest, count: nat) {
    match kids
    case Cons(key, Cons(value, rest)) =>
      count == 0 || (HeadOnly(key) && SkipSafe(value) && SafePairs(rest, count - 1))
    case _ => true
  }

  /** Levels of nesting in place: nothing behind a pointer counts. */
  function InlineHeight(t: Tree): (h: nat)
    ensures h >= 1
  {
    match t
    case Leaf(_, _, _) => 1
    case Ref(_, _, _) => 1
    case Items(_, _, _, kids) => 1 + MaxInlineHeight(kids)
    case Entries(_, _, _, kids) => 1 + MaxInlineHeight(kids)
  }

  function MaxInlineHeight(kids: Forest): nat {
    match kids
    case Nil => 0
    case Cons(head, tail) => Max(InlineHeight(head), MaxInlineHeight(tail))
  }

  lemma {:induction false} InlineHeightIsSmaller(t: Tree)
    ensures InlineHeight(t) <= Height(t)
    decreases t
  {
    if t.IsContainer() {
      MaxInlineHeightIsSmaller(t.kids);
    }
  }

  lemma {:induction false} MaxInlineHeightIsSmaller(kids: Forest)
    ensures MaxInlineHeight(kids) <= MaxHeight(kids)
    decreases kids
  {
    if kids.Cons? {
      InlineHeightIsSmaller(kids.head);
      MaxInlineHeightIsSmaller(kids.tail);
    }
  }

  lemma {:induction false} AppendHeight(f: Forest, g: Forest)
    ensures MaxInlineHeight(Append(f, g)) == Max(MaxInlineHeight(f), MaxInlineHeight(g))
  {
    if f.Cons? {
      AppendHeight(f.tail, g);
    }
  }

  /** The skipper steps over exactly this value when it starts at level `depth`: no
      key in its way is a container with children, and no nesting goes past the
      limit. */
  predicate Skippable(t: Tree, depth: nat) {
    depth < MAXIMUM_DATA_STRUCTURE_DEPTH &&
    match t
    case Leaf(_, _, _) => true
    case Ref(_, _, _) => true
    case Items(_, _, _, kids) => SkippableElements(kids, Len(kids), depth + 1)
    case Entries(_, _, _, kids) => SkippablePairs(kids, Len(kids) / 2, depth + 1)
  }

  predicate SkippableElements(kids: Forest, count: nat, depth: nat) {
    match kids
    case Nil => true
    case Cons(value, rest) => count == 0 || (Skippable(value, depth) && SkippableElements(rest, count - 1, depth))
  }

  predicate SkippablePairs(kids: Forest, count: nat, depth: nat) {
    match kids
    case Cons(key, Cons(value, rest)) =>
      count == 0 || (HeadOnly(key) && Skippable(value, depth) && SkippablePairs(rest, count - 1, depth))
    case _ => true
  }

  /** Being skippable is being safe and shallow. */
  lemma {:induction false} SkippableIsSafeAndShallow(t: Tree, depth: nat)
    requires Paired(t)
    ensures Skippable(t, depth) <==> SkipSafe(t) && depth + InlineHeight(t) <= MAXIMUM_DATA_STRUCTURE_DEPTH
    decreases t
  {
    if t.Items? {
      ElementsAreSafeAndShallow(t.kids, depth + 1);
    } else if t.Entries? {
      PairsAreSafeAndShallow(t.kids, depth + 1);
    }
  }

  lemma {:induction false} ElementsAreSafeAndShallow(kids: Forest, depth: nat)
    requires PairedIn(kids)
    ensures depth <= MAXIMUM_DATA_STRUCTURE_DEPTH ==>
              (SkippableElements(kids, Len(kids), depth)
          <==> SafeElements(kids, Len(kids)) && depth + MaxInlineHeight(kids) <= MAXIMUM_DATA_STRUCTURE_DEPTH)
    decreases kids
  {
    if kids.Cons? {
      SkippableIsSafeAndShallow(kids.head, depth);
      ElementsAreSafeAndShallow(kids.tail, depth);
    }
  }

  lemma {:induction false} PairsAreSafeAndShallow(kids: Forest, depth: nat)
    requires PairedIn(kids) && Len(kids) % 2 == 0
    ensures depth <= MAXIMUM_DATA_STRUCTURE_DEPTH ==>
              (SkippablePairs(kids, Len(kids) / 2, depth)
          <==> SafePairs(kids, Len(kids) / 2) && depth + MaxInlineHeight(kids) <= MAXIMUM_DATA_STRUCTURE_DEPTH)
    decreases kids
  {
    match kids
    case Nil =>
    case Cons(key, Cons(value, rest)) =>
      SkippableIsSafeAndShallow(value, depth);
      PairsAreSafeAndShallow(rest, depth);
      assert HeadOnly(key) ==> InlineHeight(key) == 1;
      assert MaxInlineHeight(kids) == Max(InlineHeight(key), Max(InlineHeight(value), MaxInlineHeight(rest)));
  }

  /** The first `n` values of a run from `from` end here, where value number `n`
      starts. */
  function Boundary(from: nat, kids: Forest, n: nat): nat
    requires n <= Len(kids)
    decreases n
  {
    if n == 0 then from else Boundary(kids.head.end, kids.tail, n - 1)
  }

  function Drop(kids: Forest, n: nat): (rest: Forest)
    requires n <= Len(kids)
    ensures Len(rest) == Len(kids) - n
  {
    if n == 0 then kids else Drop(kids.tail, n - 1)
  }

  lemma {:induction false} DropIsChain(section: seq<byte>, from: nat, kids: Forest, end: nat, n: nat)
    requires Chain(section, from, kids, end) && from <= |section| && n <= Len(kids)
    ensures Chain(section, Boundary(from, kids, n), Drop(kids, n), end) && Boundary(from, kids, n) <= |section|
    decreases n
  {
    if n > 0 {
      TreeExtent(section, kids.head);
      DropIsChain(section, kids.head.end, kids.tail, end, n - 1);
    }
  }

  /** Between two offsets lies at most one run of values. */
  lemma {:induction false} ChainIsUnique(section: seq<byte>, from: nat, f: Forest, g: Forest, end: nat)
    requires Chain(section, from, f, end) && Chain(section, from, g, end) && from <= |section|
    ensures f == g
    decreases f
  {
    ChainExtent(section, from, f, end);
    ChainExtent(section, from, g, end);
    if f.Cons? && g.Cons? {
      ParsesIsDeterministic(section, f.head, g.head);
      TreeExtent(section, f.head);
      ChainIsUnique(section, f.head.end, f.tail, g.tail, end);
    }
  }

  /** Wherever the skipper succeeds it lands between two values: what it has not
      stepped over is the chain `rest`, which is empty exactly when it steps over
      the whole value. It fails only where the nesting is too deep. */
  lemma {:induction false} SkipLeaves(section: seq<byte>, t: Tree, depth: nat) returns (rest: Forest)
    requires Parses(section, t)
    ensures Decode(section, t.at).Some?
    ensures var r := Skip(section, Decode(section, t.at).value, depth);
            && (depth + InlineHeight(t) <= MAXIMUM_DATA_STRUCTURE_DEPTH ==> r.Some?)
            && (Skippable(t, depth) ==> r.Some?)
            && (r.Some? ==> Chain(section, r.value.end, rest, t.end))
            && (r.Some? ==> MaxInlineHeight(rest) <= InlineHeight(t))
            && (r.Some? ==> (rest == Nil <==> Skippable(t, depth)))
            && (r.Some? && SkipSafe(t) ==> rest == Nil)
    decreases MAXIMUM_DATA_STRUCTURE_DEPTH - depth, 0
  {
    hide Decode;
    DecodeOfTree(section, t);
    TreeExtent(section, t);
    rest := Nil;
    if depth < MAXIMUM_DATA_STRUCTURE_DEPTH {
      match t
      case Leaf(_, _, _) =>
      case Ref(_, _, _) =>
      case Items(_, body, end, kids) =>
        rest := SkipElementsLeaves(section, body, kids, end, Len(kids), depth + 1);
      case Entries(_, body, end, kids) =>
        rest := SkipPairsLeaves(section, body, kids, end, Len(kids) / 2, depth + 1);
    }
  }

  /** Stepping over `count` elements of a run of values. */
  lemma {:induction false} SkipElementsLeaves(
      section: seq<byte>, from: nat, run: Forest, end: nat, count: nat, depth: nat)
    returns (rest: Forest)
    requires Chain(section, from, run, end) && from <= |section| && count <= Len(run)
    requires depth <= MAXIMUM_DATA_STRUCTURE_DEPTH
    ensures var r := SkipElements(section, from, count, depth);
            && (depth + MaxInlineHeight(run) <= MAXIMUM_DATA_STRUCTURE_DEPTH ==> r.Some?)
            && (SkippableElements(run, count, depth) ==> r.Some?)
            && (r.Some? ==> Chain(section, r.value.end, rest, end))
            && (r.Some? ==> MaxInlineHeight(rest) <= MaxInlineHeight(run) && Len(rest) >= Len(run) - count)
            && (r.Some? ==> (Len(rest) == Len(run) - count <==> SkippableElements(run, count, depth)))
            && (r.Some? && SafeElements(run, count) ==> Len(rest) == Len(run) - count)
            && (SkippableElements(run, count, depth) ==> r.value.end == Boundary(from, run, count))
    decreases MAXIMUM_DATA_STRUCTURE_DEPTH - depth, 1 + count
  {
    hide Decode, Parses, Skip, Skippable, SkipSafe;
    if count == 0 {
      return run;
    }
    var value := run.head;
    var inner := SkipLeaves(section, value, depth);
    if Skip(section, Decode(section, value.at).value, depth).None? {
      return Nil;
    }
    var landed := Skip(section, Decode(section, value.at).value, depth).value.end;
    ChainAppend(section, landed, inner, value.end, run.tail, end);
    AppendHeight(inner, run.tail);
    rest := SkipElementsLeaves(section, landed, Append(inner, run.tail), end, count - 1, depth);
  }

  /** Stepping over `count` entries of a run of values. A key that is a container
      is opened: its children join the run. */
  lemma {:induction false} SkipPairsLeaves(
      section: seq<byte>, from: nat, run: Forest, end: nat, count: nat, depth: nat)
    returns (rest: Forest)
    requires Chain(section, from, run, end) && from <= |section| && 2 * count <= Len(run)
    requires depth <= MAXIMUM_DATA_STRUCTURE_DEPTH
    ensures var r := SkipPairs(section, from, count, depth);
            && (depth + MaxInlineHeight(run) <= MAXIMUM_DATA_STRUCTURE_DEPTH ==> r.Some?)
            && (SkippablePairs(run, count, depth) ==> r.Some?)
            && (r.Some? ==> Chain(section, r.value.end, rest, end))
            && (r.Some? ==> MaxInlineHeight(rest) <= MaxInlineHeight(run) && Len(rest) >= Len(run) - 2 * count)
            && (r.Some? ==> (Len(rest) == Len(run) - 2 * count <==> SkippablePairs(run, count, depth)))
            && (r.Some? && SafePairs(run, count) ==> Len(rest) == Len(run) - 2 * count)
            && (SkippablePairs(run, count, depth) ==> r.value.end == Boundary(from, run, 2 * count))
    decreases MAXIMUM_DATA_STRUCTURE_DEPTH - depth, 1 + count
  {
    hide Decode, Parses, Skip, Skippable, SkipSafe, HeadOnly, InlineHeight;
    if count == 0 {
      return run;
    }
    var remaining := OpenKey(section, run, end);
    var value := remaining.head;
    var inner := SkipLeaves(section, value, depth);
    if Skip(section, Decode(section, value.at).value, depth).None? {
      return Nil;
    }
    var landed := Skip(section, Decode(section, value.at).value, depth).value.end;
    ChainAppend(section, landed, inner, value.end, remaining.tail, end);
    AppendHeight(inner, remaining.tail);
    rest := SkipPairsLeaves(section, landed, Append(inner, remaining.tail), end, count - 1, depth);
  }

  /** Decoding the head of the first value of a run leaves its children, then
      the rest of the run. */
  lemma OpenKey(section: seq<byte>, run: Forest, end: nat) returns (remaining: Forest)
    requires run.Cons? && run.tail.Cons? && Chain(section, run.head.at, run, end)
    ensures Decode(section, run.head.at).Some?
    ensures Chain(section, Decode(section, run.head.at).value.next, remaining, end)
    ensures remaining.Cons? && MaxInlineHeight(remaining) <= MaxInlineHeight(run) && Len(remaining) >= Len(run.tail)
    ensures Len(remaining) == Len(run.tail) <==> HeadOnly(run.head)
    ensures HeadOnly(run.head) ==> remaining == run.tail
  {
    hide Decode;
    var key := run.head;
    DecodeOfTree(section, key);
    if key.IsContainer() {
      remaining := Append(key.kids, run.tail);
      ChainAppend(section, key.body, key.kids, key.end, run.tail, end);
      AppendHeight(key.kids, run.tail);
    } else {
      remaining := run.tail;
    }
  }

  // ---- the main results ----

  /** The skipper succeeds and ends at the end of a well-formed value exactly when
      the value is safe and its nesting in place stays within the depth limit. */
  lemma SkipIsExactIff(section: seq<byte>, t: Tree, depth: nat)
    requires Parses(section, t)
    ensures Decode(section, t.at).Some?
    ensures var r := Skip(section, Decode(section, t.at).value, depth);
            && (r.Some? && r.value.end == t.end <==> Skippable(t, depth))
            && (Skippable(t, depth)
                <==> SkipSafe(t) && depth + InlineHeight(t) <= 512)
  {
    hide Parses, Decode, Skip, SkipSafe, Skippable;
    var rest := SkipLeaves(section, t, depth);
    ParsedIsPaired(section, t);
    SkippableIsSafeAndShallow(t, depth);
    var r := Skip(section, Decode(section, t.at).value, depth);
    if r.Some? {
      ChainExtent(section, r.value.end, rest, t.end);
    }
  }

  /** Where skipping a well-formed value ends: inside it, and at its end exactly
      when it is safe. */
  lemma SkipLanding(section: seq<byte>, t: Tree, depth: nat)
    requires Parses(section, t) && depth + InlineHeight(t) <= MAXIMUM_DATA_STRUCTURE_DEPTH
    ensures Decode(section, t.at).Some?
    ensures var r := Skip(section, Decode(section, t.at).value, depth);
            r.Some? && r.value.end <= t.end && (r.value.end == t.end <==> SkipSafe(t))
  {
    hide Parses, Decode, Skip, SkipSafe, Skippable;
    var rest := SkipLeaves(section, t, depth);
    var landed := Skip(section, Decode(section, t.at).value, depth).value.end;
    ChainExtent(section, landed, rest, t.end);
    SkipIsExactIff(section, t, depth);
  }

  /** A safe value is skipped exactly when its nesting in place stays within the
      depth limit. */
  lemma SkipSucceedsIff(section: seq<byte>, t: Tree, depth: nat)
    requires Parses(section, t) && SkipSafe(t)
    ensures Decode(section, t.at).Some?
    ensures Skip(section, Decode(section, t.at).value, depth).Some?
       <==> depth + InlineHeight(t) <= 512
  {
    hide Parses, Decode, Skip, SkipSafe, Skippable;
    var rest := SkipLeaves(section, t, depth);
    SkipIsExactIff(section, t, depth);
  }

  /** Stepping over `count` elements arrives where element number `count` starts
      exactly when each of them is skippable. */
  lemma ElementsLandIff(section: seq<byte>, from: nat, kids: Forest, end: nat, count: nat, depth: nat)
    requires Chain(section, from, kids, end) && from <= |section| && count <= Len(kids)
    requires depth <= MAXIMUM_DATA_STRUCTURE_DEPTH
    ensures var r := SkipElements(section, from, count, depth);
            r.Some? && r.value.end == Boundary(from, kids, count) <==> SkippableElements(kids, count, depth)
  {
    hide Parses, Decode, SkipElements, SkippableElements;
    var rest := SkipElementsLeaves(section, from, kids, end, count, depth);
    DropIsChain(section, from, kids, end, count);
    var r := SkipElements(section, from, count, depth);
    if r.Some? && r.value.end == Boundary(from, kids, count) {
      ChainIsUnique(section, r.value.end, rest, Drop(kids, count), end);
    }
  }

  /** Stepping over `count` map entries arrives where key number `count` starts
      exactly when none of their keys is an in-place container with children and
      each of their values is skippable. */
  lemma PairsLandIff(section: seq<byte>, from: nat, kids: Forest, end: nat, count: nat, depth: nat)
    requires Chain(section, from, kids, end) && from <= |section| && 2 * count <= Len(kids)
    requires depth <= MAXIMUM_DATA_STRUCTURE_DEPTH
    ensures var r := SkipPairs(section, from, count, depth);
            r.Some? && r.value.end == Boundary(from, kids, 2 * count) <==> SkippablePairs(kids, count, depth)
  {
    hide Parses, Decode, SkipPairs, SkippablePairs;
    var rest := SkipPairsLeaves(section, from, kids, end, count, depth);
    DropIsChain(section, from, kids, end, 2 * count);
    var r := SkipPairs(section, from, count, depth);
    if r.Some? && r.value.end == Boundary(from, kids, 2 * count) {
      ChainIsUnique(section, r.value.end, rest, Drop(kids, 2 * count), end);
    }
  }

  // ---- skipping any bytes ----

  /** Elements are skipped one after the other: `m + n` of them by skipping `m` and
      then, from where that ends, `n`. */
  lemma {:induction false} ElementsInTurn(section: seq<byte>, from: nat, m: nat, n: nat, depth: nat)
    requires from <= |section|
    ensures var first := SkipElements(section, from, m, depth);
            SameOutcome(SkipElements(section, from, m + n, depth),
                        if first.None? then None else SkipElements(section, first.value.end, n, depth))
    decreases m
  {
    hide Decode, Skip;
    if m > 0 && Decode(section, from).Some? && Skip(section, Decode(section, from).value, depth).Some? {
      ElementsInTurn(section, Skip(section, Decode(section, from).value, depth).value.end, m - 1, n, depth);
    }
  }

  lemma {:induction false} PairsInTurn(section: seq<byte>, from: nat, m: nat, n: nat, depth: nat)
    requires from <= |section|
    ensures var first := SkipPairs(section, from, m, depth);
            SameOutcome(SkipPairs(section, from, m + n, depth),
                        if first.None? then None else SkipPairs(section, first.value.end, n, depth))
    decreases m
  {
    hide Decode, Skip;
    if m > 0 && Decode(section, from).Some? && Decode(section, Decode(section, from).value.next).Some? {
      var value := Decode(section, Decode(section, from).value.next).value;
      if Skip(section, value, depth).Some? {
        PairsInTurn(section, Skip(section, value, depth).value.end, m - 1, n, depth);
      }
    }
  }

  /** A container is skipped exactly when its level is allowed and each of its elements,
      or of its keys and values, can be decoded and, but for keys, skipped, one level
      deeper, where the one before ended. */
  lemma SkipFailsIff(section: seq<byte>, d: Decoded, depth: nat)
    requires d.next <= |section|
    ensures !d.field.IsContainer() ==> (Skip(section, d, depth).None? <==> depth >= 512)
    ensures d.field.Array? ==>
              (Skip(section, d, depth).None?
          <==> depth >= 512 || ElementsStopWithin(section, d.next, d.field.count, depth + 1))
    ensures d.field.Map? ==>
              (Skip(section, d, depth).None?
          <==> depth >= 512 || PairsStopWithin(section, d.next, d.field.count, depth + 1))
  {
    hide Decode, SkipElements, SkipPairs, ElementsStopWithin, PairsStopWithin;
    if depth < 512 {
      if d.field.Array? {
        ElementsStop(section, d.next, d.field.count, depth + 1);
      } else if d.field.Map? {
        PairsStop(section, d.next, d.field.count, depth + 1);
      }
    }
  }

  /** Skipping gets past the first `k` elements, and not past the next. */
  predicate StopsAtElement(section: seq<byte>, from: nat, k: nat, depth: nat)
    requires from <= |section|
  {
    var before := SkipElements(section, from, k, depth);
    before.Some? &&
    var value := Decode(section, before.value.end);
    value.None? || Skip(section, value.value, depth).None?
  }

  /** Skipping gets past the first `k` entries, and not past the next. */
  predicate StopsAtPair(section: seq<byte>, from: nat, k: nat, depth: nat)
    requires from <= |section|
  {
    var before := SkipPairs(section, from, k, depth);
    before.Some? &&
    var key := Decode(section, before.value.end);
    key.None? ||
    var value := Decode(section, key.value.next);
    value.None? || Skip(section, value.value, depth).None?
  }

  ghost predicate ElementsStopWithin(section: seq<byte>, from: nat, count: nat, depth: nat)
    requires from <= |section|
  {
    exists k: nat :: k < count && StopsAtElement(section, from, k, depth)
  }

  lemma {:induction false} ElementsStop(section: seq<byte>, from: nat, count: nat, depth: nat)
    requires from <= |section|
    ensures SkipElements(section, from, count, depth).None?
       <==> ElementsStopWithin(section, from, count, depth)
    decreases count
  {
    hide Decode, Skip;
    if count > 0 {
      ElementsStop(section, from, count - 1, depth);
      ElementsInTurn(section, from, count - 1, 1, depth);
      var before := SkipElements(section, from, count - 1, depth);
      assert before.Some? ==> (SkipElements(section, before.value.end, 1, depth).None?
                          <==> StopsAtElement(section, from, count - 1, depth)) by {
        if before.Some? {
          OneElementSkipped(section, before.value.end, depth);
        }
      }
      assert ElementsStopWithin(section, from, count, depth)
        <==> ElementsStopWithin(section, from, count - 1, depth) || StopsAtElement(section, from, count - 1, depth);
    }
  }

  lemma OneElementSkipped(section: seq<byte>, from: nat, depth: nat)
    requires from <= |section|
    ensures SkipElements(section, from, 1, depth).None?
       <==> Decode(section, from).None? || Skip(section, Decode(section, from).value, depth).None?
  {
    hide Decode, Skip;
    if Decode(section, from).Some? && Skip(section, Decode(section, from).value, depth).Some? {
      NothingSkipped(section, Skip(section, Decode(section, from).value, depth).value.end, depth);
    }
  }

  lemma NothingSkipped(section: seq<byte>, from: nat, depth: nat)
    requires from <= |section|
    ensures SkipElements(section, from, 0, depth) == SkipPairs(section, from, 0, depth) == Some(Skipped(from, 0))
  {
  }

  ghost predicate PairsStopWithin(section: seq<byte>, from: nat, count: nat, depth: nat)
    requires from <= |section|
  {
    exists k: nat :: k < count && StopsAtPair(section, from, k, depth)
  }

  lemma {:induction false} PairsStop(section: seq<byte>, from: nat, count: nat, depth: nat)
    requires from <= |section|
    ensures SkipPairs(section, from, count, depth).None?
       <==> PairsStopWithin(section, from, count, depth)
    decreases count
  {
    hide Decode, Skip;
    if count > 0 {
      PairsStop(section, from, count - 1, depth);
      PairsInTurn(section, from, count - 1, 1, depth);
      var before := SkipPairs(section, from, count - 1, depth);
      assert before.Some? ==> (SkipPairs(section, before.value.end, 1, depth).None?
                          <==> StopsAtPair(section, from, count - 1, depth)) by {
        if before.Some? {
          OnePairSkipped(section, before.value.end, depth);
        }
      }
      assert PairsStopWithin(section, from, count, depth)
        <==> PairsStopWithin(section, from, count - 1, depth) || StopsAtPair(section, from, count - 1, depth);
    }
  }

  lemma OnePairSkipped(section: seq<byte>, from: nat, depth: nat)
    requires from <= |section|
    ensures SkipPairs(section, from, 1, depth).None?
       <==> || Decode(section, from).None?
            || Decode(section, Decode(section, from).value.next).None?
            || Skip(section, Decode(section, Decode(section, from).value.next).value, depth).None?
  {
    hide Decode, Skip;
    if Decode(section, from).Some? && Decode(section, Decode(section, from).value.next).Some? {
      var value := Decode(section, Decode(section, from).value.next).value;
      if Skip(section, value, depth).Some? {
        NothingSkipped(section, Skip(section, value, depth).value.end, depth);
      }
    }
  }

  /** Whatever get_entry_data_list accepts, decode_one followed by
      skip_map_or_array accepts too, with the same next offset exactly when the
      value is safe. */
  lemma SkipAgreesWithFlatten(section: seq<byte>, at: nat, depth: nat, room: nat) returns (t: Tree)
    requires Flatten(section, at, depth, room, true).Listed?
    ensures Denotes(section, t) && t.at == at
    ensures Flatten(section, at, depth, room, true).items == Preorder(t)
    ensures Decode(section, at).Some?
    ensures var r := Skip(section, Decode(section, at).value, depth);
            && r.Some?
            && (r.value.end == Flatten(section, at, depth, room, true).items[0].next <==> SkipSafe(t))
  {
    hide Denotes, Parses, Decode, Skip, SkipSafe, Flatten;
    t := TreeOfFlatten(section, at, depth, room, true);
    DenotesIsParses(section, t);
    InlineHeightIsSmaller(t);
    SkipLanding(section, t, depth);
  }

  /** A one-entry map whose key is a one-element array. */
  const CONTAINER_KEY: seq<byte> := [225, 1, 4, 64, 64]

  lemma ShortString(section: seq<byte>, at: nat, length: nat)
    requires length < 29 && at + 1 + length <= |section| && section[at] == 64 + length
    ensures Decode(section, at) == Some(Decoded(Plain(Utf8(section[at + 1..at + 1 + length])), at, at + 1 + length))
  {
    assert HeadAt(section, at) == Some(Head(TYPE_UTF8_STRING, at + 1));
    assert SizeAt(section, section[at], at + 1) == Some(Sized(length, at + 1));
  }

  lemma SmallMap(section: seq<byte>, at: nat, count: nat)
    requires count < 29 && at < |section| && section[at] == 224 + count
    ensures Decode(section, at) == Some(Decoded(Map(count), at, at + 1))
  {
    assert HeadAt(section, at) == Some(Head(TYPE_MAP, at + 1));
    assert SizeAt(section, section[at], at + 1) == Some(Sized(count, at + 1));
  }

  lemma SmallArray(section: seq<byte>, at: nat, count: nat)
    requires count < 29 && at + 1 < |section| && section[at] == count && section[at + 1] == 4
    ensures Decode(section, at) == Some(Decoded(Array(count), at, at + 2))
  {
    assert HeadAt(section, at) == Some(Head(TYPE_ARRAY, at + 2));
    assert SizeAt(section, section[at], at + 2) == Some(Sized(count, at + 2));
  }

  lemma ContainerKeyFields()
    ensures Decode(CONTAINER_KEY, 0) == Some(Decoded(Map(1), 0, 1))
    ensures Decode(CONTAINER_KEY, 1) == Some(Decoded(Array(1), 1, 3))
    ensures Decode(CONTAINER_KEY, 3) == Some(Decoded(Plain(Utf8([])), 3, 4))
    ensures Decode(CONTAINER_KEY, 4) == Some(Decoded(Plain(Utf8([])), 4, 5))
  {
    hide Decode;
    SmallMap(CONTAINER_KEY, 0, 1);
    SmallArray(CONTAINER_KEY, 1, 1);
    ShortString(CONTAINER_KEY, 3, 0);
    ShortString(CONTAINER_KEY, 4, 0);
    assert CONTAINER_KEY[4..4] == [] && CONTAINER_KEY[5..5] == [];
  }

  /** The two traversals disagree on it: the flattener goes on after byte 5, the
      skipper after byte 4. */
  lemma ContainerKeyMisleadsSkip()
    ensures Flatten(CONTAINER_KEY, 0, 0, 10, true).Listed?
    ensures Flatten(CONTAINER_KEY, 0, 0, 10, true).items[0].next == 5
    ensures Decode(CONTAINER_KEY, 0).Some?
    ensures Skip(CONTAINER_KEY, Decode(CONTAINER_KEY, 0).value, 0) == Some(Skipped(4, 2))
  {
    hide Decode;
    ContainerKeyFields();
    var s := CONTAINER_KEY;
    assert SkipPairs(s, 4, 0, 1) == Some(Skipped(4, 0));
    assert Flatten(s, 3, 2, 8, true) == Listed([Decoded(Plain(Utf8([])), 3, 4)]);
    assert Flatten(s, 1, 1, 9, true).Listed?;
    assert Flatten(s, 4, 1, 7, true) == Listed([Decoded(Plain(Utf8([])), 4, 5)]);
  }
}
