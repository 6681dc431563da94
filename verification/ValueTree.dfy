/** Value trees and the relation "these bytes denote this tree". A tree records
    where each of its fields is stored, so that one tree determines every offset
    the library reports about it. */
module ValueTree {
  import opened Base
  import opened Wire
  import opened Decoding
  import opened WireProofs

  /** `at` is where the value's own field starts and `end` where the next field
      of the enclosing container starts; `body` is where the first child is.
      The children of a map are key, value, key, value, ... */
  datatype Tree =
    | Leaf(at: nat, end: nat, scalar: Scalar)
    | Items(at: nat, body: nat, end: nat, kids: Forest)
    | Entries(at: nat, body: nat, end: nat, kids: Forest)
    | Ref(at: nat, end: nat, target: Tree)
  {
    predicate IsContainer() {
      Items? || Entries?
    }
  }

  datatype Forest = Nil | Cons(head: Tree, tail: Forest)

  function Len(f: Forest): nat {
    match f
    case Nil => 0
    case Cons(_, tail) => 1 + Len(tail)
  }

  function Append(f: Forest, g: Forest): (h: Forest)
    ensures Len(h) == Len(f) + Len(g)
  {
    match f
    case Nil => g
    case Cons(head, tail) => Cons(head, Append(tail, g))
  }

  // ---- the reference: the bytes of a tree are encodings of its fields ----

  /** The section stores `t` at t.at. A pointer leads to a value that is not a
      pointer itself. */
  ghost predicate Denotes(section: seq<byte>, t: Tree)
    decreases t
  {
    match t
    case Leaf(at, end, scalar) =>
      FieldAt(section, at, Plain(scalar), end)
    case Items(at, body, end, kids) =>
      FieldAt(section, at, Array(Len(kids)), body) && DenotesRun(section, body, kids, end)
    case Entries(at, body, end, kids) =>
      && Len(kids) % 2 == 0
      && FieldAt(section, at, Map(Len(kids) / 2), body) && DenotesRun(section, body, kids, end)
    case Ref(at, end, target) =>
      && !target.Ref? && Denotes(section, target)
      && exists width :: FieldAt(section, at, Pointer(target.at, width), end)
  }

  /** The section stores the trees of `kids` one after the other from `from`. */
  ghost predicate DenotesRun(section: seq<byte>, from: nat, kids: Forest, end: nat)
    decreases kids
  {
    match kids
    case Nil => from == end
    case Cons(head, tail) =>
      head.at == from && Denotes(section, head) && DenotesRun(section, head.end, tail, end)
  }

  // ---- the same, as decode_one sees it ----

  ghost predicate Parses(section: seq<byte>, t: Tree)
    decreases t
  {
    match t
    case Leaf(at, end, scalar) =>
      Decode(section, at) == Some(Decoded(Plain(scalar), at, end))
    case Items(at, body, end, kids) =>
      Decode(section, at) == Some(Decoded(Array(Len(kids)), at, body)) && Chain(section, body, kids, end)
    case Entries(at, body, end, kids) =>
      && Len(kids) % 2 == 0
      && Decode(section, at) == Some(Decoded(Map(Len(kids) / 2), at, body)) && Chain(section, body, kids, end)
    case Ref(at, end, target) =>
      && !target.Ref? && Parses(section, target)
      && Decode(section, at).Some? && Decode(section, at).value.next == end
      && Decode(section, at).value.field.Pointer? && Decode(section, at).value.field.target == target.at
  }

  ghost predicate Chain(section: seq<byte>, from: nat, kids: Forest, end: nat)
    decreases kids
  {
    match kids
    case Nil => from == end
    case Cons(head, tail) =>
      head.at == from && Parses(section, head) && Chain(section, head.end, tail, end)
  }

  /** decode_one sees a tree exactly where encodings of its fields are stored. */
  lemma {:induction false} DenotesIsParses(section: seq<byte>, t: Tree)
    ensures Denotes(section, t) <==> Parses(section, t)
    decreases t
  {
    hide FieldAt, Decode;
    match t
    case Leaf(at, end, scalar) =>
      DecodeIsExact(section, at, Plain(scalar), end);
    case Items(at, body, end, kids) =>
      DecodeIsExact(section, at, Array(Len(kids)), body);
      DenotesRunIsChain(section, body, kids, end);
    case Entries(at, body, end, kids) =>
      DecodeIsExact(section, at, Map(Len(kids) / 2), body);
      DenotesRunIsChain(section, body, kids, end);
    case Ref(at, end, target) =>
      DenotesIsParses(section, target);
      forall width ensures FieldAt(section, at, Pointer(target.at, width), end)
                      <==> Decode(section, at) == Some(Decoded(Pointer(target.at, width), at, end)) {
        DecodeIsExact(section, at, Pointer(target.at, width), end);
      }
      if Parses(section, t) {
        var width := Decode(section, at).value.field.width;
        assert FieldAt(section, at, Pointer(target.at, width), end);
      }
  }

  lemma {:induction false} DenotesRunIsChain(section: seq<byte>, from: nat, kids: Forest, end: nat)
    ensures DenotesRun(section, from, kids, end) <==> Chain(section, from, kids, end)
    decreases kids
  {
    if kids.Cons? {
      DenotesIsParses(section, kids.head);
      DenotesRunIsChain(section, kids.head.end, kids.tail, end);
    }
  }

  // ---- what a tree determines ----

  /** The field stored at t.at itself. */
  function OwnField(t: Tree): Field
    requires !t.Ref?
  {
    match t
    case Leaf(_, _, scalar) => Plain(scalar)
    case Items(_, _, _, kids) => Array(Len(kids))
    case Entries(_, _, _, kids) => Map(Len(kids) / 2)
  }

  /** The offset after the field stored at t.at itself. */
  function OwnNext(t: Tree): nat {
    if t.IsContainer() then t.body else t.end
  }

  /** Depth-first preorder: a container before its children, a key before its
      value. A value reached through a pointer is listed with the offset of the
      target, and with the end of the pointer as its next offset. */
  function Preorder(t: Tree): (items: seq<Decoded>)
    ensures |items| >= 1 && items[0].next == t.end
  {
    match t
    case Leaf(at, end, scalar) => [Decoded(Plain(scalar), at, end)]
    case Items(at, _, end, kids) => [Decoded(OwnField(t), at, end)] + PreorderAll(kids)
    case Entries(at, _, end, kids) => [Decoded(OwnField(t), at, end)] + PreorderAll(kids)
    case Ref(_, end, target) =>
      var items := Preorder(target);
      [items[0].(next := end)] + items[1..]
  }

  function PreorderAll(kids: Forest): (items: seq<Decoded>)
    ensures |items| >= Len(kids)
  {
    match kids
    case Nil => []
    case Cons(head, tail) => Preorder(head) + PreorderAll(tail)
  }

  function Max(a: nat, b: nat): nat {
    if a < b then b else a
  }

  /** Levels of nesting, where entering a container through a pointer takes one
      level more, as it does in get_entry_data_list. */
  function Height(t: Tree): (h: nat)
    ensures h >= 1
  {
    match t
    case Leaf(_, _, _) => 1
    case Items(_, _, _, kids) => 1 + MaxHeight(kids)
    case Entries(_, _, _, kids) => 1 + MaxHeight(kids)
    case Ref(_, _, target) => if target.Leaf? then 1 else 1 + Height(target)
  }

  function MaxHeight(kids: Forest): nat {
    match kids
    case Nil => 0
    case Cons(head, tail) => Max(Height(head), MaxHeight(tail))
  }

  // ---- first consequences ----

  /** decode_one at a stored tree reads the tree's own field. */
  lemma DecodeOfTree(section: seq<byte>, t: Tree)
    requires Parses(section, t)
    ensures !t.Ref? ==> Decode(section, t.at) == Some(Decoded(OwnField(t), t.at, OwnNext(t)))
    ensures t.Ref? ==>
              && Decode(section, t.at).Some?
              && Decode(section, t.at).value.next == t.end
              && Decode(section, t.at).value.field.Pointer?
              && Decode(section, t.at).value.field.target == t.target.at
  {
    hide Decode;
  }

  /** Every stored value takes at least one byte, inside the section. */
  lemma {:induction false} TreeExtent(section: seq<byte>, t: Tree)
    requires Parses(section, t)
    ensures t.at < t.end <= |section|
    ensures t.IsContainer() ==> t.at < t.body && t.body + Len(t.kids) <= t.end
    decreases t
  {
    DecodeOfTree(section, t);
    if t.IsContainer() {
      ChainExtent(section, t.body, t.kids, t.end);
    }
  }

  lemma {:induction false} ChainExtent(section: seq<byte>, from: nat, kids: Forest, end: nat)
    requires Chain(section, from, kids, end) && from <= |section|
    ensures from + Len(kids) <= end <= |section|
    decreases kids
  {
    if kids.Cons? {
      TreeExtent(section, kids.head);
      ChainExtent(section, kids.head.end, kids.tail, end);
    }
  }

  lemma {:induction false} ChainAppend(section: seq<byte>, from: nat, f: Forest, middle: nat, g: Forest, end: nat)
    requires Chain(section, from, f, middle) && Chain(section, middle, g, end)
    ensures Chain(section, from, Append(f, g), end)
    decreases f
  {
    if f.Cons? {
      ChainAppend(section, f.head.end, f.tail, middle, g, end);
    }
  }

  /** Maps have a value for each key, as in every tree that bytes denote; and no
      pointer leads to a pointer. */
  predicate Paired(t: Tree) {
    match t
    case Leaf(_, _, _) => true
    case Items(_, _, _, kids) => PairedIn(kids)
    case Entries(_, _, _, kids) => Len(kids) % 2 == 0 && PairedIn(kids)
    case Ref(_, _, target) => !target.Ref? && Paired(target)
  }

  predicate PairedIn(kids: Forest) {
    match kids
    case Nil => true
    case Cons(head, tail) => Paired(head) && PairedIn(tail)
  }

  lemma {:induction false} ParsedIsPaired(section: seq<byte>, t: Tree)
    requires Parses(section, t)
    ensures Paired(t)
    decreases t
  {
    hide Decode;
    match t
    case Leaf(_, _, _) =>
    case Items(_, body, end, kids) => ChainIsPaired(section, body, kids, end);
    case Entries(_, body, end, kids) => ChainIsPaired(section, body, kids, end);
    case Ref(_, _, target) => ParsedIsPaired(section, target);
  }

  lemma {:induction false} ChainIsPaired(section: seq<byte>, from: nat, kids: Forest, end: nat)
    requires Chain(section, from, kids, end)
    ensures PairedIn(kids)
    decreases kids
  {
    hide Parses;
    if kids.Cons? {
      ParsedIsPaired(section, kids.head);
      ChainIsPaired(section, kids.head.end, kids.tail, end);
    }
  }

  /** The bytes at one offset denote at most one tree. */
  lemma {:induction false} ParsesIsDeterministic(section: seq<byte>, t: Tree, u: Tree)
    requires Parses(section, t) && Parses(section, u) && t.at == u.at
    ensures t == u
    decreases t
  {
    DecodeOfTree(section, t);
    DecodeOfTree(section, u);
    if t.Ref? {
      ParsesIsDeterministic(section, t.target, u.target);
    } else if t.IsContainer() {
      assert Len(t.kids) == Len(u.kids);
      ChainIsDeterministic(section, t.body, t.kids, t.end, u.kids, u.end);
    }
  }

  lemma {:induction false} ChainIsDeterministic(
      section: seq<byte>, from: nat, f: Forest, fEnd: nat, g: Forest, gEnd: nat)
    requires Chain(section, from, f, fEnd) && Chain(section, from, g, gEnd) && Len(f) == Len(g)
    ensures f == g && fEnd == gEnd
    decreases f
  {
    if f.Cons? {
      ParsesIsDeterministic(section, f.head, g.head);
      ChainIsDeterministic(section, f.head.end, f.tail, fEnd, g.tail, gEnd);
    }
  }

  // ---- the fields of a list are those of decode_one ----

  lemma {:induction false} ListedFieldsAreExact(section: seq<byte>, t: Tree)
    requires Parses(section, t)
    ensures forall d | d in Preorder(t) :: IsExact(d.field)
    decreases t
  {
    hide Decode, IsExact;
    DecodeOfTree(section, t);
    match t
    case Leaf(at, _, _) => DecodedFieldIsExact(section, at);
    case Items(at, body, end, kids) =>
      DecodedFieldIsExact(section, at);
      ListedRunIsExact(section, body, kids, end);
    case Entries(at, body, end, kids) =>
      DecodedFieldIsExact(section, at);
      ListedRunIsExact(section, body, kids, end);
    case Ref(_, _, target) =>
      ListedFieldsAreExact(section, target);
      assert Preorder(target)[0] in Preorder(target);
      assert forall d | d in Preorder(target)[1..] :: d in Preorder(target);
  }

  lemma {:induction false} ListedRunIsExact(section: seq<byte>, from: nat, kids: Forest, end: nat)
    requires Chain(section, from, kids, end)
    ensures forall d | d in PreorderAll(kids) :: IsExact(d.field)
    decreases kids
  {
    hide Parses, IsExact;
    if kids.Cons? {
      ListedFieldsAreExact(section, kids.head);
      ListedRunIsExact(section, kids.head.end, kids.tail, end);
    }
  }
}
