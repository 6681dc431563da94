/** read_metadata on the tree that the metadata section denotes: which of its
    values, names and descriptions are read. */
module MetadataTrees {
  import opened Base
  import opened CStrings
  import opened Wire
  import opened Decoding
  import opened ValueTree
  import opened Flattening
  import opened Skipping
  import opened PathLookup
  import opened EntryList
  import opened MetadataReader

  /** The section denotes `t`, and looking up a key in it steps over nothing that
      cannot be skipped. */
  ghost predicate MetadataTree(section: seq<byte>, t: Tree) {
    t.at == 0 && Parses(section, t) && Searchable(t)
  }

  // ---- the reference: values of keys ----

  function At(t: Tree, key: string): Result<Tree> {
    Navigate(t, KeyPath(key))
  }

  function Uint16At(t: Tree, key: string): Result<nat> {
    match At(t, key)
    case Err(status) => Err(status)
    case Ok(v) =>
      match Resolve(v)
      case Leaf(_, _, Uint16(number)) => Ok(number)
      case _ => Err(InvalidMetadata)
  }

  function Uint32At(t: Tree, key: string): Result<nat> {
    match At(t, key)
    case Err(status) => Err(status)
    case Ok(v) =>
      match Resolve(v)
      case Leaf(_, _, Uint32(number)) => Ok(number)
      case _ => Err(InvalidMetadata)
  }

  function Uint64At(t: Tree, key: string): Result<nat> {
    match At(t, key)
    case Err(status) => Err(status)
    case Ok(v) =>
      match Resolve(v)
      case Leaf(_, _, Uint64(number)) => Ok(number)
      case _ => Err(InvalidMetadata)
  }

  /** The text of a string up to its first NUL, when it can be copied. */
  function TextOf(t: Tree, copies: seq<byte> -> bool): Result<seq<byte>> {
    if !IsText(t) then Err(InvalidMetadata)
    else if copies(Cut(KeyText(t))) then Ok(Cut(KeyText(t)))
    else Err(OutOfMemory)
  }

  function StringAt(t: Tree, key: string, copies: seq<byte> -> bool): Result<seq<byte>> {
    match At(t, key)
    case Err(status) => Err(status)
    case Ok(v) => TextOf(v, copies)
  }

  /** The texts of all elements; or the error of the first that has none. */
  function TextsOf(kids: Forest, copies: seq<byte> -> bool): Result<seq<seq<byte>>> {
    match kids
    case Nil => Ok([])
    case Cons(head, tail) =>
      var name :- TextOf(head, copies);
      var names :- TextsOf(tail, copies);
      Ok([name] + names)
  }

  /** Each key is a language, and its value the description in that language. */
  function DescriptionsOf(kids: Forest, i: nat, memory: Memory): Result<seq<Description>> {
    match kids
    case Cons(key, Cons(value, rest)) =>
      var _ :- Need(memory.descriptionEntry(i), OutOfMemory);
      var language :- TextOf(key, memory.copies);
      var text :- TextOf(value, memory.copies);
      var others :- DescriptionsOf(rest, i + 1, memory);
      Ok([Description(language, text)] + others)
    case _ => Ok([])
  }

  lemma {:induction false} TextAt(kids: Forest, copies: seq<byte> -> bool, i: nat)
    requires TextsOf(kids, copies).Ok? && i < Len(kids)
    ensures |TextsOf(kids, copies).value| == Len(kids)
    ensures TextsOf(kids, copies).value[i] == Cut(KeyText(Kid(kids, i)))
    decreases kids
  {
    hide Cut, IsText, KeyText;
    if kids.tail.Cons? {
      TextAt(kids.tail, copies, if i > 0 then i - 1 else 0);
    }
  }

  lemma {:induction false} DescriptionAt(kids: Forest, from: nat, memory: Memory, i: nat)
    requires DescriptionsOf(kids, from, memory).Ok? && 2 * i + 1 < Len(kids) && Len(kids) % 2 == 0
    ensures |DescriptionsOf(kids, from, memory).value| == Len(kids) / 2
    ensures DescriptionsOf(kids, from, memory).value[i]
         == Description(Cut(KeyText(Kid(kids, 2 * i))), Cut(KeyText(Kid(kids, 2 * i + 1))))
    decreases kids
  {
    hide Cut, IsText, KeyText;
    var rest := kids.tail.tail;
    if rest.Cons? {
      DescriptionAt(rest, from + 1, memory, if i > 0 then i - 1 else 0);
    } else {
      assert Len(kids) == 2;
    }
    if i > 0 {
      assert Kid(kids, 2 * i) == Kid(rest, 2 * (i - 1)) && Kid(kids, 2 * i + 1) == Kid(rest, 2 * (i - 1) + 1);
    }
  }

  // ---- what is read is what the tree has ----

  lemma ValueOfTree(section: seq<byte>, t: Tree, key: string)
    requires MetadataTree(section, t)
    ensures Finds(ValueFor(section, key), At(t, key))
  {
    hide Parses, Searchable, Navigate, Lookup;
    SearchableIsClear(section, t, KeyPath(key));
    LookupIsNavigation(section, t, KeyPath(key));
  }

  /** Each number read is the one that the tree has under that key; a value of
      another type is invalid, and a missing one is reported as such. */
  lemma NumbersOfTree(section: seq<byte>, t: Tree, key: string)
    requires MetadataTree(section, t)
    ensures Uint16For(section, key) == Uint16At(t, key)
    ensures Uint32For(section, key) == Uint32At(t, key)
    ensures Uint64For(section, key) == Uint64At(t, key)
  {
    hide MetadataTree, At, ValueFor;
    ValueOfTree(section, t, key);
  }

  lemma StringOfTree(section: seq<byte>, t: Tree, key: string, copies: seq<byte> -> bool)
    requires MetadataTree(section, t)
    ensures StringFor(section, key, copies) == StringAt(t, key, copies)
  {
    hide MetadataTree, At, ValueFor, Cut;
    ValueOfTree(section, t, key);
  }

  lemma {:induction false} NamesOfKids(kids: Forest, copies: seq<byte> -> bool)
    requires PairedIn(kids)
    ensures |PreorderAll(kids)| >= Len(kids)
    ensures Names(PreorderAll(kids), Len(kids), copies) == TextsOf(kids, copies)
    decreases kids
  {
    hide Cut;
    if kids.Cons? {
      KeyItem(kids.head);
      if IsText(kids.head) {
        assert PreorderAll(kids)[1..] == PreorderAll(kids.tail);
      }
      NamesOfKids(kids.tail, copies);
    }
  }

  lemma {:induction false} DescriptionsOfKids(kids: Forest, i: nat, count: nat, memory: Memory)
    requires PairedIn(kids) && Len(kids) == 2 * (count - i) && i <= count
    ensures |PreorderAll(kids)| >= Len(kids)
    ensures Descriptions(PreorderAll(kids), i, count, memory) == DescriptionsOf(kids, i, memory)
    decreases kids
  {
    hide Cut, Preorder;
    match kids
    case Nil =>
    case Cons(key, Cons(value, rest)) =>
      var items := PreorderAll(kids);
      assert PairedIn(kids.tail) && PreorderAll(kids.tail) == Preorder(value) + PreorderAll(rest);
      KeyItem(key);
      KeyItem(value);
      DescriptionsOfKids(rest, i + 1, count, memory);
      assert items[0] == Preorder(key)[0];
      if IsText(key) {
        assert items[1..] == Preorder(value) + PreorderAll(rest);
        assert items[1] == Preorder(value)[0];
        if IsText(value) {
          assert items[2..] == PreorderAll(rest);
        }
      }
  }

  /** The list of a container that was looked up. */
  lemma ListOfTree(section: seq<byte>, u: Tree, nodes: nat -> bool)
    requires Parses(section, u) && nodes(0) && Height(u) <= 512 && |Preorder(u)| <= 1 + ListRoom(nodes)
    ensures ListFor(section, u.at, nodes) == Ok(Preorder(u))
  {
    hide Parses, Flatten, Height, Preorder, ListRoom;
    FlattenOfTree(section, u, 0, ListRoom(nodes), true);
  }

  /** A container fits the depth limit and the memory for its list. */
  predicate CanBeListed(u: Tree, nodes: nat -> bool) {
    nodes(0) && Height(u) <= 512 && |Preorder(u)| <= 1 + ListRoom(nodes)
  }

  /** The languages read are the texts of the elements under "languages", in
      order. */
  lemma LanguagesOfTree(section: seq<byte>, t: Tree, v: Tree, memory: Memory)
    requires MetadataTree(section, t) && At(t, "languages") == Ok(v)
    requires Resolve(v).Items? ==>
               CanBeListed(Resolve(v), memory.languageNodes) && memory.languageTable(Len(Resolve(v).kids))
    ensures LanguagesFor(section, memory)
         == if Resolve(v).Items? then TextsOf(Resolve(v).kids, memory.copies) else Err(InvalidMetadata)
  {
    hide Parses, Searchable, Navigate, Lookup, Flatten, ListFor, Names, ListRoom;
    ValueOfTree(section, t, "languages");
    var u := Resolve(v);
    if u.Items? {
      ReachedParses(section, t, KeyPath("languages"));
      ListOfTree(section, u, memory.languageNodes);
      ParsedIsPaired(section, u);
      NamesOfKids(u.kids, memory.copies);
      assert Preorder(u)[1..] == PreorderAll(u.kids);
    }
  }

  /** The descriptions read are the keys and values under "description", in
      order. */
  lemma DescriptionOfTree(section: seq<byte>, t: Tree, v: Tree, memory: Memory)
    requires MetadataTree(section, t) && At(t, "description") == Ok(v)
    requires Resolve(v).Entries? ==>
               && CanBeListed(Resolve(v), memory.descriptionNodes)
               && (Resolve(v).kids.Cons? ==> memory.descriptionTable(Len(Resolve(v).kids) / 2))
    ensures DescriptionFor(section, memory)
         == if Resolve(v).Entries? then DescriptionsOf(Resolve(v).kids, 0, memory) else Err(InvalidMetadata)
  {
    hide Parses, Searchable, Navigate, Lookup, Flatten, ListFor, Descriptions, ListRoom;
    ValueOfTree(section, t, "description");
    var u := Resolve(v);
    if u.Entries? {
      ReachedParses(section, t, KeyPath("description"));
      ListOfTree(section, u, memory.descriptionNodes);
      ParsedIsPaired(section, u);
      DescriptionsOfKids(u.kids, 0, Len(u.kids) / 2, memory);
      assert Preorder(u)[1..] == PreorderAll(u.kids);
    }
  }

  /** What navigation reaches is denoted by the section as well. */
  lemma {:induction false} ReachedParses(section: seq<byte>, t: Tree, path: seq<PathElem>)
    requires Parses(section, t) && Navigate(t, path).Ok?
    ensures Parses(section, Navigate(t, path).value) && Parses(section, Resolve(Navigate(t, path).value))
    decreases |path|
  {
    hide Parses, Child;
    FollowOfTree(section, t);
    if path != [] {
      StepIff(section, Resolve(t), path[0]);
      ReachedParses(section, Child(Resolve(t), path[0]).value, path[1..]);
    }
  }

  predicate HasNames(t: Tree, names: seq<seq<byte>>, memory: Memory) {
    At(t, "languages").Ok? &&
    match Resolve(At(t, "languages").value)
    case Items(at, body, end, kids) =>
      && CanBeListed(Items(at, body, end, kids), memory.languageNodes) && memory.languageTable(Len(kids))
      && TextsOf(kids, memory.copies) == Ok(names)
    case _ => false
  }

  predicate HasDescriptions(t: Tree, descriptions: seq<Description>, memory: Memory) {
    At(t, "description").Ok? &&
    match Resolve(At(t, "description").value)
    case Entries(at, body, end, kids) =>
      && CanBeListed(Entries(at, body, end, kids), memory.descriptionNodes)
      && (kids.Cons? ==> memory.descriptionTable(Len(kids) / 2))
      && DescriptionsOf(kids, 0, memory) == Ok(descriptions)
    case _ => false
  }

  /** The tree has these values under the keys of read_metadata, and the requests
      for memory are granted. */
  predicate HasValues(t: Tree, m: MetadataValues, memory: Memory) {
    && Uint32At(t, "node_count") == Ok(m.nodeCount)
    && Uint16At(t, "record_size") == Ok(m.recordSize)
    && Uint16At(t, "ip_version") == Ok(m.ipVersion)
    && StringAt(t, "database_type", memory.copies) == Ok(m.databaseType)
    && HasNames(t, m.languages, memory)
    && Uint16At(t, "binary_format_major_version") == Ok(m.majorVersion)
    && Uint16At(t, "binary_format_minor_version") == Ok(m.minorVersion)
    && Uint64At(t, "build_epoch") == Ok(m.buildEpoch)
    && HasDescriptions(t, m.description, memory)
  }

  /** read_metadata reads the values that the tree has, and accepts or rejects
      them. */
  lemma MetadataOfTree(section: seq<byte>, t: Tree, m: MetadataValues, memory: Memory)
    requires MetadataTree(section, t) && HasValues(t, m, memory)
    ensures ReadMetadata(section, memory) == Verdict(m)
  {
    hide MetadataTree, At, TextsOf, DescriptionsOf, CanBeListed, Resolve;
    hide Uint16For, Uint32For, Uint64For, StringFor, LanguagesFor, DescriptionFor;
    hide Uint16At, Uint32At, Uint64At, StringAt;
    NumbersOfTree(section, t, "node_count");
    NumbersOfTree(section, t, "record_size");
    NumbersOfTree(section, t, "ip_version");
    StringOfTree(section, t, "database_type", memory.copies);
    LanguagesOfTree(section, t, At(t, "languages").value, memory);
    NumbersOfTree(section, t, "binary_format_major_version");
    NumbersOfTree(section, t, "binary_format_minor_version");
    NumbersOfTree(section, t, "build_epoch");
    DescriptionOfTree(section, t, At(t, "description").value, memory);
  }

  // ---- which error is reported ----

  function StatusIf<T>(r: Result<T>): Status {
    if r.Ok? then Success else r.status
  }

  /** The status of a test of a value that was read. */
  function Test<T(==)>(r: Result<T>, bad: T -> bool, status: Status): Status {
    if r.Ok? && bad(r.value) then status else Success
  }

  /** The first of two that is no success. */
  function Then(first: Status, second: Status): Status {
    if first != Success then first else second
  }

  function LanguagesAt(t: Tree, memory: Memory): Result<seq<seq<byte>>> {
    match At(t, "languages")
    case Err(status) => Err(status)
    case Ok(v) => if Resolve(v).Items? then TextsOf(Resolve(v).kids, memory.copies) else Err(InvalidMetadata)
  }

  function DescriptionsAt(t: Tree, memory: Memory): Result<seq<Description>> {
    match At(t, "description")
    case Err(status) => Err(status)
    case Ok(v) => if Resolve(v).Entries? then DescriptionsOf(Resolve(v).kids, 0, memory) else Err(InvalidMetadata)
  }

  /** The steps of read_metadata, in order. */
  function Steps(t: Tree, memory: Memory): Status {
    Then(LayoutSteps(t),
    Then(StatusIf(StringAt(t, "database_type", memory.copies)),
    Then(StatusIf(LanguagesAt(t, memory)),
         LaterSteps(t, memory))))
  }

  /** The steps before the database type. */
  function LayoutSteps(t: Tree): Status {
    Then(StatusIf(Uint32At(t, "node_count")),
    Then(Test(Uint32At(t, "node_count"), n => n == 0, InvalidMetadata),
    Then(StatusIf(Uint16At(t, "record_size")),
    Then(Test(Uint16At(t, "record_size"), n => n == 0, InvalidMetadata),
    Then(Test(Uint16At(t, "record_size"), n => n !in {24, 28, 32}, UnknownDatabaseFormat),
    Then(StatusIf(Uint16At(t, "ip_version")),
         Test(Uint16At(t, "ip_version"), n => n !in {4, 6}, InvalidMetadata)))))))
  }

  /** The steps after the languages. */
  function LaterSteps(t: Tree, memory: Memory): Status {
    Then(StatusIf(Uint16At(t, "binary_format_major_version")),
    Then(Test(Uint16At(t, "binary_format_major_version"), n => n == 0, InvalidMetadata),
    Then(StatusIf(Uint16At(t, "binary_format_minor_version")),
    Then(StatusIf(Uint64At(t, "build_epoch")),
    Then(Test(Uint64At(t, "build_epoch"), n => n == 0, InvalidMetadata),
         StatusIf(DescriptionsAt(t, memory)))))))
  }

  /** The lists of names and descriptions, where there are any, fit the memory for
      them. */
  predicate ListsFit(t: Tree, memory: Memory) {
    && (At(t, "languages").Ok? ==>
          match Resolve(At(t, "languages").value)
          case Items(at, body, end, kids) =>
            CanBeListed(Items(at, body, end, kids), memory.languageNodes) && memory.languageTable(Len(kids))
          case _ => true)
    && (At(t, "description").Ok? ==>
          match Resolve(At(t, "description").value)
          case Entries(at, body, end, kids) =>
            && CanBeListed(Entries(at, body, end, kids), memory.descriptionNodes)
            && (kids.Cons? ==> memory.descriptionTable(Len(kids) / 2))
          case _ => true)
  }

  lemma ListsOfTree(section: seq<byte>, t: Tree, memory: Memory)
    requires MetadataTree(section, t) && ListsFit(t, memory)
    ensures LanguagesFor(section, memory) == LanguagesAt(t, memory)
    ensures DescriptionFor(section, memory) == DescriptionsAt(t, memory)
  {
    hide MetadataTree, At, TextsOf, DescriptionsOf, CanBeListed, Resolve, ValueFor, Names, Descriptions;
    if At(t, "languages").Ok? {
      LanguagesOfTree(section, t, At(t, "languages").value, memory);
    } else {
      ValueOfTree(section, t, "languages");
    }
    if At(t, "description").Ok? {
      DescriptionOfTree(section, t, At(t, "description").value, memory);
    } else {
      ValueOfTree(section, t, "description");
    }
  }

  lemma LaterErrors(section: seq<byte>, t: Tree, memory: Memory, m: MetadataValues)
    requires MetadataTree(section, t) && ListsFit(t, memory)
    ensures StatusIf(RestOfMetadata(section, memory, m)) == LaterSteps(t, memory)
  {
    hide MetadataTree, ListsFit, Uint16For, Uint64For, DescriptionFor, Uint16At, Uint64At, DescriptionsAt;
    ListsOfTree(section, t, memory);
    NumbersOfTree(section, t, "binary_format_major_version");
    NumbersOfTree(section, t, "binary_format_minor_version");
    NumbersOfTree(section, t, "build_epoch");
  }

  lemma LayoutErrors(section: seq<byte>, t: Tree)
    requires MetadataTree(section, t)
    ensures StatusIf(LayoutValues(section)) == LayoutSteps(t)
  {
    hide MetadataTree, Uint16For, Uint32For, Uint16At, Uint32At;
    NumbersOfTree(section, t, "node_count");
    NumbersOfTree(section, t, "record_size");
    NumbersOfTree(section, t, "ip_version");
  }

  /** read_metadata reports the error of the first step that fails. */
  lemma MetadataErrors(section: seq<byte>, t: Tree, memory: Memory)
    requires MetadataTree(section, t) && ListsFit(t, memory)
    ensures StatusIf(ReadMetadata(section, memory)) == Steps(t, memory)
  {
    hide MetadataTree, ListsFit, LayoutValues, LayoutSteps, RestOfMetadata, LaterSteps;
    hide StringFor, LanguagesFor, StringAt, LanguagesAt;
    LayoutErrors(section, t);
    StringOfTree(section, t, "database_type", memory.copies);
    ListsOfTree(section, t, memory);
    forall m ensures StatusIf(RestOfMetadata(section, memory, m)) == LaterSteps(t, memory) {
      LaterErrors(section, t, memory, m);
    }
  }
}
