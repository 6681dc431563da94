/** read_metadata: the values of the metadata section are looked up by key, with
    the functions that read the data section, and checked. */
module MetadataReader {
  import opened Base
  import opened CStrings
  import opened Wire
  import opened Decoding
  import opened ValueTree
  import opened Flattening
  import opened PathLookup
  import opened Skipping
  import opened DataPool
  import opened EntryList

  /** Which requests for memory are granted: blocks of the two lists, the tables
      of names and descriptions, each description, and copies of strings. */
  datatype Memory = Memory(
    languageNodes: nat -> bool, languageTable: nat -> bool,
    descriptionNodes: nat -> bool, descriptionTable: nat -> bool, descriptionEntry: nat -> bool,
    copies: seq<byte> -> bool)

  /** MMDB_description_s */
  datatype Description = Description(language: seq<byte>, text: seq<byte>)

  /** MMDB_metadata_s */
  datatype MetadataValues = MetadataValues(
    nodeCount: uint32, recordSize: uint16, ipVersion: uint16, databaseType: seq<byte>, languages: seq<seq<byte>>,
    majorVersion: uint16, minorVersion: uint16, buildEpoch: uint64, description: seq<Description>)

  // ---- what is read ----

  function Ascii(s: string): (bs: seq<byte>)
    ensures |bs| == |s|
  {
    seq(|s|, i requires 0 <= i < |s| => s[i] as int % 256)
  }

  /** The path of one key: strtol makes no number of it. */
  function KeyPath(key: string): seq<PathElem> {
    [PathElem(Ascii(key), 0, false, true)]
  }

  function ValueFor(section: seq<byte>, key: string): (r: Result<Decoded>)
    ensures r.Err? ==> r.status != Success
  {
    Lookup(section, 0, KeyPath(key))
  }

  lemma ValueIsFollowed(section: seq<byte>, key: string)
    requires ValueFor(section, key).Ok?
    ensures Followed(section, ValueFor(section, key).value)
  {
    hide Decode, Follow, FollowPath;
    FollowIsFollowed(section, 0);
    FollowPathIsFollowed(section, Follow(section, 0).value, KeyPath(key));
  }

  /** Metadata that is no map has no value for any key: strtol makes no index of
      a key, not even 0. */
  lemma OnlyMapsHaveKeys(section: seq<byte>, key: string)
    requires Follow(section, 0).Some? && !Follow(section, 0).value.field.Map?
    ensures ValueFor(section, key) == Err(LookupPathDoesNotMatchData)
  {
    hide Decode, Follow, SkipElements;
    var d := Follow(section, 0).value;
    assert LookupStep(section, d, KeyPath(key)[0]) == Err(LookupPathDoesNotMatchData);
  }

  /** A number that decode_one reads fits its type. */
  predicate InRange(field: Field) {
    field.Plain? ==>
      && (field.scalar.Uint16? ==> field.scalar.number < 0x1_0000)
      && (field.scalar.Uint32? ==> field.scalar.number < UINT32_LIMIT)
      && (field.scalar.Uint64? ==> field.scalar.number < UINT64_LIMIT)
  }

  lemma PayloadInRange(typ: nat, size: nat, payload: seq<byte>)
    requires |payload| == PayloadSize(typ, size) && FieldOf(typ, size, payload).Some?
    ensures InRange(FieldOf(typ, size, payload).value)
  {
    hide BigEndian, TwosComplement32;
    BigEndianBound(payload);
    Power256Values();
    if typ == TYPE_UINT16 {
      Power256Monotone(size, 2);
    } else if typ == TYPE_UINT32 {
      Power256Monotone(size, 4);
    } else if typ == TYPE_UINT64 {
      Power256Monotone(size, 8);
    }
  }

  lemma DecodedInRange(section: seq<byte>, at: nat)
    requires Decode(section, at).Some?
    ensures InRange(Decode(section, at).value.field) && IsExact(Decode(section, at).value.field)
  {
    DecodedFieldIsExact(section, at);
    hide SizeAt, FieldOf, InRange, IsExact;
    var Head(typ, pos) := HeadAt(section, at).value;
    if typ == TYPE_POINTER {
      PointerInRange(Decode(section, at).value.field);
    } else {
      var Sized(size, start) := SizeAt(section, section[at], pos).value;
      PayloadInRange(typ, size, section[start..start + PayloadSize(typ, size)]);
    }
  }

  lemma PointerInRange(field: Field)
    requires field.Pointer?
    ensures InRange(field)
  {
  }

  lemma FollowedInRange(section: seq<byte>, at: nat)
    requires Follow(section, at).Some?
    ensures InRange(Follow(section, at).value.field) && IsExact(Follow(section, at).value.field)
  {
    hide Decode, InRange, IsExact;
    DecodedInRange(section, at);
    var d := Decode(section, at).value;
    if d.field.Pointer? {
      DecodedInRange(section, d.field.target);
    }
  }

  lemma ValueInRange(section: seq<byte>, key: string)
    requires ValueFor(section, key).Ok?
    ensures InRange(ValueFor(section, key).value.field) && IsExact(ValueFor(section, key).value.field)
  {
    hide ValueFor, Follow, InRange, IsExact;
    ValueIsFollowed(section, key);
    FollowedInRange(section, ValueFor(section, key).value.offset);
  }

  /** value_for_key_as_uint16, value_for_key_as_uint32 and value_for_key_as_uint64 */
  function Uint16For(section: seq<byte>, key: string): (r: Result<uint16>)
    ensures r.Err? ==> r.status != Success
  {
    var d :- ValueFor(section, key);
    ValueInRange(section, key);
    if d.field.Plain? && d.field.scalar.Uint16? then Ok(d.field.scalar.number) else Err(InvalidMetadata)
  }

  function Uint32For(section: seq<byte>, key: string): (r: Result<uint32>)
    ensures r.Err? ==> r.status != Success
  {
    var d :- ValueFor(section, key);
    ValueInRange(section, key);
    if d.field.Plain? && d.field.scalar.Uint32? then Ok(d.field.scalar.number) else Err(InvalidMetadata)
  }

  function Uint64For(section: seq<byte>, key: string): (r: Result<uint64>)
    ensures r.Err? ==> r.status != Success
  {
    var d :- ValueFor(section, key);
    ValueInRange(section, key);
    if d.field.Plain? && d.field.scalar.Uint64? then Ok(d.field.scalar.number) else Err(InvalidMetadata)
  }

  predicate IsString(field: Field) {
    field.Plain? && field.scalar.Utf8?
  }

  /** A copy of a string, up to its first NUL. */
  function CopyOf(field: Field, copies: seq<byte> -> bool): (r: Result<seq<byte>>)
    ensures r.Err? ==> r.status != Success
  {
    if !IsString(field) then Err(InvalidMetadata)
    else if !copies(Cut(field.scalar.text)) then Err(OutOfMemory)
    else Ok(Cut(field.scalar.text))
  }

  /** value_for_key_as_string */
  function StringFor(section: seq<byte>, key: string, copies: seq<byte> -> bool): (r: Result<seq<byte>>)
    ensures r.Err? ==> r.status != Success
  {
    var d :- ValueFor(section, key);
    CopyOf(d.field, copies)
  }

  /** MMDB_get_entry_data_list, as far as the items go. */
  function ListFor(section: seq<byte>, at: nat, nodes: nat -> bool): (r: Result<seq<Decoded>>)
    ensures r.Ok? ==> r.value != []
    ensures r.Err? ==> r.status != Success
  {
    if !nodes(0) then Err(OutOfMemory) else
    match Flatten(section, at, 0, ListRoom(nodes), true)
    case Failed(status) => Err(status)
    case Listed(items) => Ok(items)
  }

  /** The list of a container starts with that container and has an item for each
      child: stepping through it never reaches NULL. */
  lemma ListHasChildren(section: seq<byte>, d: Decoded, nodes: nat -> bool)
    requires Followed(section, d) && d.field.IsContainer() && ListFor(section, d.offset, nodes).Ok?
    ensures var items := ListFor(section, d.offset, nodes).value;
            && items[0].field == d.field
            && |items| > (if d.field.Array? then d.field.count else 2 * d.field.count)
  {
    hide Flatten, Decode, Parses, ListRoom;
    var t := TreeOfFlatten(section, d.offset, 0, ListRoom(nodes), true);
    DecodeOfTree(section, t);
    OwnFieldIsFollowed(section, d, t);
    assert |Preorder(t)| > Len(t.kids) by { PreorderHasChildren(t); }
  }

  lemma PreorderHasChildren(t: Tree)
    requires t.IsContainer()
    ensures |Preorder(t)| > Len(t.kids) && Preorder(t)[0].field == OwnField(t)
  {
  }

  lemma OwnFieldIsFollowed(section: seq<byte>, d: Decoded, t: Tree)
    requires Followed(section, d) && d.field.IsContainer() && Parses(section, t) && t.at == d.offset
    ensures t.IsContainer() && OwnField(t) == d.field
    ensures Len(t.kids) == if d.field.Array? then d.field.count else 2 * d.field.count
  {
    hide Decode;
    DecodeOfTree(section, t);
    if t.Ref? {
      DecodeOfTree(section, t.target);
    }
  }

  /** The loop of populate_languages_metadata. */
  function Names(items: seq<Decoded>, count: nat, copies: seq<byte> -> bool): (r: Result<seq<seq<byte>>>)
    requires |items| >= count
    ensures r.Err? ==> r.status != Success
    decreases count
  {
    if count == 0 then Ok([]) else
    var name :- CopyOf(items[0].field, copies);
    var rest :- Names(items[1..], count - 1, copies);
    Ok([name] + rest)
  }

  function LanguagesFor(section: seq<byte>, memory: Memory): (r: Result<seq<seq<byte>>>)
    ensures r.Err? ==> r.status != Success
  {
    var d :- ValueFor(section, "languages");
    if !d.field.Array? then Err(InvalidMetadata) else
    var items :- ListFor(section, d.offset, memory.languageNodes);
    if !memory.languageTable(d.field.count) then Err(OutOfMemory)
    else
      ValueIsFollowed(section, "languages");
      ListHasChildren(section, d, memory.languageNodes);
      Names(items[1..], d.field.count, memory.copies)
  }

  /** The loop of populate_description_metadata, from entry `i` on. */
  function Descriptions(items: seq<Decoded>, i: nat, count: nat, memory: Memory): (r: Result<seq<Description>>)
    requires i <= count && |items| >= 2 * (count - i)
    ensures r.Err? ==> r.status != Success
    decreases count - i
  {
    if i == count then Ok([])
    else if !memory.descriptionEntry(i) then Err(OutOfMemory)
    else
      var language :- CopyOf(items[0].field, memory.copies);
      var text :- CopyOf(items[1].field, memory.copies);
      var rest :- Descriptions(items[2..], i + 1, count, memory);
      Ok([Description(language, text)] + rest)
  }

  function DescriptionFor(section: seq<byte>, memory: Memory): (r: Result<seq<Description>>)
    ensures r.Err? ==> r.status != Success
  {
    var d :- ValueFor(section, "description");
    if !d.field.Map? then Err(InvalidMetadata) else
    var items :- ListFor(section, d.offset, memory.descriptionNodes);
    if d.field.count == 0 then Ok([])
    else if !memory.descriptionTable(d.field.count) then Err(OutOfMemory)
    else
      ValueIsFollowed(section, "description");
      ListHasChildren(section, d, memory.descriptionNodes);
      Descriptions(items[1..], 0, d.field.count, memory)
  }

  function Need(holds: bool, status: Status): (r: Result<()>)
    requires status != Success
    ensures r.Err? ==> r.status != Success
  {
    if holds then Ok(()) else Err(status)
  }

  const NO_VALUES := MetadataValues(0, 0, 0, [], [], 0, 0, 0, [])

  /** The rest of read_metadata, from the format version on. */
  function RestOfMetadata(section: seq<byte>, memory: Memory, m: MetadataValues): (r: Result<MetadataValues>)
    ensures r.Err? ==> r.status != Success
  {
    var majorVersion :- Uint16For(section, "binary_format_major_version");
    var _ :- Need(majorVersion != 0, InvalidMetadata);
    var minorVersion :- Uint16For(section, "binary_format_minor_version");
    var buildEpoch :- Uint64For(section, "build_epoch");
    var _ :- Need(buildEpoch != 0, InvalidMetadata);
    var description :- DescriptionFor(section, memory);
    Ok(m.(majorVersion := majorVersion, minorVersion := minorVersion, buildEpoch := buildEpoch,
          description := description))
  }

  /** The first steps of read_metadata: the values that the layout depends on. */
  function LayoutValues(section: seq<byte>): (r: Result<MetadataValues>)
    ensures r.Err? ==> r.status != Success
  {
    var nodeCount :- Uint32For(section, "node_count");
    var _ :- Need(nodeCount != 0, InvalidMetadata);
    var recordSize :- Uint16For(section, "record_size");
    var _ :- Need(recordSize != 0, InvalidMetadata);
    var _ :- Need(recordSize in {24, 28, 32}, UnknownDatabaseFormat);
    var ipVersion :- Uint16For(section, "ip_version");
    var _ :- Need(ipVersion in {4, 6}, InvalidMetadata);
    Ok(NO_VALUES.(nodeCount := nodeCount, recordSize := recordSize, ipVersion := ipVersion))
  }

  /** read_metadata */
  function ReadMetadata(section: seq<byte>, memory: Memory): (r: Result<MetadataValues>)
    ensures r.Err? ==> r.status != Success
  {
    var m :- LayoutValues(section);
    var databaseType :- StringFor(section, "database_type", memory.copies);
    var languages :- LanguagesFor(section, memory);
    RestOfMetadata(section, memory, m.(databaseType := databaseType, languages := languages))
  }

  /** The values that read_metadata accepts. */
  predicate Acceptable(m: MetadataValues) {
    && m.nodeCount != 0 && m.recordSize in {24, 28, 32} && m.ipVersion in {4, 6}
    && m.majorVersion != 0 && m.buildEpoch != 0
  }

  /** What it makes of such values: an unknown record size is an unknown format, and
      everything else that it does not accept is invalid. */
  function Verdict(m: MetadataValues): Result<MetadataValues> {
    if Acceptable(m) then Ok(m)
    else if m.nodeCount != 0 && m.recordSize !in {0, 24, 28, 32} then Err(UnknownDatabaseFormat)
    else Err(InvalidMetadata)
  }

  /** What the checks let through. */
  lemma ReadMetadataChecks(section: seq<byte>, memory: Memory)
    requires ReadMetadata(section, memory).Ok?
    ensures var m := ReadMetadata(section, memory).value;
            && m.nodeCount > 0 && m.recordSize in {24, 28, 32} && m.ipVersion in {4, 6}
            && m.majorVersion > 0 && m.buildEpoch > 0
  {
    hide Uint16For, Uint32For, Uint64For, StringFor, LanguagesFor, DescriptionFor;
  }

  // ---- the C functions ----

  /** The outcome of a C function that returns a status and stores a value. */
  ghost predicate Gives<T>(r: Result<T>, status: Status, value: T) {
    if r.Ok? then status == Success && value == r.value else status == r.status
  }

  /** MMDB_aget_value with one key, and the type test of the value_for_key
      functions. */
  method ValueForKey(mem: seq<byte>, key: string, kind: uint32) returns (status: Status, entryData: EntryData)
    requires Readable(mem)
    ensures fresh(entryData)
    ensures var r := ValueFor(mem, key);
            status == if r.Err? then r.status else if TypeCode(r.value.field) == kind then Success else InvalidMetadata
    ensures ValueFor(mem, key).Ok? ==>
              && entryData.Shows(ValueFor(mem, key).value) && IsExact(ValueFor(mem, key).value.field)
  {
    hide Lookup, Trail;
    entryData := new EntryData();
    ghost var trail;
    status, trail := AgetValue(mem, 0, KeyPath(key), entryData);
    if status != Success {
      return status, entryData;
    }
    ValueInRange(mem, key);
    if kind != entryData.typ {
      return InvalidMetadata, entryData;
    }
  }

  method ValueForKeyAsUint16(mem: seq<byte>, key: string) returns (status: Status, value: uint16)
    requires Readable(mem)
    ensures Gives(Uint16For(mem, key), status, value)
  {
    hide ValueFor;
    value := 0;
    var entryData;
    status, entryData := ValueForKey(mem, key, TYPE_UINT16);
    if status == Success {
      ExactType(ValueFor(mem, key).value.field);
      ValueInRange(mem, key);
      value := entryData.value.scalar.number;
    }
  }

  method ValueForKeyAsUint32(mem: seq<byte>, key: string) returns (status: Status, value: uint32)
    requires Readable(mem)
    ensures Gives(Uint32For(mem, key), status, value)
  {
    hide ValueFor;
    value := 0;
    var entryData;
    status, entryData := ValueForKey(mem, key, TYPE_UINT32);
    if status == Success {
      ExactType(ValueFor(mem, key).value.field);
      ValueInRange(mem, key);
      value := entryData.value.scalar.number;
    }
  }

  method ValueForKeyAsUint64(mem: seq<byte>, key: string) returns (status: Status, value: uint64)
    requires Readable(mem)
    ensures Gives(Uint64For(mem, key), status, value)
  {
    hide ValueFor;
    value := 0;
    var entryData;
    status, entryData := ValueForKey(mem, key, TYPE_UINT64);
    if status == Success {
      ExactType(ValueFor(mem, key).value.field);
      ValueInRange(mem, key);
      value := entryData.value.scalar.number;
    }
  }

  /** The type test and the copy that every string of the metadata goes through. */
  method CopyString(entryData: EntryData, copies: seq<byte> -> bool, ghost d: Decoded)
    returns (status: Status, copy: seq<byte>)
    requires entryData.Shows(d) && IsExact(d.field)
    ensures Gives(CopyOf(d.field, copies), status, copy)
  {
    ExactType(d.field);
    copy := [];
    if entryData.typ != TYPE_UTF8_STRING {
      return InvalidMetadata, copy;
    }
    var text := entryData.value.scalar.text;
    assert text[..|text|] == text;
    var copied := StrNDup(text, entryData.dataSize, copies);
    if copied.None? {
      return OutOfMemory, copy;
    }
    return Success, copied.value;
  }

  method ValueForKeyAsString(mem: seq<byte>, key: string, copies: seq<byte> -> bool)
    returns (status: Status, value: seq<byte>)
    requires Readable(mem)
    ensures Gives(StringFor(mem, key, copies), status, value)
  {
    hide ValueFor;
    value := [];
    var entryData;
    status, entryData := ValueForKey(mem, key, TYPE_UTF8_STRING);
    if ValueFor(mem, key).Ok? {
      ExactType(ValueFor(mem, key).value.field);
    }
    if status == Success {
      status, value := CopyString(entryData, copies, ValueFor(mem, key).value);
    }
  }

  /** MMDB_get_entry_data_list on a container just looked up. */
  method ListContainer(mem: seq<byte>, entryData: EntryData, nodes: nat -> bool, ghost d: Decoded)
    returns (status: Status, list: ListNode?, ghost chain: seq<ListNode>)
    requires Readable(mem) && Followed(mem, d) && d.field.IsContainer() && entryData.Shows(d)
    ensures var r := ListFor(mem, d.offset, nodes);
            && status == (if r.Ok? then Success else r.status)
            && (r.Ok? ==>
                  && Lists(list, chain, r.value)
                  && r.value[0].field == d.field
                  && |r.value| > (if d.field.Array? then d.field.count else 2 * d.field.count))
  {
    hide Flatten, Followed, ListRoom, IsChain, ShowsAll, IsExact;
    status, list, chain := MmdbGetEntryDataList(mem, entryData.offset, nodes);
    if ListFor(mem, d.offset, nodes).Ok? {
      ListHasChildren(mem, d, nodes);
      var t := TreeOfFlatten(mem, d.offset, 0, ListRoom(nodes), true);
      ListedFieldsAreExact(mem, t);
    }
  }

  /** Values before those of a result. */
  function Prepend<T>(done: seq<T>, r: Result<seq<T>>): Result<seq<T>> {
    match r
    case Err(status) => Err(status)
    case Ok(more) => Ok(done + more)
  }

  lemma PrependTwice<T>(a: seq<T>, b: seq<T>, r: Result<seq<T>>)
    ensures Prepend(a, Prepend(b, r)) == Prepend(a + b, r)
  {
    if r.Ok? {
      assert a + (b + r.value) == a + b + r.value;
    }
  }

  lemma PrependNothing<T>(r: Result<seq<T>>)
    ensures Prepend([], r) == r
  {
    if r.Ok? {
      assert [] + r.value == r.value;
    }
  }

  /** The loop of populate_languages_metadata: each node after `list` is a name. */
  method CopyNames(
      list: ListNode, arraySize: nat, copies: seq<byte> -> bool, ghost chain: seq<ListNode>, ghost items: seq<Decoded>)
    returns (status: Status, names: seq<seq<byte>>)
    requires Lists(list, chain, items) && |items| > arraySize
    ensures Gives(Names(items[1..], arraySize, copies), status, names)
  {
    hide Lists, IsExact, CopyOf, EntryData.Shows;
    names := [];
    var member: ListNode? := list;
    ghost var nodes, at := chain, items;
    PrependNothing(Names(items[1..], arraySize, copies));
    for i := 0 to arraySize
      invariant Lists(member, nodes, at) && |at| > arraySize - i
      invariant Names(items[1..], arraySize, copies) == Prepend(names, Names(at[1..], arraySize - i, copies))
    {
      NextInList(member, nodes, at);
      NextInList(member.next, nodes[1..], at[1..]);
      member, nodes, at := member.next, nodes[1..], at[1..];
      var name;
      status, name := CopyString(member.entryData, copies, at[0]);
      if status != Success {
        return status, names;
      }
      PrependTwice(names, [name], Names(at[1..], arraySize - i - 1, copies));
      names := names + [name];
    }
    assert names + [] == names;
    return Success, names;
  }

  /** populate_languages_metadata */
  method PopulateLanguages(mem: seq<byte>, memory: Memory) returns (status: Status, names: seq<seq<byte>>)
    requires Readable(mem)
    ensures Gives(LanguagesFor(mem, memory), status, names)
  {
    hide ValueFor, Followed, ListFor, Lists, IsExact, CopyOf, EntryData.Shows;
    names := [];
    var entryData;
    status, entryData := ValueForKey(mem, "languages", TYPE_ARRAY);
    if ValueFor(mem, "languages").Ok? {
      ExactType(ValueFor(mem, "languages").value.field);
    }
    if status != Success {
      return status, names;
    }
    ghost var d := ValueFor(mem, "languages").value;
    ValueIsFollowed(mem, "languages");
    var member;
    ghost var chain;
    status, member, chain := ListContainer(mem, entryData, memory.languageNodes, d);
    if status != Success {
      return status, names;
    }
    ghost var items := ListFor(mem, d.offset, memory.languageNodes).value;
    NextInList(member, chain, items);
    var arraySize := HeadSize(member, items[0]);
    if !memory.languageTable(arraySize) {
      return OutOfMemory, names;
    }
    status, names := CopyNames(member, arraySize, memory.copies, chain, items);
  }

  /** The number of children of the container that a list starts with. */
  method HeadSize(list: ListNode, ghost d: Decoded) returns (size: nat)
    requires list.entryData.Shows(d) && d.field.IsContainer()
    ensures size == d.field.count
  {
    size := list.entryData.dataSize;
  }

  /** One round of the loop of populate_description_metadata: a language and a text. */
  method CopyDescription(
      list: ListNode, copies: seq<byte> -> bool, ghost chain: seq<ListNode>, ghost items: seq<Decoded>)
    returns (status: Status, description: Description, member: ListNode?)
    requires Lists(list, chain, items) && |items| > 2
    ensures var language := CopyOf(items[1].field, copies);
            var text := CopyOf(items[2].field, copies);
            if language.Err? then status == language.status
            else if text.Err? then status == text.status
            else status == Success && description == Description(language.value, text.value)
    ensures status == Success ==> |chain| == |items| && Lists(member, chain[2..], items[2..])
  {
    hide Lists, IsExact, CopyOf, EntryData.Shows;
    description := Description([], []);
    SameLength(list, chain, items);
    NextInList(list, chain, items);
    NextInList(list.next, chain[1..], items[1..]);
    member := list.next;
    var language, text;
    status, language := CopyString(member.entryData, copies, items[1]);
    if status != Success {
      return status, description, member;
    }
    assert items[1..][1..] == items[2..] && chain[1..][1..] == chain[2..];
    NextInList(member.next, chain[2..], items[2..]);
    member := member.next;
    status, text := CopyString(member.entryData, copies, items[2]);
    if status != Success {
      return status, description, member;
    }
    description := Description(language, text);
  }

  lemma SameLength(list: ListNode?, chain: seq<ListNode>, items: seq<Decoded>)
    requires Lists(list, chain, items)
    ensures |chain| == |items|
  {
  }

  /** The loop of populate_description_metadata. */
  method CopyDescriptions(
      list: ListNode, mapSize: nat, memory: Memory, ghost chain: seq<ListNode>, ghost items: seq<Decoded>)
    returns (status: Status, descriptions: seq<Description>)
    requires Lists(list, chain, items) && |items| > 2 * mapSize
    ensures Gives(Descriptions(items[1..], 0, mapSize, memory), status, descriptions)
  {
    hide Lists, IsExact, CopyOf, EntryData.Shows;
    descriptions := [];
    var member: ListNode? := list;
    ghost var nodes, at := chain, items;
    PrependNothing(Descriptions(items[1..], 0, mapSize, memory));
    for i := 0 to mapSize
      invariant Lists(member, nodes, at) && |at| > 2 * (mapSize - i)
      invariant Descriptions(items[1..], 0, mapSize, memory)
             == Prepend(descriptions, Descriptions(at[1..], i, mapSize, memory))
    {
      if !memory.descriptionEntry(i) {
        return OutOfMemory, descriptions;
      }
      NextInList(member, nodes, at);
      var description;
      status, description, member := CopyDescription(member, memory.copies, nodes, at);
      assert at[1..][0] == at[1] && at[1..][1] == at[2] && at[1..][2..] == at[2..][1..];
      if status != Success {
        return status, descriptions;
      }
      PrependTwice(descriptions, [description], Descriptions(at[2..][1..], i + 1, mapSize, memory));
      nodes, at := nodes[2..], at[2..];
      descriptions := descriptions + [description];
    }
    assert descriptions + [] == descriptions;
    return Success, descriptions;
  }

  /** populate_description_metadata */
  method PopulateDescription(mem: seq<byte>, memory: Memory)
    returns (status: Status, descriptions: seq<Description>)
    requires Readable(mem)
    ensures Gives(DescriptionFor(mem, memory), status, descriptions)
  {
    hide ValueFor, Followed, ListFor, Lists, IsExact, CopyOf, EntryData.Shows;
    descriptions := [];
    var entryData;
    status, entryData := ValueForKey(mem, "description", TYPE_MAP);
    if ValueFor(mem, "description").Ok? {
      ExactType(ValueFor(mem, "description").value.field);
    }
    if status != Success {
      return status, descriptions;
    }
    ghost var d := ValueFor(mem, "description").value;
    ValueIsFollowed(mem, "description");
    var member;
    ghost var chain;
    status, member, chain := ListContainer(mem, entryData, memory.descriptionNodes, d);
    if status != Success {
      return status, descriptions;
    }
    ghost var items := ListFor(mem, d.offset, memory.descriptionNodes).value;
    NextInList(member, chain, items);
    var mapSize := HeadSize(member, items[0]);
    if mapSize == 0 {
      return Success, descriptions;
    }
    if !memory.descriptionTable(mapSize) {
      return OutOfMemory, descriptions;
    }
    status, descriptions := CopyDescriptions(member, mapSize, memory, chain, items);
  }

  /** read_metadata. The values are stored member by member, up to the first that
      is missing or fails its check. */
  method ReadMetadataValues(mem: seq<byte>, memory: Memory) returns (status: Status, m: MetadataValues)
    requires Readable(mem)
    ensures Gives(ReadMetadata(mem, memory), status, m)
  {
    hide Uint16For, Uint32For, Uint64For, StringFor, LanguagesFor, DescriptionFor;
    m := NO_VALUES;
    var nodeCount, recordSize, ipVersion, databaseType, languages;
    status, nodeCount := ValueForKeyAsUint32(mem, "node_count");
    if status != Success {
      return status, m;
    }
    m := m.(nodeCount := nodeCount);
    if nodeCount == 0 {
      return InvalidMetadata, m;
    }
    status, recordSize := ValueForKeyAsUint16(mem, "record_size");
    if status != Success {
      return status, m;
    }
    m := m.(recordSize := recordSize);
    if recordSize == 0 {
      return InvalidMetadata, m;
    }
    if recordSize != 24 && recordSize != 28 && recordSize != 32 {
      return UnknownDatabaseFormat, m;
    }
    status, ipVersion := ValueForKeyAsUint16(mem, "ip_version");
    if status != Success {
      return status, m;
    }
    m := m.(ipVersion := ipVersion);
    if ipVersion == 0 {
      return InvalidMetadata, m;
    }
    if !(ipVersion == 4 || ipVersion == 6) {
      return InvalidMetadata, m;
    }
    status, databaseType := ValueForKeyAsString(mem, "database_type", memory.copies);
    if status != Success {
      return status, m;
    }
    m := m.(databaseType := databaseType);
    status, languages := PopulateLanguages(mem, memory);
    if status != Success {
      return status, m;
    }
    m := m.(languages := languages);
    status, m := ReadVersions(mem, memory, m);
  }

  method ReadVersions(mem: seq<byte>, memory: Memory, start: MetadataValues)
    returns (status: Status, m: MetadataValues)
    requires Readable(mem)
    ensures Gives(RestOfMetadata(mem, memory, start), status, m)
  {
    hide Uint16For, Uint32For, Uint64For, StringFor, LanguagesFor, DescriptionFor;
    m := start;
    var majorVersion, minorVersion, buildEpoch, description;
    status, majorVersion := ValueForKeyAsUint16(mem, "binary_format_major_version");
    if status != Success {
      return status, m;
    }
    m := m.(majorVersion := majorVersion);
    if majorVersion == 0 {
      return InvalidMetadata, m;
    }
    status, minorVersion := ValueForKeyAsUint16(mem, "binary_format_minor_version");
    if status != Success {
      return status, m;
    }
    m := m.(minorVersion := minorVersion);
    status, buildEpoch := ValueForKeyAsUint64(mem, "build_epoch");
    if status != Success {
      return status, m;
    }
    m := m.(buildEpoch := buildEpoch);
    if buildEpoch == 0 {
      return InvalidMetadata, m;
    }
    status, description := PopulateDescription(mem, memory);
    if status != Success {
      return status, m;
    }
    m := m.(description := description);
  }
}
