/** Maps as a database writer stores them: looking up a key finds the value that
    was written for it. */
module WrittenMaps {
  import opened Base
  import opened Wire
  import opened WireProofs
  import opened Decoding
  import opened Skipping
  import opened PathLookup
  import opened MetadataReader
  import opened CStrings
  import opened EntryList
  import opened Flattening
  import opened Metadata
  import opened Database
  import opened SearchTree

  /** A key and a value without children, with how the value is written. */
  datatype Entry = Entry(key: seq<byte>, value: Field, extended: bool, size: nat)

  function KeyCode(e: Entry): Code {
    DataCode(Plain(Utf8(e.key)), false, |e.key|, [])
  }

  function ValueCode(e: Entry): Code {
    DataCode(e.value, e.extended, e.size, [])
  }

  predicate Childless(field: Field) {
    match field
    case Pointer(_, _) => false
    case Map(count) => count == 0
    case Array(count) => count == 0
    case Plain(_) => true
  }

  predicate CanWrite(e: Entry) {
    Legal(KeyCode(e)) && Legal(ValueCode(e)) && Childless(e.value)
  }

  predicate CanWriteAll(entries: seq<Entry>) {
    forall i | 0 <= i < |entries| :: CanWrite(entries[i])
  }

  function EntryBytes(e: Entry): seq<byte>
    requires CanWrite(e)
  {
    Encode(KeyCode(e)) + Encode(ValueCode(e))
  }

  function EntriesBytes(entries: seq<Entry>): seq<byte>
    requires CanWriteAll(entries)
  {
    if entries == [] then [] else EntryBytes(entries[0]) + EntriesBytes(entries[1..])
  }

  /** The map with these entries. */
  function MapBytes(entries: seq<Entry>): seq<byte>
    requires CanWriteAll(entries) && |entries| < SIZE_LIMIT
  {
    EncodeHead(TYPE_MAP, false, |entries|) + EntriesBytes(entries)
  }

  /** The value of the first entry with that key. */
  function FirstValue(entries: seq<Entry>, key: seq<byte>): Option<Field> {
    if entries == [] then None
    else if entries[0].key == key then Some(entries[0].value)
    else FirstValue(entries[1..], key)
  }

  lemma EntryIsDecoded(section: seq<byte>, at: nat, e: Entry)
    requires CanWrite(e) && Holds(section, at, EntryBytes(e))
    ensures var middle := at + |Encode(KeyCode(e))|;
            && Decode(section, at) == Some(Decoded(Plain(Utf8(e.key)), at, middle))
            && Decode(section, middle) == Some(Decoded(e.value, middle, at + |EntryBytes(e)|))
  {
    hide Decode, Encode, Legal;
    HoldsSplit(section, at, Encode(KeyCode(e)), Encode(ValueCode(e)));
    var middle := at + |Encode(KeyCode(e))|;
    WrittenIsDecoded(section, at, KeyCode(e), Plain(Utf8(e.key)), middle);
    WrittenIsDecoded(section, middle, ValueCode(e), e.value, at + |EntryBytes(e)|);
  }

  lemma ChildlessIsSkipped(section: seq<byte>, d: Decoded)
    requires d.next <= |section| && Childless(d.field)
    ensures Skip(section, d, 0) == Some(Skipped(d.next, 0))
  {
  }

  lemma {:induction false} EntriesLookup(section: seq<byte>, at: nat, entries: seq<Entry>, key: seq<byte>)
    requires CanWriteAll(entries) && Holds(section, at, EntriesBytes(entries))
    ensures var r := LookupInMap(section, at, |entries|, key);
            var value := FirstValue(entries, key);
            if value.None? then r == Err(LookupPathDoesNotMatchData) else r.Ok? && r.value.field == value.value
    decreases |entries|
  {
    hide Decode, Skip, EntryBytes, CanWrite, Holds;
    if entries != [] {
      var e, rest := entries[0], entries[1..];
      HoldsSplit(section, at, EntryBytes(e), EntriesBytes(rest));
      EntryIsDecoded(section, at, e);
      var middle := at + |Encode(KeyCode(e))|;
      assert Childless(e.value) by { WritableIsChildless(e); }
      ChildlessIsSkipped(section, Decode(section, middle).value);
      EntriesLookup(section, at + |EntryBytes(e)|, rest, key);
    }
  }

  lemma WritableIsChildless(e: Entry)
    requires CanWrite(e)
    ensures Childless(e.value) && !e.value.Pointer?
  {
  }

  lemma OneStep(section: seq<byte>, d: Decoded, elem: PathElem)
    requires d.next <= |section| && d.field.Map? && Decode(section, 0) == Some(d)
    ensures Lookup(section, 0, [elem]) == LookupInMap(section, d.next, d.field.count, elem.text)
  {
    hide Decode, LookupInMap;
    var path := [elem];
    assert path[1..] == [] && LookupStep(section, d, elem) == LookupInMap(section, d.next, d.field.count, elem.text);
    assert Lookup(section, 0, path) == FollowPath(section, d, path);
    StepShowsFollowed(section, d, elem);
    if LookupStep(section, d, elem).Ok? {
      PathUnfolds(section, d, path);
      EmptyPath(section, LookupStep(section, d, elem).value);
    }
  }

  /** Looking up a key in a written map finds the value of the first entry with
      that key, or reports that there is none. */
  lemma {:induction false} WrittenMapLookup(entries: seq<Entry>, key: string)
    requires CanWriteAll(entries) && |entries| < SIZE_LIMIT
    ensures var r := ValueFor(MapBytes(entries), key);
            var value := FirstValue(entries, Ascii(key));
            if value.None? then r == Err(LookupPathDoesNotMatchData) else r.Ok? && r.value.field == value.value
  {
    hide Decode, EntriesBytes, EncodeHead, Lookup;
    var section, head := MapBytes(entries), EncodeHead(TYPE_MAP, false, |entries|);
    var code := DataCode(Map(|entries|), false, |entries|, []);
    assert section[..|head|] == head && section[|head|..] == EntriesBytes(entries);
    assert Encode(code) == head;
    WrittenIsDecoded(section, 0, code, Map(|entries|), |head|);
    EntriesLookup(section, |head|, entries, Ascii(key));
    OneStep(section, Decoded(Map(|entries|), 0, |head|), KeyPath(key)[0]);
  }

  // ---- written metadata ----

  function Written(entries: seq<Entry>, key: string): Option<Field> {
    FirstValue(entries, Ascii(key))
  }

  /** A writer's metadata without languages and descriptions. */
  predicate WritesMetadata(entries: seq<Entry>, m: MetadataValues) {
    && CanWriteAll(entries) && |entries| < SIZE_LIMIT
    && Written(entries, "node_count") == Some(Plain(Uint32(m.nodeCount)))
    && Written(entries, "record_size") == Some(Plain(Uint16(m.recordSize)))
    && Written(entries, "ip_version") == Some(Plain(Uint16(m.ipVersion)))
    && Written(entries, "database_type") == Some(Plain(Utf8(m.databaseType))) && 0 !in m.databaseType
    && Written(entries, "languages") == Some(Array(0)) && m.languages == []
    && Written(entries, "binary_format_major_version") == Some(Plain(Uint16(m.majorVersion)))
    && Written(entries, "binary_format_minor_version") == Some(Plain(Uint16(m.minorVersion)))
    && Written(entries, "build_epoch") == Some(Plain(Uint64(m.buildEpoch)))
    && Written(entries, "description") == Some(Map(0)) && m.description == []
  }

  /** The requests that reading such metadata makes are granted. */
  predicate Grants(memory: Memory, m: MetadataValues) {
    memory.languageNodes(0) && memory.languageTable(0) && memory.descriptionNodes(0) && memory.copies(m.databaseType)
  }

  lemma EmptyContainerIsListed(section: seq<byte>, d: Decoded, nodes: nat -> bool)
    requires Followed(section, d) && d.field in {Array(0), Map(0)} && nodes(0)
    ensures ListFor(section, d.offset, nodes).Ok? && |ListFor(section, d.offset, nodes).value| == 1
  {
    hide Decode, ListRoom;
    var own := Decode(section, d.offset).value;
    assert own.field == d.field;
    NoKids(section, own.next, 1, ListRoom(nodes), true);
  }

  lemma NumbersOfWritten(entries: seq<Entry>, key: string)
    requires CanWriteAll(entries) && |entries| < SIZE_LIMIT && Written(entries, key).Some?
    ensures var section := MapBytes(entries);
            var field := Written(entries, key).value;
            && (field.Plain? && field.scalar.Uint16? && field.scalar.number < 0x1_0000 ==>
                  Uint16For(section, key) == Ok(field.scalar.number))
            && (field.Plain? && field.scalar.Uint32? && field.scalar.number < UINT32_LIMIT ==>
                  Uint32For(section, key) == Ok(field.scalar.number))
            && (field.Plain? && field.scalar.Uint64? && field.scalar.number < UINT64_LIMIT ==>
                  Uint64For(section, key) == Ok(field.scalar.number))
  {
    hide MapBytes, ValueFor, FirstValue, CanWrite;
    WrittenMapLookup(entries, key);
  }

  lemma {:induction false} NothingToCut(text: seq<byte>)
    requires 0 !in text
    ensures Cut(text) == text
  {
    CutIsUnique(text, |text|);
  }

  lemma StringOfWritten(entries: seq<Entry>, key: string, text: seq<byte>, copies: seq<byte> -> bool)
    requires CanWriteAll(entries) && |entries| < SIZE_LIMIT && Written(entries, key) == Some(Plain(Utf8(text)))
    requires 0 !in text && copies(text)
    ensures StringFor(MapBytes(entries), key, copies) == Ok(text)
  {
    hide MapBytes, ValueFor, FirstValue, CanWrite;
    WrittenMapLookup(entries, key);
    NothingToCut(text);
  }

  lemma NothingListed(entries: seq<Entry>, memory: Memory, m: MetadataValues)
    requires WritesMetadata(entries, m) && Grants(memory, m)
    ensures LanguagesFor(MapBytes(entries), memory) == Ok([])
    ensures DescriptionFor(MapBytes(entries), memory) == Ok([])
  {
    hide MapBytes, ValueFor, FirstValue, CanWrite, ListFor, Followed;
    var section := MapBytes(entries);
    WrittenMapLookup(entries, "languages");
    ValueIsFollowed(section, "languages");
    EmptyContainerIsListed(section, ValueFor(section, "languages").value, memory.languageNodes);
    WrittenMapLookup(entries, "description");
    ValueIsFollowed(section, "description");
    EmptyContainerIsListed(section, ValueFor(section, "description").value, memory.descriptionNodes);
  }

  /** read_metadata reads back the metadata that was written, in whatever order and
      beside whatever other entries, or rejects it for its values. */
  lemma WrittenMetadataIsRead(entries: seq<Entry>, memory: Memory, m: MetadataValues)
    requires WritesMetadata(entries, m) && Grants(memory, m)
    ensures ReadMetadata(MapBytes(entries), memory) == Verdict(m)
  {
    hide MapBytes, CanWrite, FirstValue;
    hide Uint16For, Uint32For, Uint64For, StringFor, LanguagesFor, DescriptionFor;
    NumbersOfWritten(entries, "node_count");
    NumbersOfWritten(entries, "record_size");
    NumbersOfWritten(entries, "ip_version");
    StringOfWritten(entries, "database_type", m.databaseType, memory.copies);
    NothingListed(entries, memory, m);
    NumbersOfWritten(entries, "binary_format_major_version");
    NumbersOfWritten(entries, "binary_format_minor_version");
    NumbersOfWritten(entries, "build_epoch");
  }

  /** A database that a writer lays out opens: a tree of the nodes that its metadata
      counts, 16 bytes, its data, the marker and the metadata. */
  lemma WrittenDatabaseOpens(
      tree: seq<byte>, separator: seq<byte>, data: seq<byte>, entries: seq<Entry>, memory: Memory, m: MetadataValues)
    requires WritesMetadata(entries, m) && Acceptable(m) && Grants(memory, m) && m.majorVersion == 2
    requires |tree| == m.nodeCount * (m.recordSize / 4) && |separator| == 16
    requires 3 <= |data| + 14 + |MapBytes(entries)| < 0x1_0000_0000 && |MapBytes(entries)| <= 131072 - 14
    requires forall i: nat :: !Holds(MapBytes(entries), i, METADATA_MARKER)
    ensures var file := tree + separator + data + METADATA_MARKER + MapBytes(entries);
            && Opens(file, memory, m)
            && forall db | Opened(db) && db.file == file && db.nodeCount == m.nodeCount
                           && db.recordLength == m.recordSize / 4 ::
                 && db.dataSection == |tree| + 16
                 && db.dataSectionSize == |data| + 14 + |MapBytes(entries)|
  {
    hide ReadMetadata, Opens, Opened, MapBytes, Verdict, Grants, FirstValue, CanWrite;
    ReadsAs(entries, memory, m);
    WellFormedFileOpens(tree, separator, data, MapBytes(entries), memory, m);
  }

  lemma ReadsAs(entries: seq<Entry>, memory: Memory, m: MetadataValues)
    requires WritesMetadata(entries, m) && Acceptable(m) && Grants(memory, m)
    ensures ReadMetadata(MapBytes(entries), memory) == Ok(m) && |MapBytes(entries)| > 0
  {
    hide ReadMetadata;
    WrittenMetadataIsRead(entries, memory, m);
  }
}
