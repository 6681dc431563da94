/** A database file, byte for byte, that MMDB_open accepts and in which every lookup
    finds an entry outside the data section. */
module LoopingDatabase {
  import opened Base
  import opened Wire
  import opened Decoding
  import opened Metadata
  import opened MetadataReader
  import opened WrittenMaps
  import opened SearchTree
  import opened Database

  /** The values of an IPv4 database of two nodes. */
  const LOOPING_VALUES := MetadataValues(2, 24, 4, [84], [], 2, 0, 1, [])

  function LoopingMetadata(): (entries: seq<Entry>)
    ensures |entries| == 9
  {
    [
      Entry(Ascii("node_count"), Plain(Uint32(2)), false, 1),
      Entry(Ascii("record_size"), Plain(Uint16(24)), false, 1),
      Entry(Ascii("ip_version"), Plain(Uint16(4)), false, 1),
      Entry(Ascii("database_type"), Plain(Utf8([84])), false, 1),
      Entry(Ascii("languages"), Array(0), true, 0),
      Entry(Ascii("binary_format_major_version"), Plain(Uint16(2)), false, 1),
      Entry(Ascii("binary_format_minor_version"), Plain(Uint16(0)), false, 0),
      Entry(Ascii("build_epoch"), Plain(Uint64(1)), true, 1),
      Entry(Ascii("description"), Map(0), false, 0)]
  }

  /** Two nodes whose four records all lead to node 1. */
  const LOOPING_NODES: seq<byte> := [0, 0, 1, 0, 0, 1, 0, 0, 1, 0, 0, 1]

  function LoopingFile(metadata: seq<byte>): seq<byte> {
    LOOPING_NODES + ZERO_ADDRESS + METADATA_MARKER + metadata
  }

  // ---- its metadata ----

  lemma OneByteNumbers()
    ensures Power256(0) == 1 && Power256(1) == 256
    ensures ToBytes(1, 1) == [1] && ToBytes(2, 1) == [2] && ToBytes(4, 1) == [4] && ToBytes(24, 1) == [24]
    ensures ToBytes(0, 0) == []
  {
    assert Power256(0) == 1;
    assert forall v: byte :: ToBytes(v / 256, 0) == [] && ToBytes(v, 1) == ToBytes(v / 256, 0) + [v % 256];
  }

  lemma EntriesCanBeWritten()
    ensures CanWriteAll(LoopingMetadata())
  {
    OneByteNumbers();
    hide Power256, ToBytes, Ascii;
  }

  /** The keys differ in their lengths, or in their first or sixteenth letters. */
  lemma KeyLetters()
    ensures Ascii("node_count")[0] == 110 && Ascii("ip_version")[0] == 105
    ensures Ascii("record_size")[0] == 114 && Ascii("build_epoch")[0] == 98 && Ascii("description")[0] == 100
    ensures Ascii("binary_format_major_version")[15] == 97 && Ascii("binary_format_minor_version")[15] == 105
  {
  }

  lemma {:induction false} ValueAt(entries: seq<Entry>, i: nat)
    requires i < |entries| && forall j | 0 <= j < i :: entries[j].key != entries[i].key
    ensures FirstValue(entries, entries[i].key) == Some(entries[i].value)
    decreases i
  {
    if i > 0 {
      ValueAt(entries[1..], i - 1);
    }
  }

  lemma MetadataIsWritten()
    ensures WritesMetadata(LoopingMetadata(), LOOPING_VALUES)
  {
    EntriesCanBeWritten();
    KeyLetters();
    hide Ascii, CanWriteAll, FirstValue;
    var entries := LoopingMetadata();
    forall i: nat | i < 9 ensures FirstValue(entries, entries[i].key) == Some(entries[i].value) {
      ValueAt(entries, i);
    }
    assert LoopingMetadata()[0].key == Ascii("node_count");
    assert LoopingMetadata()[1].key == Ascii("record_size");
    assert LoopingMetadata()[2].key == Ascii("ip_version");
    assert LoopingMetadata()[3].key == Ascii("database_type");
    assert LoopingMetadata()[4].key == Ascii("languages");
    assert LoopingMetadata()[5].key == Ascii("binary_format_major_version");
    assert LoopingMetadata()[6].key == Ascii("binary_format_minor_version");
    assert LoopingMetadata()[7].key == Ascii("build_epoch");
    assert LoopingMetadata()[8].key == Ascii("description");
  }

  /** The bytes of that metadata. */
  function LoopingSection(): seq<byte> {
    EntriesCanBeWritten();
    MapBytes(LoopingMetadata())
  }

  // ---- its bytes ----

  /** A few bytes, none of which can start a marker. */
  ghost predicate Harmless(bs: seq<byte>, limit: nat) {
    |bs| <= limit && 171 !in bs
  }

  lemma KeyIsHarmless(key: string, e: Entry)
    requires e.key == Ascii(key) && |key| < 29 && CanWrite(e) && forall c | c in key :: c as int < 128
    ensures Harmless(Encode(KeyCode(e)), 30)
  {
    assert Encode(KeyCode(e)) == [64 + |key|] + Ascii(key);
    assert forall i | 0 <= i < |key| :: key[i] in key && Ascii(key)[i] == key[i] as int % 256;
  }

  lemma ValuesAreHarmless(i: nat)
    requires i < |LoopingMetadata()| && CanWrite(LoopingMetadata()[i])
    ensures Harmless(Encode(ValueCode(LoopingMetadata()[i])), 3)
  {
    OneByteNumbers();
    hide Power256, ToBytes, Ascii;
  }

  lemma KeysAreHarmless(i: nat)
    requires i < |LoopingMetadata()| && CanWrite(LoopingMetadata()[i])
    ensures Harmless(Encode(KeyCode(LoopingMetadata()[i])), 30)
  {
    hide Harmless, Encode, CanWrite, Ascii;
    var e := LoopingMetadata()[i];
    if i >= 5 {
      LongKeysAreHarmless(i);
      return;
    }
    match i
    case 0 => KeyIsHarmless("node_count", e);
    case 1 => KeyIsHarmless("record_size", e);
    case 2 => KeyIsHarmless("ip_version", e);
    case 3 => KeyIsHarmless("database_type", e);
    case _ => KeyIsHarmless("languages", e);
  }

  lemma LongKeysAreHarmless(i: nat)
    requires 5 <= i < 9 && CanWrite(LoopingMetadata()[i])
    ensures Harmless(Encode(KeyCode(LoopingMetadata()[i])), 30)
  {
    hide Harmless, Encode, CanWrite, Ascii;
    var e := LoopingMetadata()[i];
    match i
    case 5 => KeyIsHarmless("binary_format_major_version", e);
    case 6 => KeyIsHarmless("binary_format_minor_version", e);
    case 7 => KeyIsHarmless("build_epoch", e);
    case _ => KeyIsHarmless("description", e);
  }

  lemma {:induction false} EntriesAreHarmless(entries: seq<Entry>)
    requires CanWriteAll(entries)
    requires forall i | 0 <= i < |entries| :: Harmless(EntryBytes(entries[i]), 33)
    ensures Harmless(EntriesBytes(entries), 33 * |entries|)
    decreases |entries|
  {
    hide EntryBytes, CanWrite;
    if entries != [] {
      EntriesAreHarmless(entries[1..]);
    }
  }

  lemma EntryIsHarmless(i: nat)
    requires i < 9 && CanWrite(LoopingMetadata()[i])
    ensures Harmless(EntryBytes(LoopingMetadata()[i]), 33) && |EntryBytes(LoopingMetadata()[i])| >= 2
  {
    hide Encode, CanWrite, LoopingMetadata;
    KeysAreHarmless(i);
    ValuesAreHarmless(i);
    EncodingsAreNotEmpty(LoopingMetadata()[i]);
  }

  lemma SectionIsHarmless()
    ensures Harmless(LoopingSection(), 298) && |LoopingSection()| >= 3
  {
    hide EntryBytes, CanWrite, LoopingMetadata;
    EntriesCanBeWritten();
    var entries := LoopingMetadata();
    forall i | 0 <= i < 9 ensures Harmless(EntryBytes(entries[i]), 33) && |EntryBytes(entries[i])| >= 2 {
      EntryIsHarmless(i);
    }
    EntriesAreHarmless(entries);
    assert EncodeHead(TYPE_MAP, false, 9) == [233];
  }

  lemma EncodingsAreNotEmpty(e: Entry)
    requires CanWrite(e)
    ensures |Encode(KeyCode(e))| >= 1 && |Encode(ValueCode(e))| >= 1
  {
  }

  lemma NoMarkerAt(bs: seq<byte>, limit: nat, i: nat)
    requires Harmless(bs, limit)
    ensures !Holds(bs, i, METADATA_MARKER)
  {
    if i + |METADATA_MARKER| <= |bs| {
      assert bs[i..i + |METADATA_MARKER|][0] == bs[i];
    }
  }

  // ---- opening it and looking up ----

  /** What opening that file as an IPv4 database of two nodes leaves. */
  function LoopingDb(metadata: seq<byte>): Db
    requires |METADATA_MARKER| + |metadata| < UINT32_LIMIT
  {
    Db(LoopingFile(metadata), 2, 6, 4, 32, 28, |METADATA_MARKER| + |metadata|, 0, 0)
  }

  lemma LoopingNodes(metadata: seq<byte>, node: nat)
    requires node < 2
    ensures LoopingFile(metadata)[node * 6..node * 6 + 6] == [0, 0, 1, 0, 0, 1]
  {
    assert LoopingFile(metadata)[node * 6..node * 6 + 6] == LOOPING_NODES[node * 6..node * 6 + 6];
    assert LOOPING_NODES[..6] == [0, 0, 1, 0, 0, 1] == LOOPING_NODES[6..];
  }

  lemma LoopingRecords(metadata: seq<byte>, node: nat, right: bool)
    requires node < 2 && |METADATA_MARKER| + |metadata| < UINT32_LIMIT
    ensures Opened(LoopingDb(metadata)) && Record(LoopingDb(metadata), node, right) == Some(1)
  {
    LoopingNodes(metadata, node);
    hide LoopingFile;
    assert |LoopingFile(metadata)| == 28 + |METADATA_MARKER| + |metadata| by { LoopingSize(metadata); }
  }

  lemma LoopingSize(metadata: seq<byte>)
    ensures |LoopingFile(metadata)| == 28 + |METADATA_MARKER| + |metadata|
  {
  }

  lemma {:induction false} LoopingWalk(metadata: seq<byte>, value: uint32, bit: nat, address: seq<byte>)
    requires |METADATA_MARKER| + |metadata| < UINT32_LIMIT
    requires Opened(LoopingDb(metadata)) && value < 2 && |address| == 4 && bit < 32
    ensures Walk(LoopingDb(metadata), value, bit, 32, address) == Reached(1, 32)
    decreases 32 - bit
  {
    hide Bit, Record;
    LoopingRecords(metadata, value, Bit(address, bit));
    if bit < 31 {
      LoopingWalk(metadata, 1, bit + 1, address);
    }
  }

  /** MMDB_open accepts the file when its requests for memory are granted. */
  lemma LoopingFileOpens(memory: Memory)
    requires Grants(memory, LOOPING_VALUES)
    ensures var file := LoopingFile(LoopingSection());
            && Opens(file, memory, LOOPING_VALUES)
            && forall i: nat | MetadataAt(file, i) :: Readable(SectionAfter(file, i))
  {
    hide MapBytes, ReadMetadata, Readable, LastMarkerAt, LoopingMetadata, WritesMetadata;
    SectionIsHarmless();
    MetadataIsWritten();
    var section := LoopingSection();
    WrittenMetadataIsRead(LoopingMetadata(), memory, LOOPING_VALUES);
    var file := LoopingFile(section);
    forall i: nat ensures !Holds(section, i, METADATA_MARKER) {
      NoMarkerAt(section, 298, i);
    }
    MarkerBeforeMetadataIsLast(LOOPING_NODES + ZERO_ADDRESS, section);
    OnlyOneMarkerIsLast(file, 28);
    assert SectionAfter(file, 28) == section;
    LongSectionsAreReadable(section);
    assert Describes(file, 28, memory, LOOPING_VALUES);
  }

  /** Once it is open, every lookup reports an entry, at an offset outside the data
      section. */
  lemma ExhaustedWalkIsFound(db: Db, address: seq<byte>)
    requires Opened(db) && db.file == LoopingFile(LoopingSection())
    requires db.nodeCount == 2 && db.recordLength == 6 && db.ipVersion == 4 && |address| == 4
    ensures LookupSockaddr(db, Inet(address)) == Answer(Success, true, 32, UINT32_LIMIT - 17)
    ensures db.dataSectionSize < UINT32_LIMIT - 17
  {
    hide Record, Walk;
    SectionIsHarmless();
    LoopingRecords(LoopingSection(), 0, false);
    LoopingWalk(LoopingSection(), 0, 0, address);
    assert db == LoopingDb(LoopingSection());
  }

  /** The same, by opening the file and looking the address up in it. */
  method LookUpInLoopingFile(memory: Memory, address: seq<byte>) returns (status: Status, result: LookupResult)
    requires Grants(memory, LOOPING_VALUES) && |address| == 4
    ensures status == Success && result.foundEntry && result.netmask == 32 && result.offset == UINT32_LIMIT - 17
  {
    hide Opened, Opens, Describes, Readable, ReadMetadata, LoopingFile, LoopingSection, Grants, Usable, LookupSockaddr;
    LoopingFileOpens(memory);
    LoopingSizeBound();
    var db := new Mmdb();
    status := db.Open(LoopingFile(LoopingSection()), memory);
    OneMetadata(db.fileContent, memory, db.metadata, LOOPING_VALUES);
    OpenedIsUsable(db.View());
    ExhaustedWalkIsFound(db.View(), address);
    status, result := db.Lookup(Inet(address));
  }

  lemma LoopingSizeBound()
    ensures |LoopingFile(LoopingSection())| <= SSIZE_MAX
  {
    hide MapBytes;
    SectionIsHarmless();
  }

  lemma OpenedIsUsable(db: Db)
    requires Opened(db)
    ensures Usable(db) && db.ipVersion in {4, 6}
  {
  }
}
