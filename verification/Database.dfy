/** MMDB_s: opening a database, and the lookups that read its search tree. */
module Database {
  import opened Base
  import opened Wire
  import opened Records
  import opened Metadata
  import opened SearchTree
  import opened DataPool
  import opened Decoding
  import opened MetadataReader

  const SSIZE_MAX := 0x7fff_ffff_ffff_ffff

  /** The file has room for the tree, the separator and a data section that is
      neither too small to decode nor too large for a uint32_t. */
  predicate Fits(file: seq<byte>, nodeCount: nat, recordLength: nat) {
    var tree := nodeCount * recordLength;
    tree + DATA_SECTION_SEPARATOR + 3 <= |file| && |file| - tree - DATA_SECTION_SEPARATOR < UINT32_LIMIT
  }

  /** The data section would have one or two bytes. */
  predicate TooSmall(file: seq<byte>, nodeCount: nat, recordLength: nat) {
    0 < |file| - nodeCount * recordLength - DATA_SECTION_SEPARATOR < 3
  }

  /** A file fits exactly when it is a tree of that many nodes, 16 bytes, and a data
      section of at least 3 and fewer than 2^32 bytes. */
  ghost predicate IsLaidOut(file: seq<byte>, nodeCount: nat, recordLength: nat) {
    exists tree: seq<byte>, separator: seq<byte>, data: seq<byte> ::
      && tree + separator + data == file
      && |tree| == nodeCount * recordLength && |separator| == 16 && 3 <= |data| < 0x1_0000_0000
  }

  lemma FitsIff(file: seq<byte>, nodeCount: nat, recordLength: nat)
    ensures Fits(file, nodeCount, recordLength) <==> IsLaidOut(file, nodeCount, recordLength)
    ensures TooSmall(file, nodeCount, recordLength)
       <==> exists front: seq<byte>, data: seq<byte> ::
              front + data == file && |front| == nodeCount * recordLength + 16 && |data| in {1, 2}
  {
    var size := nodeCount * recordLength;
    if Fits(file, nodeCount, recordLength) {
      assert file[..size] + file[size..size + 16] + file[size + 16..] == file;
    }
    if TooSmall(file, nodeCount, recordLength) {
      assert file[..size + 16] + file[size + 16..] == file;
    }
  }

  /** The marker before the metadata is at `i`. */
  ghost predicate MetadataAt(file: seq<byte>, i: nat) {
    LastMarkerAt(file, i) && i + |METADATA_MARKER| < |file|
  }

  /** The bytes after the marker at `i`. */
  function SectionAfter(file: seq<byte>, i: nat): seq<byte>
    requires i + |METADATA_MARKER| <= |file|
  {
    file[i + |METADATA_MARKER|..]
  }

  lemma SectionIsRest(file: seq<byte>, i: nat)
    requires i + |METADATA_MARKER| <= |file|
    ensures SectionAfter(file, i) == file[i + |METADATA_MARKER|..]
  {
  }

  /** The file has metadata of version 2 at `i`, with these values. */
  ghost predicate Describes(file: seq<byte>, i: nat, memory: Memory, m: MetadataValues) {
    MetadataAt(file, i) && ReadMetadata(SectionAfter(file, i), memory) == Ok(m) && m.majorVersion == 2
  }

  /** The file has metadata and room for what it describes. */
  ghost predicate Opens(file: seq<byte>, memory: Memory, m: MetadataValues) {
    (exists i: nat :: Describes(file, i, memory, m)) && Fits(file, m.nodeCount, m.recordSize / 4)
  }

  /** MMDB_lookup_result_s */
  class LookupResult {
    var foundEntry: bool
    var netmask: nat
    var offset: uint32

    constructor ()
      ensures !foundEntry && netmask == 0 && offset == 0
    {
      foundEntry, netmask, offset := false, 0, 0;
    }

    ghost predicate Shows(answer: Answer)
      reads this
    {
      foundEntry == answer.found && netmask == answer.netmask && offset == answer.offset
    }
  }

  class Mmdb {
    var fileContent: seq<byte>
    var metadata: MetadataValues
    var metadataSection: nat
    var metadataSectionSize: uint32
    var nodeCount: uint32
    var fullRecordByteSize: uint16
    var ipVersion: uint16
    var depth: nat
    var dataSection: nat
    var dataSectionSize: uint32
    var startValue: uint32
    var startMask: nat

    function View(): Db
      reads this
    {
      Db(fileContent, nodeCount, fullRecordByteSize, ipVersion, depth, dataSection, dataSectionSize,
         startValue, startMask)
    }

    constructor ()
    {
      fileContent, metadata, metadataSection, metadataSectionSize := [], NO_VALUES, 0, 0;
      nodeCount, fullRecordByteSize, ipVersion, depth := 0, 0, 0, 0;
      dataSection, dataSectionSize, startValue, startMask := 0, 0, 0, 0;
    }

    /** MMDB_open, on a file already in memory. */
    method Open(file: seq<byte>, memory: Memory) returns (status: Status)
      requires |file| <= SSIZE_MAX
      requires forall i: nat | MetadataAt(file, i) :: Readable(SectionAfter(file, i))
      modifies this
      ensures status == Success <==> exists m :: Opens(file, memory, m)
      ensures status == Success ==>
                && Opened(View()) && Opens(file, memory, metadata)
                && fileContent == file && nodeCount == metadata.nodeCount && ipVersion == metadata.ipVersion
                && fullRecordByteSize == metadata.recordSize / 4
                && metadataSection >= |METADATA_MARKER|
                && Describes(file, metadataSection - |METADATA_MARKER|, memory, metadata)
                && metadataSection + metadataSectionSize == |file|
      ensures (forall i: nat :: !MetadataAt(file, i)) ==> status == InvalidMetadata
      ensures forall i: nat | MetadataAt(file, i) && ReadMetadata(SectionAfter(file, i), memory).Err? ::
                status == ReadMetadata(SectionAfter(file, i), memory).status
      ensures forall i: nat, m | MetadataAt(file, i) && ReadMetadata(SectionAfter(file, i), memory) == Ok(m) ::
                && (m.majorVersion != 2 ==> status == UnknownDatabaseFormat)
                && (m.majorVersion == 2 ==>
                      status in {Success, InvalidData, InvalidMetadata}
                      && (status == InvalidData <==> TooSmall(file, m.nodeCount, m.recordSize / 4)))
    {
      hide LastMarkerAt, Fits, TooSmall, Opened, ReadMetadata, Readable, SectionAfter;
      fileContent := file;
      status := LoadMetadata(memory);
      assert fileContent == file;
      ghost var read := metadata;
      forall m | Opens(file, memory, m) ensures status == Success && m == read {
        var i: nat :| Describes(file, i, memory, m);
        assert Describes(fileContent, i, memory, m);
      }
      if status != Success {
        return status;
      }
      status := LayOutTree();
      assert status == Success <==> Fits(file, read.nodeCount, read.recordSize / 4);
      assert status == InvalidData <==> TooSmall(file, read.nodeCount, read.recordSize / 4);
      assert status == Success ==> Opens(file, memory, read);
    }

    /** The part of MMDB_open that finds, reads and checks the metadata. */
    method LoadMetadata(memory: Memory) returns (status: Status)
      requires forall i: nat | MetadataAt(fileContent, i) :: Readable(SectionAfter(fileContent, i))
      modifies this`metadata, this`metadataSection, this`metadataSectionSize
      modifies this`nodeCount, this`ipVersion, this`fullRecordByteSize, this`depth
      ensures status == Success ==>
                && metadataSection >= |METADATA_MARKER|
                && Describes(fileContent, metadataSection - |METADATA_MARKER|, memory, metadata)
                && metadataSection + metadataSectionSize == |fileContent|
                && nodeCount == metadata.nodeCount > 0 && ipVersion == metadata.ipVersion
                && ipVersion in {4, 6} && depth == (if ipVersion == 4 then 32 else 128)
                && fullRecordByteSize == metadata.recordSize / 4 && KnownLength(fullRecordByteSize)
      ensures forall i: nat, m | Describes(fileContent, i, memory, m) :: status == Success && m == metadata
      ensures (forall i: nat :: !MetadataAt(fileContent, i)) ==> status == InvalidMetadata
      ensures forall i: nat | MetadataAt(fileContent, i) && ReadMetadata(SectionAfter(fileContent, i), memory).Err? ::
                status == ReadMetadata(SectionAfter(fileContent, i), memory).status
      ensures forall i: nat, m
                | MetadataAt(fileContent, i) && ReadMetadata(SectionAfter(fileContent, i), memory) == Ok(m) ::
                m == metadata && status == if m.majorVersion != 2 then UnknownDatabaseFormat else Success
    {
      hide LastMarkerAt, ReadMetadata, Readable, SectionAfter;
      var found, metadataSize := FindMetadata(fileContent);
      if found.None? {
        return InvalidMetadata;
      }
      metadataSection, metadataSectionSize := found.value, metadataSize;
      ghost var marker := metadataSection - |METADATA_MARKER|;
      OnlyOneMarkerIsLast(fileContent, marker);
      assert MetadataAt(fileContent, marker);
      SectionIsRest(fileContent, marker);

      status, metadata := ReadMetadataValues(fileContent[metadataSection..], memory);
      if status != Success {
        return status;
      }
      ReadMetadataChecks(SectionAfter(fileContent, marker), memory);
      nodeCount, ipVersion := metadata.nodeCount, metadata.ipVersion;
      fullRecordByteSize := metadata.recordSize * 2 / 8;
      depth := if metadata.ipVersion == 4 then 32 else 128;
      if metadata.majorVersion != 2 {
        return UnknownDatabaseFormat;
      }
    }

    /** The rest of MMDB_open, once the metadata is read. */
    method LayOutTree() returns (status: Status)
      requires nodeCount > 0 && |fileContent| <= SSIZE_MAX && KnownLength(fullRecordByteSize)
      requires ipVersion in {4, 6} && depth == (if ipVersion == 4 then 32 else 128)
      modifies this`dataSection, this`dataSectionSize, this`startValue, this`startMask
      ensures status == Success <==> Fits(fileContent, nodeCount, fullRecordByteSize)
      ensures status == InvalidData <==> TooSmall(fileContent, nodeCount, fullRecordByteSize)
      ensures status in {Success, InvalidData, InvalidMetadata}
      ensures status == Success ==> Opened(View())
    {
      hide Walk, Fits, TooSmall, KnownLength;
      status := LayOutSections();
      if status != Success {
        return status;
      }
      startValue, startMask := 0, 0;
      ghost var db := View();
      assert Tiled(db);
      hide Tiled, Usable;
      if ipVersion == 6 {
        status := FindIpv4StartNode();
        StartNodeOpens(db, startValue, startMask);
        return status;
      }
      return Success;
    }

    /** The arithmetic of MMDB_open that places the data section. */
    method LayOutSections() returns (status: Status)
      requires nodeCount > 0 && |fileContent| <= SSIZE_MAX
      modifies this`dataSection, this`dataSectionSize
      ensures status == Success <==> Fits(fileContent, nodeCount, fullRecordByteSize)
      ensures status == InvalidData <==> TooSmall(fileContent, nodeCount, fullRecordByteSize)
      ensures status in {Success, InvalidData, InvalidMetadata}
      ensures status == Success ==>
                && dataSection == nodeCount * fullRecordByteSize + DATA_SECTION_SEPARATOR
                && dataSection + dataSectionSize == |fileContent| && dataSectionSize >= 3
    {
      CanMultiplyIsExact(SSIZE_MAX, nodeCount, fullRecordByteSize);
      if !CanMultiply(SSIZE_MAX, nodeCount, fullRecordByteSize) {
        return InvalidMetadata;
      }
      var searchTreeSize := nodeCount * fullRecordByteSize;
      dataSection := searchTreeSize + DATA_SECTION_SEPARATOR;
      if |fileContent| < DATA_SECTION_SEPARATOR || searchTreeSize > |fileContent| - DATA_SECTION_SEPARATOR {
        return InvalidMetadata;
      }
      var size := |fileContent| - searchTreeSize - DATA_SECTION_SEPARATOR;
      if size > UINT32_LIMIT - 1 || size <= 0 {
        return InvalidMetadata;
      }
      dataSectionSize := size;
      if dataSectionSize < 3 {
        return InvalidData;
      }
      return Success;
    }

    /** find_ipv4_start_node */
    method FindIpv4StartNode() returns (status: Status)
      requires Usable(View())
      modifies this`startValue, this`startMask
      ensures old(startValue) != 0 ==> status == Success && startValue == old(startValue) && startMask == old(startMask)
      ensures old(startValue) == 0 && !KnownLength(fullRecordByteSize) ==> status == UnknownDatabaseFormat
      ensures old(startValue) == 0 && KnownLength(fullRecordByteSize) ==>
                match Walk(old(View()), 0, 0, 96, ZERO_ADDRESS)
                case Corrupt => status == CorruptSearchTree
                case Reached(value, bit) => status == Success && startValue == value && startMask == bit
    {
      hide LeftRecord, RightRecord, Power2, Walk, NodesRead;
      if startValue != 0 {
        return Success;
      }
      var db := View();
      var length := fullRecordByteSize;
      if RightRecordOffset(length) == 0 {
        return UnknownDatabaseFormat;
      }
      var node: uint32 := 0;
      var netmask := 0;
      while netmask < 96 && node < nodeCount
        invariant 0 <= netmask <= 96
        invariant Walk(db, 0, 0, 96, ZERO_ADDRESS) == Walk(db, node, netmask, 96, ZERO_ADDRESS)
      {
        ZeroBit(netmask);
        WalkStep(db, node, netmask, 96, ZERO_ADDRESS);
        var recordPointer := node * length;
        if recordPointer + length > dataSection {
          return CorruptSearchTree;
        }
        node := LeftRecord(length, fileContent[recordPointer..recordPointer + length]);
        netmask := netmask + 1;
      }
      WalkStops(db, node, netmask, 96, ZERO_ADDRESS);
      startValue, startMask := node, netmask;
      return Success;
    }

    /** The loop of find_address_in_search_tree. */
    method WalkTree(address: seq<byte>, start: uint32, from: nat) returns (end: WalkEnd, ghost nodes: seq<uint32>)
      requires Usable(View()) && KnownLength(fullRecordByteSize) && depth <= 8 * |address|
      ensures end == Walk(View(), start, from, depth, address)
      ensures nodes == NodesRead(View(), start, from, depth, address)
    {
      hide LeftRecord, RightRecord, Power2, Walk, NodesRead;
      nodes := [];
      var length := fullRecordByteSize;
      var value: uint32 := start;
      var currentBit := from;
      while currentBit < depth && value < nodeCount
        invariant Walk(View(), start, from, depth, address) == Walk(View(), value, currentBit, depth, address)
        invariant NodesRead(View(), start, from, depth, address)
               == nodes + NodesRead(View(), value, currentBit, depth, address)
        decreases depth - currentBit
      {
        WalkStep(View(), value, currentBit, depth, address);
        var bit := address[currentBit / 8] / Power2(7 - currentBit % 8) % 2;
        var recordPointer := value * length;
        if recordPointer + length > dataSection {
          return Corrupt, nodes + [value];
        }
        var node := fileContent[recordPointer..recordPointer + length];
        ghost var read := value;
        value := if bit == 1 then RightRecord(length, node) else LeftRecord(length, node);
        currentBit := currentBit + 1;
        ghost var rest := NodesRead(View(), value, currentBit, depth, address);
        assert nodes + ([read] + rest) == nodes + [read] + rest;
        nodes := nodes + [read];
      }
      WalkStops(View(), value, currentBit, depth, address);
      return Reached(value, currentBit), nodes;
    }

    /** find_address_in_search_tree */
    method FindAddressInSearchTree(address: seq<byte>, isIpv4: bool, result: LookupResult) returns (status: Status)
      requires Usable(View()) && depth <= 8 * |address|
      requires !result.foundEntry && result.netmask == 0 && result.offset == 0
      modifies result
      ensures status == FindAddress(View(), address, isIpv4).status
      ensures result.Shows(FindAddress(View(), address, isIpv4))
    {
      hide Walk, OffsetOf, Usable;
      if RightRecordOffset(fullRecordByteSize) == 0 {
        return UnknownDatabaseFormat;
      }
      var value: uint32 := 0;
      var currentBit := 0;
      if ipVersion == 6 && isIpv4 {
        value, currentBit := startValue, startMask;
      }
      var end, _ := WalkTree(address, value, currentBit);
      if end == Corrupt {
        return CorruptSearchTree;
      }
      value, currentBit := end.value, end.bit;
      result.netmask := currentBit;
      var kind := TypeOf(View(), value);
      if kind == Invalid {
        return CorruptSearchTree;
      }
      if kind == Empty {
        result.foundEntry := false;
        return Success;
      }
      result.foundEntry := true;
      result.offset := OffsetOf(View(), value);
      return Success;
    }

    /** MMDB_lookup_sockaddr */
    method Lookup(addr: SockAddr) returns (status: Status, result: LookupResult)
      requires Usable(View()) && ipVersion in {4, 6} && WellFormed(addr)
      ensures fresh(result)
      ensures status == LookupSockaddr(View(), addr).status && result.Shows(LookupSockaddr(View(), addr))
    {
      result := new LookupResult();
      if addr.OtherFamily? {
        return InvalidNetworkAddress, result;
      }
      var address: seq<byte>;
      if ipVersion == 4 {
        if addr.Inet6? {
          return Ipv6LookupInIpv4Database, result;
        }
        address := addr.bytes4;
      } else if addr.Inet6? {
        address := addr.bytes16;
      } else {
        address := MapIpv4(addr.bytes4);
      }
      status := FindAddressInSearchTree(address, addr.Inet?, result);
    }

    /** MMDB_read_node. The records are stored even when one of them is invalid. */
    method ReadOneNode(number: uint32, node: SearchNodeData) returns (status: Status)
      requires Usable(View())
      modifies node
      ensures match ReadNode(View(), number)
              case Err(error) => status == error
              case Ok(read) => status == Success && node.Shows(read)
    {
      hide LeftRecord, RightRecord, OffsetOf;
      var db := View();
      var length := fullRecordByteSize;
      if RightRecordOffset(length) == 0 {
        return UnknownDatabaseFormat;
      }
      if number >= nodeCount {
        return InvalidNodeNumber;
      }
      var recordPointer := number * length;
      if recordPointer + length > dataSection {
        return CorruptSearchTree;
      }
      var bytes := fileContent[recordPointer..recordPointer + length];
      node.leftRecord := LeftRecord(length, bytes);
      node.rightRecord := RightRecord(length, bytes);
      node.leftRecordType := TypeOf(db, node.leftRecord);
      node.rightRecordType := TypeOf(db, node.rightRecord);
      if node.leftRecordType == Invalid || node.rightRecordType == Invalid {
        return CorruptSearchTree;
      }
      node.leftOffset := OffsetOf(db, node.leftRecord);
      node.rightOffset := OffsetOf(db, node.rightRecord);
      return Success;
    }
  }

  /** MMDB_search_node_s */
  class SearchNodeData {
    var leftRecord: uint32
    var rightRecord: uint32
    var leftRecordType: RecordType
    var rightRecordType: RecordType
    var leftOffset: uint32
    var rightOffset: uint32

    ghost predicate Shows(node: NodeRecords)
      reads this
    {
      node == NodeRecords(leftRecord, rightRecord, leftRecordType, rightRecordType, leftOffset, rightOffset)
    }
  }

  lemma ZeroBit(i: nat)
    requires i < 96
    ensures !Bit(ZERO_ADDRESS, i)
  {
    assert ZERO_ADDRESS[i / 8] == 0;
  }

  /** There is at most one place where the metadata can be. */
  lemma OnlyOneMarkerIsLast(file: seq<byte>, i: nat)
    requires LastMarkerAt(file, i)
    ensures forall j: nat | LastMarkerAt(file, j) :: j == i
  {
    forall j: nat | LastMarkerAt(file, j) ensures j == i {
      assert MarkerAt(file, i) && MarkerAt(file, j);
    }
  }

  /** A file has at most one metadata. */
  lemma OneMetadata(file: seq<byte>, memory: Memory, m: MetadataValues, n: MetadataValues)
    requires Opens(file, memory, m) && Opens(file, memory, n)
    ensures m == n
  {
    hide LastMarkerAt, ReadMetadata, SectionAfter, Fits;
    var i: nat :| Describes(file, i, memory, m);
    var j: nat :| Describes(file, j, memory, n);
    OnlyOneMarkerIsLast(file, i);
  }

  /** Every file that is a tree, 16 bytes, data, a marker and metadata opens when
      the metadata describes that tree: whatever the sizes, as long as the part
      after the 16 bytes has at least 3 and fewer than 2^32 bytes. */
  lemma WellFormedFileOpens(
      tree: seq<byte>, separator: seq<byte>, data: seq<byte>, metadata: seq<byte>, memory: Memory, m: MetadataValues)
    requires ReadMetadata(metadata, memory) == Ok(m) && m.majorVersion == 2
    requires |tree| == m.nodeCount * (m.recordSize / 4) && |separator| == 16
    requires 3 <= |data| + 14 + |metadata| < 0x1_0000_0000
    requires 0 < |metadata| <= 131072 - 14 && forall i: nat :: !Holds(metadata, i, METADATA_MARKER)
    ensures var file := tree + separator + data + METADATA_MARKER + metadata;
            && Opens(file, memory, m)
            && forall db | Opened(db) && db.file == file && db.nodeCount == m.nodeCount
                           && db.recordLength == m.recordSize / 4 ::
                 db.dataSection == |tree| + 16 && db.dataSectionSize == |data| + 14 + |metadata|
  {
    hide ReadMetadata, LastMarkerAt, Fits;
    var before := tree + separator + data;
    var file := before + METADATA_MARKER + metadata;
    MarkerBeforeMetadataIsLast(before, metadata);
    assert SectionAfter(file, |before|) == metadata;
    assert Describes(file, |before|, memory, m);
    assert tree + separator + (data + METADATA_MARKER + metadata) == file;
    FitsIff(file, m.nodeCount, m.recordSize / 4);
  }
}
