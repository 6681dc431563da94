/** The binary search tree over address bits: what a lookup, the IPv4 start node
    and MMDB_read_node compute, and how they agree. */
module SearchTree {
  import opened Base
  import opened Wire
  import opened Records

  const DATA_SECTION_SEPARATOR := 16

  /** The members of MMDB_s that the search tree code reads. `dataSection` is the
      offset of the data section in the file. */
  datatype Db = Db(
    file: seq<byte>, nodeCount: uint32, recordLength: nat, ipVersion: nat, depth: nat,
    dataSection: nat, dataSectionSize: uint32, startValue: uint32, startMask: nat)

  /** The tree may be read up to the data section. */
  predicate Usable(db: Db) {
    && db.dataSection <= |db.file|
    && db.depth == (if db.ipVersion == 4 then 32 else 128)
    && db.startMask <= 96
  }

  /** The tree, the separator and the data section tile the file. */
  predicate Tiled(db: Db) {
    && Usable(db)
    && KnownLength(db.recordLength)
    && db.ipVersion in {4, 6}
    && db.nodeCount > 0
    && db.dataSection == db.nodeCount * db.recordLength + DATA_SECTION_SEPARATOR
    && db.dataSection + db.dataSectionSize == |db.file|
    && 3 <= db.dataSectionSize
  }

  /** What MMDB_open establishes: the file is tiled, and the IPv4 start node is
      the one that 96 zero bits lead to. */
  predicate Opened(db: Db) {
    && Tiled(db)
    && (if db.ipVersion == 6 then Walk(db, 0, 0, 96, ZERO_ADDRESS) == Reached(db.startValue, db.startMask)
        else db.startValue == 0 == db.startMask)
  }

  const ZERO_ADDRESS: seq<byte> := [0, 0, 0, 0, 0, 0, 0, 0, 0, 0, 0, 0, 0, 0, 0, 0]

  // ---- walking the tree ----

  function Power2(n: nat): (p: nat)
    requires n <= 8
    ensures p > 0
  {
    [1, 2, 4, 8, 16, 32, 64, 128, 256][n]
  }

  function Bit(address: seq<byte>, i: nat): bool
    requires i < 8 * |address|
  {
    address[i / 8] / Power2(7 - i % 8) % 2 == 1
  }

  /** The left or right record of a node, or nothing where the node would reach
      past the start of the data section. */
  function Record(db: Db, node: nat, right: bool): Option<uint32>
    requires Usable(db) && KnownLength(db.recordLength)
  {
    var at := node * db.recordLength;
    if at + db.recordLength > db.dataSection then None
    else
      var bytes := db.file[at..at + db.recordLength];
      Some(if right then RightRecord(db.recordLength, bytes) else LeftRecord(db.recordLength, bytes))
  }

  datatype WalkEnd = Reached(value: uint32, bit: nat) | Corrupt

  /** The loop of find_address_in_search_tree, from `value` at `bit` until a
      record that is no node, or until `stop` bits are used. */
  function Walk(db: Db, value: uint32, bit: nat, stop: nat, address: seq<byte>): (r: WalkEnd)
    requires Usable(db) && KnownLength(db.recordLength) && stop <= 8 * |address|
    ensures r.Reached? && bit <= stop ==> bit <= r.bit <= stop && (r.value < db.nodeCount ==> r.bit == stop)
    decreases stop - bit
  {
    if bit < stop && value < db.nodeCount then
      match Record(db, value, Bit(address, bit))
      case None => Corrupt
      case Some(record) => Walk(db, record, bit + 1, stop, address)
    else Reached(value, bit)
  }

  // ---- what a record stands for ----

  datatype RecordType = SearchNode | Empty | Data | Invalid

  /** record_type */
  function TypeOf(db: Db, record: uint32): RecordType {
    if record == 0 then Invalid
    else if record < db.nodeCount then SearchNode
    else if record == db.nodeCount then Empty
    else
      var dataOffset := record - db.nodeCount;
      if dataOffset < DATA_SECTION_SEPARATOR then Invalid
      else if dataOffset - DATA_SECTION_SEPARATOR < db.dataSectionSize then Data
      else Invalid
  }

  /** data_section_offset_for_record, in uint32_t arithmetic. */
  function OffsetOf(db: Db, record: uint32): uint32 {
    Sub32(Sub32(record, db.nodeCount), DATA_SECTION_SEPARATOR)
  }

  /** A status and the MMDB_lookup_result_s that goes with it. */
  datatype Answer = Answer(status: Status, found: bool, netmask: nat, offset: uint32)

  function Classify(db: Db, value: uint32, netmask: nat): Answer {
    match TypeOf(db, value)
    case Invalid => Answer(CorruptSearchTree, false, netmask, 0)
    case Empty => Answer(Success, false, netmask, 0)
    case _ => Answer(Success, true, netmask, OffsetOf(db, value))
  }

  /** find_address_in_search_tree. An IPv4 address in an IPv6 database comes as
      the 16 bytes of its mapped form, and starts at the cached node. */
  function FindAddress(db: Db, address: seq<byte>, isIpv4: bool): Answer
    requires Usable(db) && db.depth <= 8 * |address|
  {
    if !KnownLength(db.recordLength) then Answer(UnknownDatabaseFormat, false, 0, 0) else
    var cached := db.ipVersion == 6 && isIpv4;
    match Walk(db, if cached then db.startValue else 0, if cached then db.startMask else 0, db.depth, address)
    case Corrupt => Answer(CorruptSearchTree, false, 0, 0)
    case Reached(value, bit) => Classify(db, value, bit)
  }

  datatype SockAddr = Inet(bytes4: seq<byte>) | Inet6(bytes16: seq<byte>) | OtherFamily

  predicate WellFormed(addr: SockAddr) {
    match addr
    case Inet(bytes4) => |bytes4| == 4
    case Inet6(bytes16) => |bytes16| == 16
    case OtherFamily => true
  }

  function MapIpv4(bytes4: seq<byte>): seq<byte> {
    ZERO_ADDRESS[..12] + bytes4
  }

  /** MMDB_lookup_sockaddr */
  function LookupSockaddr(db: Db, addr: SockAddr): Answer
    requires Usable(db) && db.ipVersion in {4, 6} && WellFormed(addr)
  {
    match addr
    case OtherFamily => Answer(InvalidNetworkAddress, false, 0, 0)
    case Inet6(bytes16) =>
      if db.ipVersion == 4 then Answer(Ipv6LookupInIpv4Database, false, 0, 0)
      else FindAddress(db, bytes16, false)
    case Inet(bytes4) =>
      FindAddress(db, if db.ipVersion == 4 then bytes4 else MapIpv4(bytes4), true)
  }

  // ---- reads stay inside the tree ----

  lemma NodeFits(nodeCount: nat, length: nat, node: nat)
    requires node < nodeCount
    ensures node * length + length <= nodeCount * length
  {
    assert (node + 1) * length <= nodeCount * length;
  }

  /** The nodes that a walk reads. */
  function NodesRead(db: Db, value: uint32, bit: nat, stop: nat, address: seq<byte>): seq<uint32>
    requires Usable(db) && KnownLength(db.recordLength) && stop <= 8 * |address|
    decreases stop - bit
  {
    if bit < stop && value < db.nodeCount then
      match Record(db, value, Bit(address, bit))
      case None => [value]
      case Some(record) => [value] + NodesRead(db, record, bit + 1, stop, address)
    else []
  }

  /** One round of the walk, and of the nodes it reads. */
  lemma WalkStep(db: Db, value: uint32, bit: nat, stop: nat, address: seq<byte>)
    requires Usable(db) && KnownLength(db.recordLength) && stop <= 8 * |address|
    requires bit < stop && value < db.nodeCount
    ensures match Record(db, value, Bit(address, bit))
            case None =>
              && Walk(db, value, bit, stop, address) == Corrupt
              && NodesRead(db, value, bit, stop, address) == [value]
            case Some(record) =>
              && Walk(db, value, bit, stop, address) == Walk(db, record, bit + 1, stop, address)
              && NodesRead(db, value, bit, stop, address)
              == [value] + NodesRead(db, record, bit + 1, stop, address)
  {
    hide Record, Bit;
  }

  lemma WalkStops(db: Db, value: uint32, bit: nat, stop: nat, address: seq<byte>)
    requires Usable(db) && KnownLength(db.recordLength) && stop <= 8 * |address|
    requires bit >= stop || value >= db.nodeCount
    ensures Walk(db, value, bit, stop, address) == Reached(value, bit)
    ensures NodesRead(db, value, bit, stop, address) == []
  {
  }

  /** The bytes of a node are those of the tree, before the separator. */
  predicate InTree(db: Db, node: nat) {
    node * db.recordLength + db.recordLength <= db.nodeCount * db.recordLength
  }

  /** In a tiled file no lookup reports a corrupt tree because of where a node
      lies, and every node that a walk reads is inside the tree. */
  lemma {:induction false} WalkStaysInTree(db: Db, value: uint32, bit: nat, stop: nat, address: seq<byte>)
    requires Tiled(db) && stop <= 8 * |address|
    ensures Walk(db, value, bit, stop, address).Reached?
    ensures forall node | node in NodesRead(db, value, bit, stop, address) :: InTree(db, node)
    ensures db.nodeCount * db.recordLength + DATA_SECTION_SEPARATOR == db.dataSection
    decreases stop - bit
  {
    if bit < stop && value < db.nodeCount {
      NodeFits(db.nodeCount, db.recordLength, value);
      WalkStaysInTree(db, Record(db, value, Bit(address, bit)).value, bit + 1, stop, address);
    }
  }

  // ---- the reference: paths through encoded nodes ----

  /** Node number `node` of the tree is stored with these two records. */
  ghost predicate NodeAt(db: Db, node: nat, left: nat, right: nat)
    requires Tiled(db)
  {
    && node < db.nodeCount
    && left < RecordLimit(db.recordLength) && right < RecordLimit(db.recordLength)
    && Holds(db.file, node * db.recordLength, EncodeNode(db.recordLength, left, right))
  }

  /** Going left for each 0 bit and right for each 1 bit leads through nodes from
      `from` to the record `to`. */
  ghost predicate Leads(db: Db, from: nat, bits: seq<bool>, to: nat)
    requires Tiled(db)
    decreases |bits|
  {
    if bits == [] then from == to
    else
      exists left: nat, right: nat ::
        NodeAt(db, from, left, right) && Leads(db, if bits[0] then right else left, bits[1..], to)
  }

  /** Bits from..to of an address, the highest bit of the first byte being bit 0. */
  function Bits(address: seq<byte>, from: nat, to: nat): (bits: seq<bool>)
    requires to <= 8 * |address|
    ensures |bits| == (if from < to then to - from else 0)
    decreases if from < to then to - from else 0
  {
    if from >= to then [] else [Bit(address, from)] + Bits(address, from + 1, to)
  }

  lemma RecordsOfNode(db: Db, node: uint32) returns (left: uint32, right: uint32)
    requires Tiled(db) && node < db.nodeCount
    ensures Record(db, node, false) == Some(left) && Record(db, node, true) == Some(right)
    ensures NodeAt(db, node, left, right)
    ensures forall l: nat, r: nat | NodeAt(db, node, l, r) :: l == left && r == right
  {
    hide LeftRecord, RightRecord, EncodeNode;
    NodeFits(db.nodeCount, db.recordLength, node);
    var at := node * db.recordLength;
    var bytes := db.file[at..at + db.recordLength];
    left, right := LeftRecord(db.recordLength, bytes), RightRecord(db.recordLength, bytes);
    NodeIsEncoded(db.recordLength, bytes);
    forall l: nat, r: nat | NodeAt(db, node, l, r) ensures l == left && r == right {
      NodeCodec(db.recordLength, bytes, l, r);
    }
  }

  /** A walk ends exactly where the bits of the address lead through the encoded
      nodes, stopping at the first record that is no node. */
  lemma {:induction false} WalkFollowsTheBits(
      db: Db, value: uint32, bit: nat, stop: nat, address: seq<byte>, to: uint32, end: nat)
    requires Tiled(db) && bit <= stop <= 8 * |address|
    ensures Walk(db, value, bit, stop, address) == Reached(to, end)
       <==> && bit <= end <= stop
            && Leads(db, value, Bits(address, bit, end), to)
            && (end == stop || to >= db.nodeCount)
    decreases stop - bit
  {
    hide Bit, Record, Tiled;
    if bit < stop && value < db.nodeCount {
      var left, right := RecordsOfNode(db, value);
      var next := if Bit(address, bit) then right else left;
      WalkFollowsTheBits(db, next, bit + 1, stop, address, to, end);
      if bit < end <= stop {
        var bits := Bits(address, bit, end);
        assert bits[1..] == Bits(address, bit + 1, end);
        assert NodeAt(db, value, left, right);
        assert Leads(db, value, bits, to) <==> Leads(db, next, bits[1..], to);
      }
    } else if bit < end <= stop {
      assert Bits(address, bit, end) != [];
    }
  }

  // ---- the reference: what the value of a record stands for ----

  datatype RecordMeaning = ToNode(node: nat) | NoData | AtData(at: nat)

  /** The meanings that a record of this database can have. Going back to the
      root is none, although a walk with bits left does go there. */
  predicate LegalRecord(db: Db, meaning: RecordMeaning) {
    && EncodeRecord(db, meaning) < UINT32_LIMIT
    && match meaning
       case ToNode(node) => 0 < node < db.nodeCount
       case NoData => true
       case AtData(at) => at < db.dataSectionSize
  }

  /** Nodes come first, then "no data", then the separator, then the data. */
  function EncodeRecord(db: Db, meaning: RecordMeaning): nat {
    match meaning
    case ToNode(node) => node
    case NoData => db.nodeCount
    case AtData(at) => db.nodeCount + 16 + at
  }

  function KindOf(meaning: RecordMeaning): RecordType {
    match meaning
    case ToNode(_) => SearchNode
    case NoData => Empty
    case AtData(_) => Data
  }

  /** A record is classified by its meaning, and one that points to data is given
      the offset of that data. */
  lemma RecordCodec(db: Db, record: uint32, meaning: RecordMeaning)
    requires Tiled(db) && LegalRecord(db, meaning)
    ensures record == EncodeRecord(db, meaning)
       <==> && TypeOf(db, record) == KindOf(meaning)
            && (meaning.ToNode? ==> record == meaning.node)
            && (meaning.AtData? ==> OffsetOf(db, record) == meaning.at)
    ensures record == EncodeRecord(db, meaning) && meaning.AtData? ==>
              db.dataSection + OffsetOf(db, record) == db.nodeCount * db.recordLength + record - db.nodeCount
  {
  }

  /** The records classified as invalid are those that mean nothing. */
  lemma InvalidMeansNothing(db: Db, record: uint32)
    requires Tiled(db)
    ensures TypeOf(db, record) == Invalid
       <==> forall meaning | LegalRecord(db, meaning) :: EncodeRecord(db, meaning) != record
  {
    if TypeOf(db, record) != Invalid {
      var meaning := if record < db.nodeCount then ToNode(record)
                     else if record == db.nodeCount then NoData
                     else AtData(record - db.nodeCount - 16);
      assert LegalRecord(db, meaning) && EncodeRecord(db, meaning) == record;
    }
  }

  /** The answer to a lookup whose last record has this meaning. It is a node only
      when the bits run out, and then the offset wraps around. */
  function AnswerFor(db: Db, meaning: RecordMeaning, netmask: nat): Answer
    requires LegalRecord(db, meaning)
  {
    match meaning
    case ToNode(node) => Answer(Success, true, netmask, (node - db.nodeCount - 16) % UINT32_LIMIT)
    case NoData => Answer(Success, false, netmask, 0)
    case AtData(at) => Answer(Success, true, netmask, at)
  }

  lemma WrappedOffset(record: uint32, nodeCount: uint32)
    ensures Sub32(Sub32(record, nodeCount), DATA_SECTION_SEPARATOR) == (record - nodeCount - 16) % UINT32_LIMIT
  {
  }

  /** Two records with the same wrapped offset are the same record. */
  lemma OffsetNamesRecord(db: Db, a: uint32, b: uint32)
    requires OffsetOf(db, a) == OffsetOf(db, b)
    ensures a == b
  {
    WrappedOffset(a, db.nodeCount);
    WrappedOffset(b, db.nodeCount);
  }

  lemma ClassifyIsAnswerFor(db: Db, record: uint32, netmask: nat, meaning: RecordMeaning, end: nat)
    requires Tiled(db) && LegalRecord(db, meaning)
    ensures Classify(db, record, netmask) == AnswerFor(db, meaning, end)
       <==> record == EncodeRecord(db, meaning) && netmask == end
  {
    var expected: uint32 := EncodeRecord(db, meaning);
    RecordCodec(db, expected, meaning);
    WrappedOffset(expected, db.nodeCount);
    if OffsetOf(db, record) == OffsetOf(db, expected) {
      OffsetNamesRecord(db, record, expected);
    }
  }

  /** The binary number that the bits write. */
  function Binary(bits: seq<bool>): nat {
    if bits == [] then 0 else 2 * Binary(bits[..|bits| - 1]) + (if bits[|bits| - 1] then 1 else 0)
  }

  lemma {:induction false} BitsAppend(address: seq<byte>, from: nat, to: nat)
    requires from <= to < 8 * |address|
    ensures Bits(address, from, to + 1) == Bits(address, from, to) + [Bit(address, to)]
    decreases if from < to then to - from else 0
  {
    hide Bit;
    if from < to {
      BitsAppend(address, from + 1, to);
    }
  }

  lemma NextBit(b: byte, k: nat)
    requires k < 8
    ensures b / Power2(7 - k) == 2 * (b / Power2(8 - k)) + b / Power2(7 - k) % 2
    ensures Power2(k + 1) == 2 * Power2(k)
  {
  }

  lemma EndPowers()
    ensures Power2(0) == 1 && Power2(8) == 256
  {
  }

  lemma BitOfByte(address: seq<byte>, i: nat, k: nat)
    requires i < |address| && k < 8
    ensures Bit(address, 8 * i + k) <==> address[i] / Power2(7 - k) % 2 == 1
  {
    assert (8 * i + k) / 8 == i && (8 * i + k) % 8 == k;
  }

  lemma DoubleProduct(x: nat, p: nat, q: nat)
    requires q == 2 * p
    ensures x * q == 2 * (x * p)
  {
  }

  lemma {:induction false} BinaryWithinByte(address: seq<byte>, i: nat, k: nat)
    requires i < |address| && k <= 8
    ensures Binary(Bits(address, 0, 8 * i + k))
         == Binary(Bits(address, 0, 8 * i)) * Power2(k) + address[i] / Power2(8 - k)
    decreases k
  {
    hide Bits, Bit, Power2, Binary;
    EndPowers();
    if k > 0 {
      var before := Bits(address, 0, 8 * i + k - 1);
      var last := Bit(address, 8 * i + k - 1);
      BinaryWithinByte(address, i, k - 1);
      BitsAppend(address, 0, 8 * i + k - 1);
      BinaryAppend(before, last);
      BitOfByte(address, i, k - 1);
      NextBit(address[i], k - 1);
      DoubleProduct(Binary(Bits(address, 0, 8 * i)), Power2(k - 1), Power2(k));
    }
  }

  lemma BinaryAppend(bits: seq<bool>, last: bool)
    ensures Binary(bits + [last]) == 2 * Binary(bits) + (if last then 1 else 0)
  {
    assert (bits + [last])[..|bits|] == bits;
  }

  /** The bits are those of the address in network byte order. */
  lemma {:induction false} BitsWriteTheAddress(address: seq<byte>, n: nat)
    requires n <= |address|
    ensures Binary(Bits(address, 0, 8 * n)) == BigEndian(address[..n])
    decreases n
  {
    hide Bit, Power2;
    if n > 0 {
      hide Bits, Binary;
      EndPowers();
      BitsWriteTheAddress(address, n - 1);
      BinaryWithinByte(address, n - 1, 8);
      assert address[..n][..n - 1] == address[..n - 1];
    }
  }

  // ---- a netmask names a subnet ----

  ghost predicate AgreeOn(a: seq<byte>, b: seq<byte>, from: nat, to: nat)
    requires to <= 8 * |a| && to <= 8 * |b|
  {
    forall i | from <= i < to :: Bit(a, i) == Bit(b, i)
  }

  lemma {:induction false} WalkUsesOnlyItsBits(db: Db, value: uint32, bit: nat, stop: nat, a: seq<byte>, b: seq<byte>)
    requires Usable(db) && KnownLength(db.recordLength) && bit <= stop <= 8 * |a| && stop <= 8 * |b|
    requires Walk(db, value, bit, stop, a).Reached?
    requires AgreeOn(a, b, bit, Walk(db, value, bit, stop, a).bit)
    ensures Walk(db, value, bit, stop, b) == Walk(db, value, bit, stop, a)
    decreases stop - bit
  {
    hide Record, Bit;
    if bit < stop && value < db.nodeCount {
      var record := Record(db, value, Bit(a, bit)).value;
      assert Walk(db, value, bit, stop, a) == Walk(db, record, bit + 1, stop, a);
      assert Bit(a, bit) == Bit(b, bit);
      WalkUsesOnlyItsBits(db, record, bit + 1, stop, a, b);
    }
  }

  /** Addresses of one family that agree on the netmask bits of one of them get
      the same status, netmask, found flag and offset. */
  lemma SubnetIsUniform(db: Db, a: seq<byte>, b: seq<byte>, isIpv4: bool)
    requires Opened(db) && db.depth <= 8 * |a| && db.depth <= 8 * |b|
    requires AgreeOn(a, b, 0, FindAddress(db, a, isIpv4).netmask)
    ensures FindAddress(db, b, isIpv4) == FindAddress(db, a, isIpv4)
  {
    hide Record, TypeOf, OffsetOf, Bit;
    var cached := db.ipVersion == 6 && isIpv4;
    var value, bit := if cached then db.startValue else 0, if cached then db.startMask else 0;
    WalkStaysInTree(db, value, bit, db.depth, a);
    WalkUsesOnlyItsBits(db, value, bit, db.depth, a, b);
  }

  /** The networks returned are prefix-free: of two addresses either both get the
      same network, or they differ within the bits of both. */
  lemma NetworksArePrefixFree(db: Db, a: seq<byte>, b: seq<byte>, isIpv4: bool)
    requires Opened(db) && db.depth <= 8 * |a| && db.depth <= 8 * |b|
    ensures FindAddress(db, a, isIpv4).netmask <= db.depth && FindAddress(db, b, isIpv4).netmask <= db.depth
    ensures var m, n := FindAddress(db, a, isIpv4).netmask, FindAddress(db, b, isIpv4).netmask;
            || (m == n && AgreeOn(a, b, 0, m) && FindAddress(db, a, isIpv4) == FindAddress(db, b, isIpv4))
            || (exists i: nat :: i < m && i < n && Bit(a, i) != Bit(b, i))
  {
    hide Walk;
    NetmaskBound(db, a, isIpv4);
    NetmaskBound(db, b, isIpv4);
    var m, n := FindAddress(db, a, isIpv4).netmask, FindAddress(db, b, isIpv4).netmask;
    if m <= n && AgreeOn(a, b, 0, m) {
      SubnetIsUniform(db, a, b, isIpv4);
    } else if n <= m && AgreeOn(a, b, 0, n) {
      assert AgreeOn(b, a, 0, n);
      SubnetIsUniform(db, b, a, isIpv4);
    }
  }

  lemma NetmaskBound(db: Db, a: seq<byte>, isIpv4: bool)
    requires Opened(db) && db.depth <= 8 * |a|
    ensures FindAddress(db, a, isIpv4).netmask <= db.depth
  {
    var cached := db.ipVersion == 6 && isIpv4;
    WalkStaysInTree(db, if cached then db.startValue else 0, if cached then db.startMask else 0, db.depth, a);
  }

  // ---- the IPv4 start node ----

  lemma {:induction false} WalkInTwoStages(db: Db, value: uint32, bit: nat, middle: nat, stop: nat, address: seq<byte>)
    requires Usable(db) && KnownLength(db.recordLength) && bit <= middle <= stop <= 8 * |address|
    requires Walk(db, value, bit, middle, address).Reached?
    ensures var r := Walk(db, value, bit, middle, address);
            Walk(db, value, bit, stop, address) == Walk(db, r.value, r.bit, stop, address)
    decreases middle - bit
  {
    if bit < middle && value < db.nodeCount {
      WalkInTwoStages(db, Record(db, value, Bit(address, bit)).value, bit + 1, middle, stop, address);
    }
  }

  lemma MappedBitsAreZero(bytes4: seq<byte>, i: nat)
    requires |bytes4| == 4 && i < 96
    ensures Bit(MapIpv4(bytes4), i) == Bit(ZERO_ADDRESS, i) == false
  {
    assert MapIpv4(bytes4)[i / 8] == 0;
  }

  lemma RecordIgnoresStartNode(db: Db, startValue: uint32, startMask: nat, node: nat, right: bool)
    requires Usable(db) && KnownLength(db.recordLength) && startMask <= 96
    ensures Record(db.(startValue := startValue, startMask := startMask), node, right) == Record(db, node, right)
  {
  }

  /** The cached node plays no part in a walk. */
  lemma {:induction false} WalkIgnoresStartNode(
      db: Db, startValue: uint32, startMask: nat, value: uint32, bit: nat, stop: nat, address: seq<byte>)
    requires Usable(db) && KnownLength(db.recordLength) && stop <= 8 * |address| && startMask <= 96
    ensures Walk(db.(startValue := startValue, startMask := startMask), value, bit, stop, address)
         == Walk(db, value, bit, stop, address)
    decreases stop - bit
  {
    hide Bit, Record;
    if bit < stop && value < db.nodeCount {
      RecordIgnoresStartNode(db, startValue, startMask, value, Bit(address, bit));
    }
    if bit < stop && value < db.nodeCount && Record(db, value, Bit(address, bit)).Some? {
      WalkIgnoresStartNode(
        db, startValue, startMask, Record(db, value, Bit(address, bit)).value, bit + 1, stop, address);
    }
  }

  /** A tiled IPv6 database is open once the end of the zero walk is cached, and
      that walk does not fail. */
  lemma StartNodeOpens(db: Db, startValue: uint32, startMask: nat)
    requires Tiled(db) && db.ipVersion == 6
    ensures Walk(db, 0, 0, 96, ZERO_ADDRESS).Reached?
    ensures Walk(db, 0, 0, 96, ZERO_ADDRESS) == Reached(startValue, startMask)
         ==> Opened(db.(startValue := startValue, startMask := startMask))
  {
    WalkStaysInTree(db, 0, 0, 96, ZERO_ADDRESS);
    if Walk(db, 0, 0, 96, ZERO_ADDRESS) == Reached(startValue, startMask) {
      WalkIgnoresStartNode(db, startValue, startMask, 0, 0, 96, ZERO_ADDRESS);
    }
  }

  /** In every opened IPv6 database, looking up an IPv4 address from the cached
      node is looking up its mapped form from the root. */
  lemma StartNodeAgreesWithRoot(db: Db, bytes4: seq<byte>)
    requires Opened(db) && db.ipVersion == 6 && |bytes4| == 4
    ensures LookupSockaddr(db, Inet(bytes4)) == LookupSockaddr(db, Inet6(MapIpv4(bytes4)))
  {
    var address := MapIpv4(bytes4);
    forall i | 0 <= i < 96 ensures Bit(ZERO_ADDRESS, i) == Bit(address, i) {
      MappedBitsAreZero(bytes4, i);
    }
    WalkUsesOnlyItsBits(db, 0, 0, 96, ZERO_ADDRESS, address);
    WalkInTwoStages(db, 0, 0, 96, db.depth, address);
  }

  // ---- what a lookup answers ----

  /** The bits that an address stands for in the tree, or nothing for a family that
      the database does not have. IPv4 addresses are in the part of an IPv6 tree
      that 96 zero bits lead to. */
  function TreeBits(db: Db, addr: SockAddr): Option<seq<bool>>
    requires WellFormed(addr)
  {
    match addr
    case OtherFamily => None
    case Inet6(bytes16) => if db.ipVersion == 4 then None else Some(Bits(bytes16, 0, 128))
    case Inet(bytes4) =>
      Some(if db.ipVersion == 4 then Bits(bytes4, 0, 32) else seq(96, _ => false) + Bits(bytes4, 0, 32))
  }

  lemma {:induction false} BitsAreInOrder(address: seq<byte>, from: nat, to: nat, i: nat)
    requires from + i < to <= 8 * |address|
    ensures Bits(address, from, to)[i] == Bit(address, from + i)
    decreases i
  {
    hide Bit;
    if i > 0 {
      BitsAreInOrder(address, from + 1, to, i - 1);
    }
  }

  lemma MappedBit(bytes4: seq<byte>, i: nat)
    requires |bytes4| == 4 && i < 128
    ensures Bit(MapIpv4(bytes4), i) == if i < 96 then false else Bit(bytes4, i - 96)
  {
    if i < 96 {
      MappedBitsAreZero(bytes4, i);
    } else {
      assert i / 8 == 12 + (i - 96) / 8 && i % 8 == (i - 96) % 8;
      assert MapIpv4(bytes4)[i / 8] == bytes4[(i - 96) / 8];
    }
  }

  /** The mapped form of an IPv4 address is 96 zero bits and then its own bits. */
  lemma MappedBits(bytes4: seq<byte>)
    requires |bytes4| == 4
    ensures Bits(MapIpv4(bytes4), 0, 96) == seq(96, _ => false)
    ensures Bits(MapIpv4(bytes4), 96, 128) == Bits(bytes4, 0, 32)
    ensures Bits(MapIpv4(bytes4), 0, 128) == seq(96, _ => false) + Bits(bytes4, 0, 32)
  {
    hide Bit, Bits;
    forall i: nat | i < 128
      ensures Bits(MapIpv4(bytes4), 0, 128)[i] == (seq(96, _ => false) + Bits(bytes4, 0, 32))[i]
      ensures i < 96 ==> !Bits(MapIpv4(bytes4), 0, 96)[i]
      ensures i < 32 ==> Bits(MapIpv4(bytes4), 96, 128)[i] == Bits(bytes4, 0, 32)[i]
    {
      MappedBit(bytes4, i);
      BitsAreInOrder(MapIpv4(bytes4), 0, 128, i);
      if i < 96 {
        BitsAreInOrder(MapIpv4(bytes4), 0, 96, i);
      } else {
        BitsAreInOrder(bytes4, 0, 32, i - 96);
      }
      if i < 32 {
        MappedBit(bytes4, 96 + i);
        BitsAreInOrder(MapIpv4(bytes4), 96, 128, i);
        BitsAreInOrder(bytes4, 0, 32, i);
      }
    }
  }

  lemma {:induction false} BitsPrefix(address: seq<byte>, from: nat, middle: nat, to: nat)
    requires from <= middle <= to <= 8 * |address|
    ensures Bits(address, from, to)[..middle - from] == Bits(address, from, middle)
    decreases middle - from
  {
    hide Bit;
    if from < middle {
      BitsPrefix(address, from + 1, middle, to);
      assert Bits(address, from, to)[..middle - from]
          == [Bit(address, from)] + Bits(address, from + 1, to)[..middle - from - 1];
    }
  }

  /** The address whose bits a lookup uses. */
  function TreeAddress(db: Db, addr: SockAddr): Option<seq<byte>> {
    match addr
    case OtherFamily => None
    case Inet6(bytes16) => if db.ipVersion == 4 then None else Some(bytes16)
    case Inet(bytes4) => Some(if db.ipVersion == 4 then bytes4 else MapIpv4(bytes4))
  }

  /** Every lookup is one that starts at the root and follows those bits. */
  lemma LookupIsFromRoot(db: Db, addr: SockAddr) returns (address: seq<byte>)
    requires Opened(db) && WellFormed(addr) && TreeBits(db, addr).Some?
    ensures 8 * |address| == db.depth == |TreeBits(db, addr).value|
    ensures LookupSockaddr(db, addr) == FindAddress(db, address, false)
    ensures forall n: nat | n <= db.depth :: Bits(address, 0, n) == TreeBits(db, addr).value[..n]
  {
    hide Walk, Classify, Bits;
    address := TreeAddress(db, addr).value;
    if addr.Inet? && db.ipVersion == 6 {
      StartNodeAgreesWithRoot(db, addr.bytes4);
      MappedBits(addr.bytes4);
    }
    forall n: nat | n <= db.depth ensures Bits(address, 0, n) == TreeBits(db, addr).value[..n] {
      BitsPrefix(address, 0, n, db.depth);
    }
  }

  /** What a lookup answers is what the bits of the address lead to: the netmask
      is how many of them it takes, and the offset is that of the data. */
  lemma LookupAnswersTheBits(db: Db, addr: SockAddr, netmask: nat, meaning: RecordMeaning)
    requires Opened(db) && WellFormed(addr) && TreeBits(db, addr).Some? && LegalRecord(db, meaning)
    ensures LookupSockaddr(db, addr) == AnswerFor(db, meaning, netmask)
       <==> && netmask <= |TreeBits(db, addr).value|
            && Leads(db, 0, TreeBits(db, addr).value[..netmask], EncodeRecord(db, meaning))
            && (meaning.ToNode? ==> netmask == |TreeBits(db, addr).value|)
  {
    hide Walk, Bits, Leads, Classify, AnswerFor, TypeOf, OffsetOf, LookupSockaddr, TreeBits;
    var address := LookupIsFromRoot(db, addr);
    WalkStaysInTree(db, 0, 0, db.depth, address);
    var end := Walk(db, 0, 0, db.depth, address);
    ClassifyIsAnswerFor(db, end.value, end.bit, meaning, netmask);
    WalkFollowsTheBits(db, 0, 0, db.depth, address, EncodeRecord(db, meaning), netmask);
  }

  /** A lookup fails exactly when the bits lead to a record that means nothing. */
  lemma LookupFailsOnBadRecords(db: Db, addr: SockAddr, netmask: nat, record: uint32)
    requires Opened(db) && WellFormed(addr) && TreeBits(db, addr).Some?
    requires netmask <= |TreeBits(db, addr).value| && Leads(db, 0, TreeBits(db, addr).value[..netmask], record)
    requires record >= db.nodeCount || netmask == |TreeBits(db, addr).value|
    ensures LookupSockaddr(db, addr).netmask == netmask
    ensures LookupSockaddr(db, addr).status == CorruptSearchTree
       <==> forall meaning | LegalRecord(db, meaning) :: EncodeRecord(db, meaning) != record
    ensures LookupSockaddr(db, addr).status in {Success, CorruptSearchTree}
    ensures LookupSockaddr(db, addr).status == CorruptSearchTree ==> !LookupSockaddr(db, addr).found
  {
    hide Walk, Bits, Leads, TypeOf, OffsetOf, LegalRecord, EncodeRecord, LookupSockaddr, TreeBits;
    var address := LookupIsFromRoot(db, addr);
    WalkFollowsTheBits(db, 0, 0, db.depth, address, record, netmask);
    InvalidMeansNothing(db, record);
  }

  /** A family that the database does not have is refused, with its own status, and
      nothing is found; no other lookup reports these. */
  lemma RefusedFamilies(db: Db, addr: SockAddr)
    requires Opened(db) && WellFormed(addr)
    ensures LookupSockaddr(db, addr).status == Ipv6LookupInIpv4Database <==> addr.Inet6? && db.ipVersion == 4
    ensures LookupSockaddr(db, addr).status == InvalidNetworkAddress <==> addr.OtherFamily?
    ensures TreeBits(db, addr).None? ==>
              !LookupSockaddr(db, addr).found && LookupSockaddr(db, addr).netmask == 0
  {
    hide Walk, TypeOf, OffsetOf, Bits;
  }

  /** The address bits run out on a node: they all lead through nodes. */
  ghost predicate RunsOut(db: Db, bits: seq<bool>)
    requires Tiled(db)
  {
    exists node: nat :: node < db.nodeCount && Leads(db, 0, bits, node)
  }

  /** When an entry is found, its offset is inside the data section and names the
      record that the bits lead to, if and only if the bits do not run out on a
      node. Then it has wrapped around. */
  lemma FoundOffset(db: Db, addr: SockAddr)
    requires Opened(db) && WellFormed(addr) && TreeBits(db, addr).Some? && LookupSockaddr(db, addr).found
    ensures var answer := LookupSockaddr(db, addr);
            var bits := TreeBits(db, addr).value;
            && answer.netmask <= |bits|
            && (!RunsOut(db, bits)
                <==> && answer.offset < db.dataSectionSize
                     && Leads(db, 0, bits[..answer.netmask], db.nodeCount + 16 + answer.offset))
  {
    hide Walk, Bits, Leads, LookupSockaddr, TreeBits;
    var address := LookupIsFromRoot(db, addr);
    var bits, depth := TreeBits(db, addr).value, db.depth;
    assert bits[..depth] == bits;
    WalkStaysInTree(db, 0, 0, depth, address);
    var Reached(value, bit) := Walk(db, 0, 0, depth, address);
    WalkFollowsTheBits(db, 0, 0, depth, address, value, bit);
    if value < db.nodeCount {
      assert RunsOut(db, bits);
      var record := db.nodeCount + 16 + LookupSockaddr(db, addr).offset;
      WrappedOffset(value, db.nodeCount);
      assert record >= UINT32_LIMIT;
      if Leads(db, 0, bits[..bit], record) {
        RecordsAreUint32(db, 0, bits[..bit], record);
      }
    } else {
      forall node: nat | node < db.nodeCount ensures !Leads(db, 0, bits, node) {
        WalkFollowsTheBits(db, 0, 0, depth, address, node, depth);
      }
    }
  }

  lemma {:induction false} RecordsAreUint32(db: Db, from: nat, bits: seq<bool>, to: nat)
    requires Tiled(db) && Leads(db, from, bits, to) && from < UINT32_LIMIT
    ensures to < UINT32_LIMIT
    decreases |bits|
  {
    if bits != [] {
      var left: nat, right: nat :|
        NodeAt(db, from, left, right) && Leads(db, if bits[0] then right else left, bits[1..], to);
      RecordsAreUint32(db, if bits[0] then right else left, bits[1..], to);
    }
  }

  // ---- MMDB_read_node ----

  datatype NodeRecords = NodeRecords(
    left: uint32, right: uint32, leftType: RecordType, rightType: RecordType,
    leftOffset: uint32, rightOffset: uint32)

  function ReadNode(db: Db, number: uint32): Result<NodeRecords>
    requires Usable(db)
  {
    if !KnownLength(db.recordLength) then Err(UnknownDatabaseFormat)
    else if number >= db.nodeCount then Err(InvalidNodeNumber)
    else
      match (Record(db, number, false), Record(db, number, true))
      case (Some(left), Some(right)) =>
        if TypeOf(db, left) == Invalid || TypeOf(db, right) == Invalid then Err(CorruptSearchTree)
        else Ok(NodeRecords(left, right, TypeOf(db, left), TypeOf(db, right), OffsetOf(db, left), OffsetOf(db, right)))
      case _ => Err(CorruptSearchTree)
  }

  /** The record that following single nodes reached, and how deep. */
  datatype Descent = Descent(record: uint32, kind: RecordType, offset: uint32, depth: nat)

  /** Following the records that MMDB_read_node returns along the bits of an
      address, until one is no node. Nothing when a read fails first, or when the
      bits run out. */
  function Descend(db: Db, number: uint32, bit: nat, address: seq<byte>): Option<Descent>
    requires Usable(db) && db.depth <= 8 * |address|
    decreases db.depth - bit
  {
    if bit >= db.depth then None else
    match ReadNode(db, number)
    case Err(_) => None
    case Ok(node) =>
      var right := Bit(address, bit);
      var record := if right then node.right else node.left;
      var kind := if right then node.rightType else node.leftType;
      if kind == SearchNode then Descend(db, record, bit + 1, address)
      else Some(Descent(record, kind, if right then node.rightOffset else node.leftOffset, bit + 1))
  }

  lemma {:induction false} DescentIsWalk(db: Db, number: uint32, bit: nat, address: seq<byte>)
    requires Usable(db) && KnownLength(db.recordLength) && db.depth <= 8 * |address|
    requires Descend(db, number, bit, address).Some?
    ensures var d := Descend(db, number, bit, address).value;
            && Walk(db, number, bit, db.depth, address) == Reached(d.record, d.depth)
            && d.kind == TypeOf(db, d.record) && d.kind in {Empty, Data} && d.offset == OffsetOf(db, d.record)
    decreases db.depth - bit
  {
    var node := ReadNode(db, number).value;
    var record := if Bit(address, bit) then node.right else node.left;
    if TypeOf(db, record) == SearchNode {
      DescentIsWalk(db, record, bit + 1, address);
    }
  }

  /** MMDB_read_node succeeds on this node: neither of its records is invalid. */
  predicate ReadsNode(db: Db, node: uint32)
    requires Usable(db)
  {
    ReadNode(db, node).Ok?
  }

  /** What makes it succeed: the node is one of the tree, and each of its stored
      records means something. */
  lemma ReadsNodeIff(db: Db, node: uint32, left: nat, right: nat)
    requires Tiled(db) && NodeAt(db, node, left, right)
    ensures left < UINT32_LIMIT && right < UINT32_LIMIT
    ensures ReadsNode(db, node)
       <==> && (exists meaning :: LegalRecord(db, meaning) && EncodeRecord(db, meaning) == left)
            && (exists meaning :: LegalRecord(db, meaning) && EncodeRecord(db, meaning) == right)
  {
    hide Record, TypeOf, OffsetOf, LegalRecord, EncodeRecord, NodeAt;
    StoredNodeExists(db, node, left, right);
    var l, r := RecordsOfNode(db, node);
    InvalidMeansNothing(db, l);
    InvalidMeansNothing(db, r);
  }

  lemma StoredNodeExists(db: Db, node: nat, left: nat, right: nat)
    requires Tiled(db) && NodeAt(db, node, left, right)
    ensures node < db.nodeCount
  {
  }

  /** Following single nodes succeeds exactly when the walk ends at a record that
      is no node and every node on the way can be read. */
  lemma {:induction false} DescentSucceedsIff(db: Db, number: uint32, bit: nat, address: seq<byte>)
    requires Tiled(db) && db.depth <= 8 * |address| && number < db.nodeCount
    ensures Walk(db, number, bit, db.depth, address).Reached?
    ensures Descend(db, number, bit, address).Some?
       <==> && Walk(db, number, bit, db.depth, address).value >= db.nodeCount
            && forall node | node in NodesRead(db, number, bit, db.depth, address) :: ReadsNode(db, node)
    decreases db.depth - bit
  {
    hide Bit, Record, TypeOf, OffsetOf;
    WalkStaysInTree(db, number, bit, db.depth, address);
    if bit < db.depth {
      var left, right := RecordsOfNode(db, number);
      var next := if Bit(address, bit) then right else left;
      NodeTypes(db, next);
      assert number in NodesRead(db, number, bit, db.depth, address);
      if ReadsNode(db, number) && next < db.nodeCount {
        DescentSucceedsIff(db, next, bit + 1, address);
      }
    }
  }

  lemma NodeTypes(db: Db, record: uint32)
    ensures TypeOf(db, record) == SearchNode <==> 0 < record < db.nodeCount
    ensures record == 0 ==> TypeOf(db, record) == Invalid
  {
  }

  /** What MMDB_read_node returns: the stored records with the kinds that they are
      written for and the offsets of their data; or that there is no such node, or
      that a record means nothing. */
  lemma ReadNodeIsExact(db: Db, number: uint32, l: RecordMeaning, r: RecordMeaning)
    requires Tiled(db) && LegalRecord(db, l) && LegalRecord(db, r)
    ensures NodeAt(db, number, EncodeRecord(db, l), EncodeRecord(db, r))
       <==> && ReadNode(db, number).Ok?
            && ReadNode(db, number).value.left == EncodeRecord(db, l)
            && ReadNode(db, number).value.right == EncodeRecord(db, r)
            && ReadNode(db, number).value.leftType == KindOf(l)
            && ReadNode(db, number).value.rightType == KindOf(r)
            && (l.AtData? ==> ReadNode(db, number).value.leftOffset == l.at)
            && (r.AtData? ==> ReadNode(db, number).value.rightOffset == r.at)
    ensures ReadNode(db, number) == Err(InvalidNodeNumber) <==> number >= db.nodeCount
    ensures number < db.nodeCount && !ReadsNode(db, number) ==> ReadNode(db, number) == Err(CorruptSearchTree)
  {
    hide Record, LegalRecord, NodeAt, OffsetOf, TypeOf;
    if number < db.nodeCount {
      var left, right := RecordsOfNode(db, number);
      RecordCodec(db, left, l);
      RecordCodec(db, right, r);
      if NodeAt(db, number, EncodeRecord(db, l), EncodeRecord(db, r)) {
        RecordCodec(db, EncodeRecord(db, l), l);
        RecordCodec(db, EncodeRecord(db, r), r);
      }
    } else if NodeAt(db, number, EncodeRecord(db, l), EncodeRecord(db, r)) {
      StoredNodeExists(db, number, EncodeRecord(db, l), EncodeRecord(db, r));
      assert false;
    }
  }

  /** Nodes of any length but 6, 7 or 8 bytes are an unknown format. */
  lemma UnknownLengths(db: Db, address: seq<byte>, isIpv4: bool, number: uint32)
    requires Usable(db) && db.depth <= 8 * |address|
    ensures FindAddress(db, address, isIpv4).status == UnknownDatabaseFormat <==> db.recordLength !in {6, 7, 8}
    ensures ReadNode(db, number) == Err(UnknownDatabaseFormat) <==> db.recordLength !in {6, 7, 8}
    ensures db.recordLength !in {6, 7, 8} ==>
              !FindAddress(db, address, isIpv4).found && FindAddress(db, address, isIpv4).netmask == 0
  {
    hide Walk, Record, TypeOf, OffsetOf;
  }

  /** Reading nodes one by one along an address succeeds exactly when the address
      bits do not run out on a node and every node on the way can be read; the
      lookup itself does not mind an invalid record beside its way. It then ends
      where the lookup ends: same depth, same kind of record, same offset. */
  lemma ReadNodeAgreesWithLookup(db: Db, address: seq<byte>)
    requires Opened(db) && db.depth <= 8 * |address|
    ensures Descend(db, 0, 0, address).Some?
       <==> && !RunsOut(db, Bits(address, 0, db.depth))
            && forall node | node in NodesRead(db, 0, 0, db.depth, address) :: ReadsNode(db, node)
    ensures Descend(db, 0, 0, address).Some? ==>
              var d := Descend(db, 0, 0, address).value;
              var answer := FindAddress(db, address, false);
              && answer.status == Success
              && answer.netmask == d.depth
              && answer.found == (d.kind == Data)
              && (d.kind == Data ==> answer.offset == d.offset < db.dataSectionSize)
  {
    hide Walk, Descend, NodesRead, ReadsNode, Bits, Leads;
    DescentSucceedsIff(db, 0, 0, address);
    var Reached(value, bit) := Walk(db, 0, 0, db.depth, address);
    RunsOutIff(db, address, value, bit);
    if Descend(db, 0, 0, address).Some? {
      DescentIsWalk(db, 0, 0, address);
    }
  }

  lemma RunsOutIff(db: Db, address: seq<byte>, value: uint32, bit: nat)
    requires Tiled(db) && db.depth <= 8 * |address|
    requires Walk(db, 0, 0, db.depth, address) == Reached(value, bit)
    ensures RunsOut(db, Bits(address, 0, db.depth)) <==> value < db.nodeCount
  {
    hide Walk, Bits, Leads;
    WalkFollowsTheBits(db, 0, 0, db.depth, address, value, bit);
    forall node: nat | node < db.nodeCount
      ensures Leads(db, 0, Bits(address, 0, db.depth), node)
         <==> Walk(db, 0, 0, db.depth, address) == Reached(node, db.depth)
    {
      WalkFollowsTheBits(db, 0, 0, db.depth, address, node, db.depth);
    }
    assert value < db.nodeCount ==> bit == db.depth by { WalkEndsAtStop(db, address); }
  }

  lemma WalkEndsAtStop(db: Db, address: seq<byte>)
    requires Tiled(db) && db.depth <= 8 * |address|
    ensures var r := Walk(db, 0, 0, db.depth, address); r.Reached? && r.value < db.nodeCount ==> r.bit == db.depth
  {
  }
}
