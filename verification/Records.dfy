/** The nodes of the search tree: two records of 24, 28 or 32 bits in 6, 7 or 8
    bytes ("Binary Search Tree Section", node layout). */
module Records {
  import opened Base
  import opened Wire
  import opened Decoding
  import opened WireProofs

  // ---- the reference: how a pair of records is written ----

  predicate KnownLength(length: nat) {
    length == 6 || length == 7 || length == 8
  }

  function RecordLimit(length: nat): nat {
    if length == 6 then 0x100_0000 else if length == 7 then 0x1000_0000 else UINT32_LIMIT
  }

  /** At 28 bits the middle byte holds the four highest bits of both records. */
  function EncodeNode(length: nat, left: nat, right: nat): (bs: seq<byte>)
    requires KnownLength(length) && left < RecordLimit(length) && right < RecordLimit(length)
    ensures |bs| == length
  {
    if length == 6 then Be3(left) + Be3(right)
    else if length == 8 then Be4(left) + Be4(right)
    else Be3(left % 0x100_0000) + [16 * (left / 0x100_0000) + right / 0x100_0000] + Be3(right % 0x100_0000)
  }

  // ---- the getters ----

  function GetLeft28BitRecord(record: seq<byte>): uint32
    requires |record| >= 4
  {
    record[0] as nat * 65536 + record[1] as nat * 256 + record[2] as nat + record[3] as nat / 16 * 16777216
  }

  function GetRight28BitRecord(record: seq<byte>): uint32
    requires |record| >= 4
  {
    GetUint32(record) % 0x1000_0000
  }

  function RightRecordOffset(length: nat): nat {
    if length == 6 || length == 7 then 3 else if length == 8 then 4 else 0
  }

  function LeftRecord(length: nat, node: seq<byte>): uint32
    requires KnownLength(length) && |node| == length
  {
    if length == 6 then GetUint24(node)
    else if length == 7 then GetLeft28BitRecord(node)
    else GetUint32(node)
  }

  function RightRecord(length: nat, node: seq<byte>): uint32
    requires KnownLength(length) && |node| == length
  {
    var record := node[RightRecordOffset(length)..];
    if length == 6 then GetUint24(record)
    else if length == 7 then GetRight28BitRecord(record)
    else GetUint32(record)
  }

  // ---- the codec is exact ----

  lemma Reads28(node: seq<byte>)
    requires |node| == 7
    ensures LeftRecord(7, node) == node[3] as nat / 16 * 16777216 + GetUint24(node[..3])
    ensures RightRecord(7, node) == node[3] as nat % 16 * 16777216 + GetUint24(node[4..])
  {
    var low := GetUint24(node[4..]);
    assert node[3..][1] == node[4] && node[3..][2] == node[5] && node[3..][3] == node[6];
    assert low == node[4] as nat * 65536 + node[5] as nat * 256 + node[6] as nat;
    assert GetUint32(node[3..]) == node[3] as nat * 16777216 + low;
  }

  /** The nibbles of the middle byte. */
  lemma Nibbles(middle: byte, low: nat, value: nat)
    requires low < 0x100_0000 && value < 0x1000_0000
    ensures middle as nat / 16 * 16777216 + low == value
       <==> middle / 16 == value / 0x100_0000 && low == value % 0x100_0000
    ensures middle as nat % 16 * 16777216 + low == value
       <==> middle % 16 == value / 0x100_0000 && low == value % 0x100_0000
  {
  }

  lemma Codec28(node: seq<byte>, left: nat, right: nat)
    requires |node| == 7 && left < 0x1000_0000 && right < 0x1000_0000
    ensures node == EncodeNode(7, left, right) <==> LeftRecord(7, node) == left && RightRecord(7, node) == right
  {
    hide Be3, GetUint24, LeftRecord, RightRecord;
    var middle: byte := 16 * (left / 0x100_0000) + right / 0x100_0000;
    Reads28(node);
    Codec24(left % 0x100_0000, node[..3]);
    Codec24(right % 0x100_0000, node[4..]);
    Low24(node[..3]);
    Low24(node[4..]);
    Nibbles(node[3], GetUint24(node[..3]), left);
    Nibbles(node[3], GetUint24(node[4..]), right);
    assert node[3] == middle <==> node[3] / 16 == left / 0x100_0000 && node[3] % 16 == right / 0x100_0000;
    SplitSeven(node, Be3(left % 0x100_0000), middle, Be3(right % 0x100_0000));
  }

  lemma Low24(bs: seq<byte>)
    requires |bs| == 3
    ensures GetUint24(bs) < 0x100_0000
  {
  }

  lemma SplitSeven(node: seq<byte>, a: seq<byte>, middle: byte, b: seq<byte>)
    requires |node| == 7 && |a| == 3
    ensures node == a + [middle] + b <==> node[..3] == a && node[3] == middle && node[4..] == b
  {
    assert node == node[..3] + [node[3]] + node[4..];
  }

  /** Reading both records of a node and writing them are inverse: nothing is
      lost and nothing else is read, at each of the three record sizes. */
  lemma NodeCodec(length: nat, node: seq<byte>, left: nat, right: nat)
    requires KnownLength(length) && |node| == length
    requires left < RecordLimit(length) && right < RecordLimit(length)
    ensures node == EncodeNode(length, left, right)
       <==> LeftRecord(length, node) == left && RightRecord(length, node) == right
  {
    if length == 6 {
      Codec24(left, node[..3]);
      Codec24(right, node[3..]);
      assert node == node[..3] + node[3..];
    } else if length == 7 {
      Codec28(node, left, right);
    } else {
      Codec32(left, node[..4]);
      Codec32(right, node[4..]);
      assert node == node[..4] + node[4..];
    }
  }

  /** Every node is the encoding of the records read from it. */
  lemma NodeIsEncoded(length: nat, node: seq<byte>)
    requires KnownLength(length) && |node| == length
    ensures LeftRecord(length, node) < RecordLimit(length) && RightRecord(length, node) < RecordLimit(length)
    ensures node == EncodeNode(length, LeftRecord(length, node), RightRecord(length, node))
  {
    NodeCodec(length, node, LeftRecord(length, node), RightRecord(length, node));
  }
}
