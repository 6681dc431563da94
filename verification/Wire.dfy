/** The data section of the MaxMind DB File Format Specification v2.0 ("Output
    Data Section"), written as an encoder: which bytes a field may be stored
    as. It is the format widened by what the library also accepts: maps in the
    extended form, booleans of any size (all but 0 are true), and type numbers
    that no value has. Nothing here reads a database, its head or its payload; it is the
    reference that the decoder is proved against. */
module Wire {
  import opened Base

  const TYPE_EXTENDED := 0
  const TYPE_POINTER := 1
  const TYPE_UTF8_STRING := 2
  const TYPE_DOUBLE := 3
  const TYPE_BYTES := 4
  const TYPE_UINT16 := 5
  const TYPE_UINT32 := 6
  const TYPE_MAP := 7
  const TYPE_INT32 := 8
  const TYPE_UINT64 := 9
  const TYPE_UINT128 := 10
  const TYPE_ARRAY := 11
  const TYPE_BOOLEAN := 14
  const TYPE_FLOAT := 15

  /** A value without children. `Other` covers the type numbers that no value in a
      data section has: 12 (cache container), 13 (end marker), and those above 15,
      which the format does not define. The library steps over their payload. */
  datatype Scalar =
    | Utf8(text: seq<byte>)
    | Bytes(data: seq<byte>)
    | Double(bits: nat)
    | Float(bits: nat)
    | Uint16(number: nat)
    | Uint32(number: nat)
    | Uint64(number: nat)
    | Uint128(number: nat)
    | Int32(signed: int)
    | Boolean(flag: bool)
    | Other(typ: nat)

  /** One field: a pointer, the head of a container, or a scalar. */
  datatype Field =
    | Pointer(target: nat, width: nat)
    | Map(count: nat)
    | Array(count: nat)
    | Plain(scalar: Scalar)
  {
    predicate IsContainer() {
      Map? || Array?
    }
  }

  function Be2(v: nat): (bs: seq<byte>)
    requires v < 0x1_0000
    ensures |bs| == 2
  {
    [v / 256, v % 256]
  }

  function Be3(v: nat): (bs: seq<byte>)
    requires v < 0x100_0000
    ensures |bs| == 3
  {
    [v / 65536, v / 256 % 256, v % 256]
  }

  function Be4(v: nat): (bs: seq<byte>)
    requires v < 0x1_0000_0000
    ensures |bs| == 4
  {
    [v / 16777216, v / 65536 % 256, v / 256 % 256, v % 256]
  }

  // Payload sizes tile 0..16843036 in four ranges.
  const SIZE_LIMIT := 65821 + 0x100_0000

  function SizeTag(size: nat): (tag: nat)
    requires size < SIZE_LIMIT
    ensures tag < 32
  {
    if size < 29 then size else if size < 285 then 29 else if size < 65821 then 30 else 31
  }

  function SizeBytes(size: nat): seq<byte>
    requires size < SIZE_LIMIT
  {
    if size < 29 then []
    else if size < 285 then [size - 29]
    else if size < 65821 then Be2(size - 285)
    else Be3(size - 65821)
  }

  /** The type number that a field is written with. */
  function TypeCode(field: Field): nat {
    match field
    case Pointer(_, _) => TYPE_POINTER
    case Map(_) => TYPE_MAP
    case Array(_) => TYPE_ARRAY
    case Plain(scalar) =>
      match scalar
      case Utf8(_) => TYPE_UTF8_STRING
      case Bytes(_) => TYPE_BYTES
      case Double(_) => TYPE_DOUBLE
      case Float(_) => TYPE_FLOAT
      case Uint16(_) => TYPE_UINT16
      case Uint32(_) => TYPE_UINT32
      case Uint64(_) => TYPE_UINT64
      case Uint128(_) => TYPE_UINT128
      case Int32(_) => TYPE_INT32
      case Boolean(_) => TYPE_BOOLEAN
      case Other(typ) => typ
  }

  /** A number may be written in any number of bytes up to its width that holds
      it: leading zero bytes can be dropped. */
  predicate NumberFits(number: nat, size: nat, width: nat) {
    size <= width && number < Power256(size)
  }

  /** Two's complement. */
  function Unsigned32(v: int): nat
    requires -0x8000_0000 <= v < 0x8000_0000
  {
    if v < 0 then v + UINT32_LIMIT else v
  }

  /** A field can be written with this payload size. `filler` is the payload of
      a type of `Other`, which stands for nothing. */
  predicate Writable(field: Field, size: nat, filler: seq<byte>) {
    match field
    case Pointer(_, _) => false
    case Map(count) => size == count
    case Array(count) => size == count
    case Plain(scalar) =>
      match scalar
      case Utf8(text) => size == |text|
      case Bytes(data) => size == |data|
      case Double(bits) => size == 8 && bits < Power256(8)
      case Float(bits) => size == 4 && bits < Power256(4)
      case Uint16(number) => NumberFits(number, size, 2)
      case Uint32(number) => NumberFits(number, size, 4)
      case Uint64(number) => NumberFits(number, size, 8)
      case Uint128(number) => NumberFits(number, size, 16)
      case Int32(signed) => -0x8000_0000 <= signed < 0x8000_0000 && NumberFits(Unsigned32(signed), size, 4)
      case Boolean(flag) => flag == (size != 0)
      case Other(typ) => (typ == 12 || typ == 13 || typ > 15) && size == |filler|
  }

  /** The bytes after the head. The size of a container counts its children, and
      that of a boolean is its value: neither has a payload. */
  function Payload(field: Field, size: nat, filler: seq<byte>): seq<byte>
    requires Writable(field, size, filler)
  {
    match field
    case Map(_) => []
    case Array(_) => []
    case Plain(scalar) =>
      match scalar
      case Utf8(text) => text
      case Bytes(data) => data
      case Double(bits) => ToBytes(bits, size)
      case Float(bits) => ToBytes(bits, size)
      case Uint16(number) => ToBytes(number, size)
      case Uint32(number) => ToBytes(number, size)
      case Uint64(number) => ToBytes(number, size)
      case Uint128(number) => ToBytes(number, size)
      case Int32(signed) => ToBytes(Unsigned32(signed), size)
      case Boolean(_) => []
      case Other(_) => filler
  }

  /** How one field can be written. `spare` holds the three control bits that a
      four-byte pointer does not use. */
  datatype Code =
    | PointerCode(target: nat, width: nat, spare: nat)
    | DataCode(data: Field, extended: bool, size: nat, filler: seq<byte>)

  predicate LegalPointer(target: nat, width: nat, spare: nat) {
    match width
    case 1 => target < 2048 && spare == 0
    case 2 => 2048 <= target < 526336 && spare == 0
    case 3 => 526336 <= target < 134744064 && spare == 0
    case 4 => target < UINT32_LIMIT && spare < 8
    case _ => false
  }

  predicate LegalHead(typ: nat, extended: bool, size: nat) {
    (if extended then 7 <= typ < 263 else 2 <= typ <= 7) && size < SIZE_LIMIT
  }

  predicate Legal(code: Code) {
    match code
    case PointerCode(target, width, spare) =>
      LegalPointer(target, width, spare)
    case DataCode(data, extended, size, filler) =>
      LegalHead(TypeCode(data), extended, size) && Writable(data, size, filler)
  }

  function Meaning(code: Code): Field {
    match code
    case PointerCode(target, width, _) => Pointer(target, width)
    case DataCode(data, _, _, _) => data
  }

  function EncodePointer(target: nat, width: nat, spare: nat): (bs: seq<byte>)
    requires LegalPointer(target, width, spare)
    ensures |bs| == 1 + width
  {
    match width
    case 1 => [32 + target / 256, target % 256]
    case 2 => [32 + 8 + (target - 2048) / 65536] + Be2((target - 2048) % 65536)
    case 3 => [32 + 16 + (target - 526336) / 16777216] + Be3((target - 526336) % 16777216)
    case 4 => [32 + 24 + spare] + Be4(target)
  }

  function EncodeHead(typ: nat, extended: bool, size: nat): seq<byte>
    requires LegalHead(typ, extended, size)
  {
    (if extended then [SizeTag(size), typ - 7] else [32 * typ + SizeTag(size)]) + SizeBytes(size)
  }

  function Encode(code: Code): seq<byte>
    requires Legal(code)
  {
    match code
    case PointerCode(target, width, spare) => EncodePointer(target, width, spare)
    case DataCode(data, extended, size, filler) =>
      EncodeHead(TypeCode(data), extended, size) + Payload(data, size, filler)
  }

  predicate Holds(section: seq<byte>, at: nat, bs: seq<byte>) {
    at + |bs| <= |section| && section[at..at + |bs|] == bs
  }

  ghost predicate Written(section: seq<byte>, at: nat, code: Code, field: Field, end: nat) {
    && Legal(code)
    && Meaning(code) == field
    && Holds(section, at, Encode(code))
    && end == at + |Encode(code)|
  }

  /** The bytes section[at..end] are one of the encodings of `field`. */
  ghost predicate FieldAt(section: seq<byte>, at: nat, field: Field, end: nat) {
    exists code :: Written(section, at, code, field, end)
  }
}
