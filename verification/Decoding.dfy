/** decode_one and decode_one_follow: reading one field of the data section.
    `Decode` says what is read; the methods of `EntryData` compute it the way
    the C code does, in place and in uint32_t arithmetic. */
module Decoding {
  import opened Base
  import opened Wire

  /** A decoded field, where it starts, and where the next field starts. */
  datatype Decoded = Decoded(field: Field, offset: nat, next: nat)

  // ---- the fixed-width readers ----

  function GetUint16(p: seq<byte>): uint32
    requires |p| >= 2
  {
    p[0] as nat * 256 + p[1]
  }

  function GetUint24(p: seq<byte>): uint32
    requires |p| >= 3
  {
    p[0] as nat * 65536 + p[1] as nat * 256 + p[2]
  }

  function GetUint32(p: seq<byte>): uint32
    requires |p| >= 4
  {
    p[0] as nat * 16777216 + p[1] as nat * 65536 + p[2] as nat * 256 + p[3]
  }

  function GetPtrFrom(ctrl: byte, p: seq<byte>, size: nat): uint32
    requires 1 <= size <= 4 && |p| >= size
  {
    match size
    case 1 => ctrl as nat % 8 * 256 + p[0]
    case 2 => 2048 + ctrl as nat % 8 * 65536 + p[0] as nat * 256 + p[1]
    case 3 => 2048 + 524288 + ctrl as nat % 8 * 16777216 + GetUint24(p)
    case _ => GetUint32(p)
  }

  // ---- what decode_one computes ----

  datatype Head = Head(typ: nat, pos: nat)

  /** The type number, and the position after the byte or bytes giving it. */
  function HeadAt(section: seq<byte>, at: nat): Option<Head>
    requires at < |section|
  {
    var typ := section[at] / 32;
    if typ != TYPE_EXTENDED then Some(Head(typ, at + 1))
    else if at + 1 < |section| then Some(Head(7 + section[at + 1] as nat, at + 2))
    else None
  }

  datatype Sized = Sized(size: nat, pos: nat)

  /** The payload size, and the position after the bytes giving it. */
  function SizeAt(section: seq<byte>, ctrl: byte, pos: nat): Option<Sized>
    requires pos <= |section|
  {
    match ctrl % 32
    case 29 =>
      if pos + 1 > |section| then None else Some(Sized(29 + section[pos] as nat, pos + 1))
    case 30 =>
      if pos + 2 > |section| then None else Some(Sized(285 + GetUint16(section[pos..pos + 2]), pos + 2))
    case 31 =>
      if pos + 3 > |section| then None else Some(Sized(65821 + GetUint24(section[pos..pos + 3]), pos + 3))
    case small => Some(Sized(small, pos))
  }

  /** Containers and booleans use the size for something other than a payload. */
  function PayloadSize(typ: nat, size: nat): nat {
    if typ == TYPE_MAP || typ == TYPE_ARRAY || typ == TYPE_BOOLEAN then 0 else size
  }

  function TwosComplement32(v: nat): int {
    if v < 0x8000_0000 then v else v - UINT32_LIMIT
  }

  /** What the chain of type tests makes of a payload, or nothing when the size is
      not allowed. */
  function FieldOf(typ: nat, size: nat, payload: seq<byte>): Option<Field> {
    var number := BigEndian(payload);
    if typ == TYPE_MAP then Some(Map(size))
    else if typ == TYPE_ARRAY then Some(Array(size))
    else if typ == TYPE_BOOLEAN then Some(Plain(Boolean(size != 0)))
    else if typ == TYPE_UINT16 then if size <= 2 then Some(Plain(Uint16(number))) else None
    else if typ == TYPE_UINT32 then if size <= 4 then Some(Plain(Uint32(number))) else None
    else if typ == TYPE_INT32 then if size <= 4 then Some(Plain(Int32(TwosComplement32(number)))) else None
    else if typ == TYPE_UINT64 then if size <= 8 then Some(Plain(Uint64(number))) else None
    else if typ == TYPE_UINT128 then if size <= 16 then Some(Plain(Uint128(number))) else None
    else if typ == TYPE_FLOAT then if size == 4 then Some(Plain(Float(number))) else None
    else if typ == TYPE_DOUBLE then if size == 8 then Some(Plain(Double(number))) else None
    else if typ == TYPE_UTF8_STRING then Some(Plain(Utf8(payload)))
    else if typ == TYPE_BYTES then Some(Plain(Bytes(payload)))
    else Some(Plain(Other(typ)))
  }

  /** What decode_one reads at `at`, or nothing where it reports
      MMDB_INVALID_DATA_ERROR. */
  function Decode(section: seq<byte>, at: nat): (r: Option<Decoded>)
    ensures r.Some? ==> r.value.offset == at < r.value.next <= |section|
    ensures r.Some? && r.value.field.Pointer? ==> r.value.field.target < UINT32_LIMIT
  {
    if at >= |section| then None else
    match HeadAt(section, at)
    case None => None
    case Some(Head(typ, pos)) =>
      if typ == TYPE_POINTER then DecodePointer(section, at, pos) else DecodeSized(section, at, typ, pos)
  }

  /** The part of `Decode` after the type of a pointer. */
  function DecodePointer(section: seq<byte>, at: nat, pos: nat): (r: Option<Decoded>)
    requires at < pos <= |section|
    ensures r.Some? ==> r.value.offset == at < r.value.next <= |section|
  {
    var width := section[at] / 8 % 4 + 1;
    if pos + width > |section| then None
    else Some(Decoded(Pointer(GetPtrFrom(section[at], section[pos..pos + width], width), width), at, pos + width))
  }

  /** The part of `Decode` after the type of a field that is not a pointer. */
  function DecodeSized(section: seq<byte>, at: nat, typ: nat, pos: nat): (r: Option<Decoded>)
    requires at < pos <= |section|
    ensures r.Some? ==> r.value.offset == at < r.value.next <= |section|
  {
    match SizeAt(section, section[at], pos)
    case None => None
    case Some(Sized(size, start)) =>
      var end := start + PayloadSize(typ, size);
      if end > |section| then None
      else
        match FieldOf(typ, size, section[start..end])
        case None => None
        case Some(field) => Some(Decoded(field, at, end))
  }

  /** What decode_one_follow reads: pointers are followed once. The next offset
      is the one after the pointer for a scalar target, but the one after the
      target's head for a container. */
  function Follow(section: seq<byte>, at: nat): (r: Option<Decoded>)
    ensures r.Some? ==> !r.value.field.Pointer? && r.value.next <= |section|
  {
    match Decode(section, at)
    case None => None
    case Some(d) =>
      if !d.field.Pointer? then Some(d) else
      match Decode(section, d.field.target)
      case None => None
      case Some(target) =>
        if target.field.Pointer? then None
        else if target.field.IsContainer() then Some(target)
        else Some(target.(next := d.next))
  }

  /** A pointer is followed exactly once: a pointer to a pointer is an error, like a
      field that cannot be read, at either end. */
  lemma FollowFailsIff(section: seq<byte>, at: nat)
    ensures Follow(section, at).None?
       <==> match Decode(section, at)
            case None => true
            case Some(d) =>
              d.field.Pointer? &&
              match Decode(section, d.field.target)
              case None => true
              case Some(target) => target.field.Pointer?
  {
  }

  // ---- the struct that decode_one fills in ----

  /** The anonymous union in MMDB_entry_data_s. */
  datatype Slot = Unset | PointerSlot(target: nat) | ScalarSlot(scalar: Scalar)

  /** What decode_one stores as data_size, for the fields where it does. */
  function SizeField(field: Field): Option<nat> {
    match field
    case Pointer(_, width) => Some(width)
    case Map(count) => Some(count)
    case Array(count) => Some(count)
    case Plain(Utf8(text)) => Some(|text|)
    case Plain(Bytes(data)) => Some(|data|)
    case Plain(Boolean(_)) => Some(0)
    case Plain(_) => None
  }

  /** What decode_one stores in the union, for the fields where it does. */
  function SlotField(field: Field): Option<Slot> {
    match field
    case Pointer(target, _) => Some(PointerSlot(target))
    case Map(_) => None
    case Array(_) => None
    case Plain(Other(_)) => None
    case Plain(scalar) => Some(ScalarSlot(scalar))
  }

  /** How many bytes after the head give the payload size. */
  function SizeBytesNeeded(ctrl: byte): nat {
    if ctrl % 32 < 29 then 0 else ctrl % 32 - 28
  }

  /** The bound checks of the size switch, in uint32_t arithmetic. */
  predicate SizeCheckPasses(sectionSize: uint32, ctrl: byte, pos: uint32) {
    match ctrl % 32
    case 29 => pos <= Sub32(sectionSize, 1)
    case 30 => pos <= Sub32(sectionSize, 2)
    case 31 => pos <= Sub32(sectionSize, 3)
    case _ => true
  }

  /** A subtractive bound check says whether `count` more bytes can be read
      exactly when the section has at least `count` bytes at all; a shorter one
      it lets through. */
  lemma SubtractiveCheckIsExact(sectionSize: uint32, pos: uint32, count: uint32)
    requires pos <= sectionSize && 0 < count <= 4
    ensures (pos > Sub32(sectionSize, count) <==> pos + count > sectionSize) <==> count <= sectionSize
    ensures count > sectionSize ==> pos <= Sub32(sectionSize, count)
  {
  }

  /** Those checks let decode_one through exactly where the size bytes are inside
      the section, unless the section is shorter than the number of size bytes.
      Then they always let it through, although the bytes are not there. */
  lemma SizeCheckIsExact(section: seq<byte>, ctrl: byte, pos: nat)
    requires 0 < |section| < UINT32_LIMIT && pos <= |section|
    ensures (SizeCheckPasses(|section|, ctrl, pos) <==> SizeAt(section, ctrl, pos).Some?)
       <==> SizeBytesNeeded(ctrl) <= |section|
    ensures SizeBytesNeeded(ctrl) > |section| ==> SizeCheckPasses(|section|, ctrl, pos)
  {
    if SizeBytesNeeded(ctrl) > 0 {
      SubtractiveCheckIsExact(|section|, pos, SizeBytesNeeded(ctrl));
    }
  }

  /** decode_one at `at` reads size bytes past the end of the section. */
  predicate OverReads(section: seq<byte>, at: nat) {
    && at < |section|
    && HeadAt(section, at).Some? && HeadAt(section, at).value.typ != TYPE_POINTER
    && SizeBytesNeeded(section[at]) > |section|
  }

  /** decode_one reads past the end exactly where a size check passes and the size
      bytes do not fit. */
  lemma OverReadsIffCheckIsWrong(section: seq<byte>, at: nat)
    requires at < |section| < UINT32_LIMIT && HeadAt(section, at).Some?
    requires HeadAt(section, at).value.typ != TYPE_POINTER
    ensures OverReads(section, at)
       <==> && SizeCheckPasses(|section|, section[at], HeadAt(section, at).value.pos)
            && HeadAt(section, at).value.pos + SizeBytesNeeded(section[at]) > |section|
  {
    SizeCheckIsExact(section, section[at], HeadAt(section, at).value.pos);
  }

  /** The sections that decode_one's bound checks protect: no field makes it read
      past the end. */
  ghost predicate Readable(section: seq<byte>) {
    |section| < UINT32_LIMIT && forall at: nat :: !OverReads(section, at)
  }

  /** A section that MMDB_open accepts as data is protected whatever it holds. */
  lemma LongSectionsAreReadable(section: seq<byte>)
    requires (|section| == 0 || |section| >= 3) && |section| < UINT32_LIMIT
    ensures Readable(section)
  {
  }

  /** Metadata of one byte is not, when that byte starts anything but a pointer or
      an extended type and announces two or three size bytes. */
  lemma OneByteSection(ctrl: byte)
    ensures Readable([ctrl]) <==> ctrl / 32 in {TYPE_EXTENDED, TYPE_POINTER} || ctrl % 32 < 30
  {
    assert OverReads([ctrl], 0) <==> !(ctrl / 32 in {TYPE_EXTENDED, TYPE_POINTER} || ctrl % 32 < 30);
  }

  /** The byte 255 starts a map whose size is in three more bytes. */
  lemma MetadataOverRead()
    ensures OverReads([255], 0) && HeadAt([255], 0) == Some(Head(TYPE_MAP, 1))
    ensures SizeCheckPasses(1, 255, 1) && 1 + SizeBytesNeeded(255) == 4
  {
    OneByteSection(255);
  }

  /** The switch in decode_one that reads the payload size, with its subtractive
      bound checks. */
  method ReadSize(mem: seq<byte>, ctrl: byte, at: uint32) returns (r: Option<Sized>)
    requires 0 < |mem| < UINT32_LIMIT && at <= |mem| && SizeBytesNeeded(ctrl) <= |mem|
    ensures r == SizeAt(mem, ctrl, at)
    ensures r.Some? ==> r.value.size < SIZE_LIMIT && r.value.pos <= |mem|
  {
    var sectionSize: uint32 := |mem|;
    var size: uint32 := ctrl % 32;
    var pos := at;
    match size {
      case 29 =>
        if pos > Sub32(sectionSize, 1) {
          return None;
        }
        size := 29 + mem[pos] as nat;
        pos := pos + 1;
      case 30 =>
        if pos > Sub32(sectionSize, 2) {
          return None;
        }
        size := 285 + GetUint16(mem[pos..pos + 2]);
        pos := pos + 2;
      case 31 =>
        if pos > Sub32(sectionSize, 3) {
          return None;
        }
        size := 65821 + GetUint24(mem[pos..pos + 3]);
        pos := pos + 3;
      case _ =>
    }
    return Some(Sized(size, pos));
  }

  /** MMDB_entry_data_s. A string or byte value is kept as the bytes that the C
      pointer and data_size delimit. */
  class EntryData {
    var hasData: bool
    var value: Slot
    var offset: uint32
    var offsetToNext: uint32
    var dataSize: uint32
    var typ: uint32

    /** The meaningful members are those of `d`. */
    ghost predicate Shows(d: Decoded)
      reads this
    {
      && hasData
      && typ == TypeCode(d.field)
      && offset == d.offset
      && offsetToNext == d.next
      && (SizeField(d.field).Some? ==> dataSize == SizeField(d.field).value)
      && (SlotField(d.field).Some? ==> value == SlotField(d.field).value)
    }

    /** As `Shows`, and the members that `d` does not define are the given ones. */
    ghost predicate Filled(d: Decoded, staleSize: nat, staleValue: Slot)
      reads this
    {
      && Shows(d)
      && (SizeField(d.field).None? ==> dataSize == staleSize)
      && (SlotField(d.field).None? ==> value == staleValue)
    }

    ghost predicate IsZero()
      reads this
    {
      !hasData && value == Unset && offset == 0 && offsetToNext == 0 && dataSize == 0 && typ == 0
    }

    constructor ()
      ensures IsZero()
    {
      hasData, value, offset, offsetToNext, dataSize, typ := false, Unset, 0, 0, 0, 0;
    }

    /** memset(entry_data, 0, sizeof(MMDB_entry_data_s)) */
    method Clear()
      modifies this
      ensures IsZero()
    {
      hasData, value, offset, offsetToNext, dataSize, typ := false, Unset, 0, 0, 0, 0;
    }

    /** memcpy(entry_data, &source, sizeof(MMDB_entry_data_s)) */
    method CopyFrom(source: EntryData)
      modifies this
      ensures hasData == old(source.hasData) && value == old(source.value) && offset == old(source.offset)
      ensures offsetToNext == old(source.offsetToNext) && dataSize == old(source.dataSize) && typ == old(source.typ)
    {
      hasData, value, offset := source.hasData, source.value, source.offset;
      offsetToNext, dataSize, typ := source.offsetToNext, source.dataSize, source.typ;
    }

    /** decode_one. Numeric fields leave dataSize as it was, and undefined types
        leave the union as it was. */
    method DecodeOne(mem: seq<byte>, at: uint32) returns (status: Status)
      requires |mem| < UINT32_LIMIT && !OverReads(mem, at)
      modifies this
      ensures status == if Decode(mem, at).Some? then Success else InvalidData
      ensures Decode(mem, at).Some? ==> Filled(Decode(mem, at).value, old(dataSize), old(value))
    {
      hide DecodeSized, DecodePointer;
      var sectionSize: uint32 := |mem|;
      if sectionSize == 0 {
        return InvalidData;
      }
      if at > Sub32(sectionSize, 1) {
        return InvalidData;
      }
      offset, hasData := at, true;
      var pos: uint32 := at;
      var ctrl := mem[pos];
      pos := pos + 1;
      var kind: uint32 := ctrl / 32 % 8;
      if kind == TYPE_EXTENDED {
        if pos > Sub32(sectionSize, 1) {
          return InvalidData;
        }
        kind := 7 + mem[pos] as nat;
        pos := pos + 1;
      }
      typ := kind;
      assert HeadAt(mem, at) == Some(Head(kind, pos));

      if kind == TYPE_POINTER {
        status := DecodePointerField(mem, at, pos);
        return status;
      }
      status := DecodeSizedField(mem, at, kind, pos);
    }

    /** decode_one_follow */
    method DecodeOneFollow(mem: seq<byte>, at: uint32) returns (status: Status)
      requires |mem| < UINT32_LIMIT && !OverReads(mem, at)
      requires Decode(mem, at).Some? && Decode(mem, at).value.field.Pointer? ==>
                 !OverReads(mem, Decode(mem, at).value.field.target)
      modifies this
      ensures status == if Follow(mem, at).Some? then Success else InvalidData
      ensures Follow(mem, at).Some? ==> Shows(Follow(mem, at).value)
    {
      hide Decode;
      status := DecodeOne(mem, at);
      if status != Success {
        return status;
      }
      DecodedTypeIsExact(mem, at);
      if typ == TYPE_POINTER {
        var next := offsetToNext;
        var target := value.target;
        status := DecodeOne(mem, target);
        if status != Success {
          return status;
        }
        DecodedTypeIsExact(mem, target);
        if typ == TYPE_POINTER {
          return InvalidData;
        }
        if typ != TYPE_MAP && typ != TYPE_ARRAY {
          offsetToNext := next;
        }
      }
      return Success;
    }

    /** decode_one from the target of a pointer on. */
    method DecodePointerField(mem: seq<byte>, at: uint32, pos: uint32) returns (status: Status)
      requires at < pos <= |mem| < UINT32_LIMIT
      requires hasData && offset == at && typ == TYPE_POINTER
      modifies this`value, this`dataSize, this`offsetToNext
      ensures status == if DecodePointer(mem, at, pos).Some? then Success else InvalidData
      ensures DecodePointer(mem, at, pos).Some? ==> Filled(DecodePointer(mem, at, pos).value, old(dataSize), old(value))
    {
      var sectionSize: uint32 := |mem|;
      var psize: uint32 := mem[at] / 8 % 4 + 1;
      if pos > Sub32(sectionSize, psize) || sectionSize < psize {
        return InvalidData;
      }
      value := PointerSlot(GetPtrFrom(mem[at], mem[pos..pos + psize], psize));
      dataSize := psize;
      offsetToNext := pos + psize;
      return Success;
    }

    /** decode_one from the payload size on. */
    method DecodeSizedField(mem: seq<byte>, at: uint32, kind: uint32, start: uint32) returns (status: Status)
      requires at < start <= |mem| < UINT32_LIMIT && SizeBytesNeeded(mem[at]) <= |mem|
      requires kind !in {TYPE_EXTENDED, TYPE_POINTER}
      requires hasData && offset == at && typ == kind
      modifies this`value, this`dataSize, this`offsetToNext
      ensures status == if DecodeSized(mem, at, kind, start).Some? then Success else InvalidData
      ensures DecodeSized(mem, at, kind, start).Some? ==>
                Filled(DecodeSized(mem, at, kind, start).value, old(dataSize), old(value))
    {
      hide SizeAt, BigEndian;
      var sectionSize: uint32 := |mem|;
      var sized := ReadSize(mem, mem[at], start);
      if sized.None? {
        return InvalidData;
      }
      var size: uint32 := sized.value.size;
      var pos: uint32 := sized.value.pos;
      if kind == TYPE_MAP || kind == TYPE_ARRAY {
        dataSize := size;
        offsetToNext := pos;
        return Success;
      }
      if kind == TYPE_BOOLEAN {
        value := ScalarSlot(Boolean(size != 0));
        dataSize := 0;
        offsetToNext := pos;
        return Success;
      }
      if pos > Sub32(sectionSize, size) || sectionSize < size {
        return InvalidData;
      }
      status := DecodePayload(kind, size, mem[pos..pos + size]);
      if status != Success {
        return status;
      }
      offsetToNext := pos + size;
    }

    /** The chain of type tests in decode_one that stores the payload. */
    method DecodePayload(kind: uint32, size: uint32, payload: seq<byte>) returns (status: Status)
      requires kind !in {TYPE_EXTENDED, TYPE_POINTER, TYPE_MAP, TYPE_ARRAY, TYPE_BOOLEAN}
      requires |payload| == size
      modifies this`value, this`dataSize
      ensures status == if FieldOf(kind, size, payload).Some? then Success else InvalidData
      ensures FieldOf(kind, size, payload).Some? ==>
                var field := FieldOf(kind, size, payload).value;
                && TypeCode(field) == kind
                && dataSize == (if SizeField(field).Some? then SizeField(field).value else old(dataSize))
                && value == (if SlotField(field).Some? then SlotField(field).value else old(value))
    {
      hide BigEndian, TwosComplement32;
      if kind == TYPE_UINT16 {
        if size > 2 {
          return InvalidData;
        }
        var number := GetUintX(payload);
        BigEndianBound(payload);
        value := ScalarSlot(Uint16(number % 0x1_0000));
      } else if kind == TYPE_UINT32 {
        if size > 4 {
          return InvalidData;
        }
        var number := GetUintX(payload);
        BigEndianBound(payload);
        value := ScalarSlot(Uint32(number % UINT32_LIMIT));
      } else if kind == TYPE_INT32 {
        if size > 4 {
          return InvalidData;
        }
        var number := GetUintX(payload);
        BigEndianBound(payload);
        value := ScalarSlot(Int32(TwosComplement32(number % UINT32_LIMIT)));
      } else if kind == TYPE_UINT64 {
        if size > 8 {
          return InvalidData;
        }
        var number := GetUintX(payload);
        value := ScalarSlot(Uint64(number));
      } else if kind == TYPE_UINT128 {
        if size > 16 {
          return InvalidData;
        }
        var number := GetUint128(payload);
        value := ScalarSlot(Uint128(number));
      } else if kind == TYPE_FLOAT {
        if size != 4 {
          return InvalidData;
        }
        var number := GetUintX(payload);
        value := ScalarSlot(Float(number));
      } else if kind == TYPE_DOUBLE {
        if size != 8 {
          return InvalidData;
        }
        var number := GetUintX(payload);
        value := ScalarSlot(Double(number));
      } else if kind == TYPE_UTF8_STRING {
        value := ScalarSlot(Utf8(payload));
        dataSize := size;
      } else if kind == TYPE_BYTES {
        value := ScalarSlot(Bytes(payload));
        dataSize := size;
      }
      return Success;
    }
  }

  /** What a caller finds in the struct: the number of the type, the length of a
      string or of bytes, the number of children of a container, and the value. */
  lemma StructShows(e: EntryData, d: Decoded)
    requires e.Shows(d)
    ensures e.hasData && e.offset == d.offset && e.offsetToNext == d.next
    ensures match d.field
            case Pointer(target, width) => e.typ == 1 && e.dataSize == width && e.value == PointerSlot(target)
            case Map(count) => e.typ == 7 && e.dataSize == count
            case Array(count) => e.typ == 11 && e.dataSize == count
            case Plain(scalar) =>
              && (!scalar.Other? ==> e.value == ScalarSlot(scalar))
              && match scalar
                 case Utf8(text) => e.typ == 2 && e.dataSize == |text|
                 case Double(_) => e.typ == 3
                 case Bytes(data) => e.typ == 4 && e.dataSize == |data|
                 case Uint16(_) => e.typ == 5
                 case Uint32(_) => e.typ == 6
                 case Int32(_) => e.typ == 8
                 case Uint64(_) => e.typ == 9
                 case Uint128(_) => e.typ == 10
                 case Boolean(_) => e.typ == 14 && e.dataSize == 0
                 case Float(_) => e.typ == 15
                 case Other(typ) => e.typ == typ
  {
  }

  /** get_uintX: the loop shifts a uint64_t, which loses nothing while at most
      eight bytes are read. */
  method GetUintX(p: seq<byte>) returns (value: uint64)
    requires |p| <= 8
    ensures value == BigEndian(p)
  {
    value := 0;
    Power256Values();
    for i := 0 to |p|
      invariant value == BigEndian(p[..i])
    {
      BigEndianBound(p[..i]);
      assert Power256(i) <= Power256(7) by { Power256Monotone(i, 7); }
      value := value * 256 % UINT64_LIMIT;
      assert p[..i + 1][..i] == p[..i];
      value := value + p[i];
    }
    assert p[..|p|] == p;
  }

  /** get_uint128, in the same way. */
  method GetUint128(p: seq<byte>) returns (value: nat)
    requires |p| <= 16
    ensures value == BigEndian(p) && value < UINT128_LIMIT
  {
    value := 0;
    Power256Values();
    for i := 0 to |p|
      invariant value == BigEndian(p[..i])
    {
      BigEndianBound(p[..i]);
      assert Power256(i) <= Power256(15) by { Power256Monotone(i, 15); }
      value := value * 256 % UINT128_LIMIT;
      assert p[..i + 1][..i] == p[..i];
      value := value + p[i];
    }
    assert p[..|p|] == p;
    BigEndianBound(p);
    Power256Monotone(|p|, 16);
  }

  /** The field is one that decode_one can produce: the type number of an
      undefined field is not that of a defined one. */
  predicate IsExact(field: Field) {
    field.Plain? && field.scalar.Other? ==>
      field.scalar.typ !in {TYPE_POINTER, TYPE_UTF8_STRING, TYPE_DOUBLE, TYPE_BYTES, TYPE_UINT16, TYPE_UINT32, TYPE_MAP,
                            TYPE_INT32, TYPE_UINT64, TYPE_UINT128, TYPE_ARRAY, TYPE_BOOLEAN, TYPE_FLOAT}
  }

  lemma DecodedFieldIsExact(section: seq<byte>, at: nat)
    requires Decode(section, at).Some?
    ensures IsExact(Decode(section, at).value.field)
  {
  }

  /** The type number of such a field is that of its kind. */
  lemma ExactType(field: Field)
    requires IsExact(field)
    ensures TypeCode(field) == TYPE_MAP <==> field.Map?
    ensures TypeCode(field) == TYPE_ARRAY <==> field.Array?
    ensures TypeCode(field) == TYPE_UTF8_STRING <==> field.Plain? && field.scalar.Utf8?
    ensures TypeCode(field) == TYPE_UINT16 <==> field.Plain? && field.scalar.Uint16?
    ensures TypeCode(field) == TYPE_UINT32 <==> field.Plain? && field.scalar.Uint32?
    ensures TypeCode(field) == TYPE_UINT64 <==> field.Plain? && field.scalar.Uint64?
  {
  }

  /** The type number of a decoded field is that of its kind: an undefined type
      never has the number of a defined one. */
  lemma DecodedTypeIsExact(section: seq<byte>, at: nat)
    requires Decode(section, at).Some?
    ensures var field := Decode(section, at).value.field;
            && (TypeCode(field) == TYPE_POINTER <==> field.Pointer?)
            && (TypeCode(field) == TYPE_MAP <==> field.Map?)
            && (TypeCode(field) == TYPE_ARRAY <==> field.Array?)
            && (TypeCode(field) == TYPE_UTF8_STRING <==> field.Plain? && field.scalar.Utf8?)
  {
  }
}
