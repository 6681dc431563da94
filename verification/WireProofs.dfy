/** The decoder reads exactly what the encoder writes: `Decode` succeeds where
    some legal encoding of a field is stored, with that field and its end. */
module WireProofs {
  import opened Base
  import opened Wire
  import opened Decoding

  // ---- the fixed-width and pointer codecs ----

  lemma Codec16(v: nat, bs: seq<byte>)
    requires v < 0x1_0000 && |bs| == 2
    ensures bs == Be2(v) <==> GetUint16(bs) == v
  {
  }

  lemma Codec24(v: nat, bs: seq<byte>)
    requires v < 0x100_0000 && |bs| == 3
    ensures bs == Be3(v) <==> GetUint24(bs) == v
  {
    Codec16(v / 256, bs[..2]);
    assert v / 65536 == v / 256 / 256;
    assert Be3(v) == Be2(v / 256) + [v % 256];
    assert GetUint24(bs) == GetUint16(bs[..2]) * 256 + bs[2];
    assert bs == bs[..2] + [bs[2]];
  }

  lemma Codec32(v: nat, bs: seq<byte>)
    requires v < UINT32_LIMIT && |bs| == 4
    ensures bs == Be4(v) <==> GetUint32(bs) == v
  {
    Codec24(v / 256, bs[..3]);
    assert v / 65536 == v / 256 / 256 && v / 16777216 == v / 256 / 65536;
    assert Be4(v) == Be3(v / 256) + [v % 256];
    assert GetUint32(bs) == GetUint24(bs[..3]) * 256 + bs[3];
    assert bs == bs[..3] + [bs[3]];
  }

  lemma TwoBytePointer(high: nat, low: nat)
    requires high < 8 && low < 0x1_0000
    ensures GetPtrFrom(40 + high, Be2(low), 2) == 2048 + high * 65536 + low
  {
    Codec16(low, Be2(low));
  }

  lemma ThreeBytePointer(high: nat, low: nat)
    requires high < 8 && low < 0x100_0000
    ensures GetPtrFrom(48 + high, Be3(low), 3) == 526336 + high * 16777216 + low
  {
    Codec24(low, Be3(low));
  }

  /** get_ptr_from undoes every pointer encoding. */
  lemma DecodeOfEncodePointer(target: nat, width: nat, spare: nat)
    requires LegalPointer(target, width, spare)
    ensures var bs := EncodePointer(target, width, spare);
            bs[0] / 32 == TYPE_POINTER && bs[0] / 8 % 4 + 1 == width && GetPtrFrom(bs[0], bs[1..], width) == target
  {
    hide Be2, Be3, Be4, GetUint32;
    var bs := EncodePointer(target, width, spare);
    match width
    case 1 =>
    case 2 =>
      var high, low := (target - 2048) / 65536, (target - 2048) % 65536;
      TwoBytePointer(high, low);
      assert bs[1..] == Be2(low);
    case 3 =>
      var high, low := (target - 526336) / 16777216, (target - 526336) % 16777216;
      ThreeBytePointer(high, low);
      assert bs[1..] == Be3(low);
    case 4 =>
      Codec32(target, Be4(target));
      assert bs[1..] == Be4(target);
  }

  /** Every pointer that get_ptr_from reads is legal and is the encoding of its
      target: the widths tile the targets, and no bits are lost but the three
      spare ones. */
  lemma EncodeOfDecodePointer(ctrl: byte, p: seq<byte>, width: nat) returns (spare: nat)
    requires ctrl / 32 == TYPE_POINTER && width == ctrl / 8 % 4 + 1 && |p| == width
    ensures spare == (if width == 4 then ctrl % 8 else 0)
    ensures LegalPointer(GetPtrFrom(ctrl, p, width), width, spare)
    ensures EncodePointer(GetPtrFrom(ctrl, p, width), width, spare) == [ctrl] + p
  {
    spare := if width == 4 then ctrl % 8 else 0;
    var target := GetPtrFrom(ctrl, p, width);
    assert ctrl == 32 + 8 * (width - 1) + ctrl % 8;
    match width
    case 1 =>
    case 2 =>
      Codec16(GetUint16(p), p);
    case 3 =>
      Codec24(GetUint24(p), p);
    case 4 =>
      Codec32(target, p);
  }

  // ---- the payload codec ----

  lemma TwosComplementCodec(signed: int, number: nat)
    requires number < UINT32_LIMIT
    ensures TwosComplement32(number) == signed
       <==> -0x8000_0000 <= signed < 0x8000_0000 && Unsigned32(signed) == number
  {
  }

  lemma NumberWritten(payload: seq<byte>, size: nat, width: nat)
    requires |payload| == size <= width <= 16
    ensures NumberFits(BigEndian(payload), size, width) && ToBytes(BigEndian(payload), size) == payload
    ensures width == 4 ==> BigEndian(payload) < UINT32_LIMIT
  {
    BigEndianBound(payload);
    BytesOfBigEndian(payload);
    Power256Values();
    Power256Monotone(size, width);
  }

  lemma NumberRead(number: nat, size: nat, width: nat)
    requires NumberFits(number, size, width)
    ensures BigEndian(ToBytes(number, size)) == number
    ensures width == 4 ==> number < UINT32_LIMIT
  {
    BigEndianOfBytes(number, size);
    Power256Values();
    Power256Monotone(size, width);
  }

  /** A payload is read as the field it was written for. */
  lemma PayloadRead(data: Field, size: nat, filler: seq<byte>)
    requires Writable(data, size, filler)
    ensures var payload := Payload(data, size, filler);
            && |payload| == PayloadSize(TypeCode(data), size)
            && FieldOf(TypeCode(data), size, payload) == Some(data)
  {
    hide BigEndian, ToBytes, Power256, TwosComplement32, Unsigned32;
    match data
    case Map(_) =>
    case Array(_) =>
    case Plain(scalar) =>
      match scalar
      case Double(bits) => NumberRead(bits, size, 8);
      case Float(bits) => NumberRead(bits, size, 4);
      case Uint16(number) => NumberRead(number, size, 2);
      case Uint32(number) => NumberRead(number, size, 4);
      case Uint64(number) => NumberRead(number, size, 8);
      case Uint128(number) => NumberRead(number, size, 16);
      case Int32(signed) =>
        NumberRead(Unsigned32(signed), size, 4);
        TwosComplementCodec(signed, Unsigned32(signed));
      case _ =>
  }

  /** A payload that is read is the one that its field is written with. */
  lemma PayloadWritten(typ: nat, size: nat, payload: seq<byte>)
    requires typ >= 2 && |payload| == PayloadSize(typ, size) && FieldOf(typ, size, payload).Some?
    ensures var data := FieldOf(typ, size, payload).value;
            && TypeCode(data) == typ && Writable(data, size, payload) && Payload(data, size, payload) == payload
  {
    hide BigEndian, ToBytes, Power256, TwosComplement32, Unsigned32;
    if typ == TYPE_INT32 {
      NumberWritten(payload, size, 4);
      TwosComplementCodec(TwosComplement32(BigEndian(payload)), BigEndian(payload));
    } else if typ == TYPE_UINT16 {
      NumberWritten(payload, size, 2);
    } else if typ == TYPE_UINT32 || typ == TYPE_FLOAT {
      NumberWritten(payload, size, 4);
    } else if typ == TYPE_UINT64 || typ == TYPE_DOUBLE {
      NumberWritten(payload, size, 8);
    } else if typ == TYPE_UINT128 {
      NumberWritten(payload, size, 16);
    }
  }

  // ---- from a written code to what is decoded ----

  lemma HoldsAt(section: seq<byte>, at: nat, bs: seq<byte>, i: nat)
    requires Holds(section, at, bs) && i < |bs|
    ensures section[at + i] == bs[i]
  {
    assert section[at..at + |bs|][i] == bs[i];
  }

  lemma HoldsSplit(section: seq<byte>, at: nat, a: seq<byte>, b: seq<byte>)
    requires Holds(section, at, a + b)
    ensures Holds(section, at, a) && Holds(section, at + |a|, b)
  {
    var both := section[at..at + |a + b|];
    assert section[at..at + |a|] == both[..|a|];
    assert section[at + |a|..at + |a| + |b|] == both[|a|..];
  }

  lemma HoldsJoin(section: seq<byte>, at: nat, a: seq<byte>, b: seq<byte>)
    requires Holds(section, at, a) && Holds(section, at + |a|, b)
    ensures Holds(section, at, a + b)
  {
    assert section[at..at + |a + b|] == section[at..at + |a|] + section[at + |a|..at + |a| + |b|];
  }

  lemma PointerRead(section: seq<byte>, at: nat, target: nat, width: nat, spare: nat)
    requires LegalPointer(target, width, spare)
    requires Holds(section, at, EncodePointer(target, width, spare))
    ensures Decode(section, at) == Some(Decoded(Pointer(target, width), at, at + 1 + width))
  {
    var bs := EncodePointer(target, width, spare);
    DecodeOfEncodePointer(target, width, spare);
    HoldsAt(section, at, bs, 0);
    assert bs == bs[..1] + bs[1..];
    HoldsSplit(section, at, bs[..1], bs[1..]);
    assert HeadAt(section, at) == Some(Head(TYPE_POINTER, at + 1));
  }

  lemma SizeRead(section: seq<byte>, ctrl: byte, pos: nat, size: nat)
    requires size < SIZE_LIMIT && ctrl % 32 == SizeTag(size)
    requires pos <= |section| && Holds(section, pos, SizeBytes(size))
    ensures SizeAt(section, ctrl, pos) == Some(Sized(size, pos + |SizeBytes(size)|))
  {
    var bs := SizeBytes(size);
    assert section[pos..pos + |bs|] == bs;
    if 29 <= size < 285 {
      HoldsAt(section, pos, bs, 0);
    } else if 285 <= size < 65821 {
      Codec16(size - 285, bs);
    } else if 65821 <= size {
      Codec24(size - 65821, bs);
    }
  }

  lemma TypeRead(section: seq<byte>, at: nat, typ: nat, extended: bool, tag: nat)
    requires tag < 32
    requires if extended then 7 <= typ < 263 else 2 <= typ <= 7
    requires Holds(section, at, if extended then [tag, typ - 7] else [32 * typ + tag])
    ensures section[at] % 32 == tag
    ensures HeadAt(section, at) == Some(Head(typ, if extended then at + 2 else at + 1))
  {
    if extended {
      HoldsAt(section, at, [tag, typ - 7], 0);
      HoldsAt(section, at, [tag, typ - 7], 1);
    } else {
      HoldsAt(section, at, [32 * typ + tag], 0);
    }
  }

  lemma HeadRead(section: seq<byte>, at: nat, typ: nat, extended: bool, size: nat)
    requires LegalHead(typ, extended, size) && Holds(section, at, EncodeHead(typ, extended, size))
    ensures var start := at + |EncodeHead(typ, extended, size)|;
            var pos := start - |SizeBytes(size)|;
            HeadAt(section, at) == Some(Head(typ, pos)) && SizeAt(section, section[at], pos) == Some(Sized(size, start))
  {
    hide HeadAt, SizeAt, SizeTag, SizeBytes, Holds;
    var first: seq<byte> := if extended then [SizeTag(size), typ - 7] else [32 * typ + SizeTag(size)];
    HoldsSplit(section, at, first, SizeBytes(size));
    TypeRead(section, at, typ, extended, SizeTag(size));
    SizeRead(section, section[at], at + |first|, size);
  }

  lemma DataRead(section: seq<byte>, at: nat, data: Field, extended: bool, size: nat, filler: seq<byte>)
    requires Legal(DataCode(data, extended, size, filler))
    requires Holds(section, at, EncodeHead(TypeCode(data), extended, size) + Payload(data, size, filler))
    ensures Decode(section, at)
         == Some(Decoded(data, at, at + |EncodeHead(TypeCode(data), extended, size)| + |Payload(data, size, filler)|))
  {
    hide HeadAt, SizeAt, SizeBytes, SizeTag, FieldOf, DecodePointer, Payload, Writable;
    var typ, head, payload := TypeCode(data), EncodeHead(TypeCode(data), extended, size), Payload(data, size, filler);
    HoldsSplit(section, at, head, payload);
    HeadRead(section, at, typ, extended, size);
    PayloadRead(data, size, filler);
    var start := at + |head|;
    var pos := start - |SizeBytes(size)|;
    assert section[start..start + PayloadSize(typ, size)] == payload;
    assert DecodeSized(section, at, typ, pos) == Some(Decoded(data, at, start + |payload|));
  }

  // ---- from what is decoded to a code that is written there ----

  lemma PointerWritten(section: seq<byte>, at: nat, pos: nat) returns (code: Code)
    requires at < |section| && HeadAt(section, at) == Some(Head(TYPE_POINTER, pos))
    requires DecodePointer(section, at, pos).Some?
    ensures var d := DecodePointer(section, at, pos).value;
            Written(section, at, code, d.field, d.next)
  {
    hide GetPtrFrom, LegalPointer, EncodePointer;
    var Decoded(Pointer(target, width), _, next) := DecodePointer(section, at, pos).value;
    var p := section[pos..pos + width];
    var spare := EncodeOfDecodePointer(section[at], p, width);
    code := PointerCode(target, width, spare);
    assert section[at..next] == [section[at]] + p;
  }

  lemma SizeWritten(section: seq<byte>, ctrl: byte, pos: nat)
    requires pos <= |section| && SizeAt(section, ctrl, pos).Some?
    ensures var s := SizeAt(section, ctrl, pos).value;
            && s.size < SIZE_LIMIT && SizeTag(s.size) == ctrl % 32
            && Holds(section, pos, SizeBytes(s.size)) && s.pos == pos + |SizeBytes(s.size)|
  {
    var Sized(size, end) := SizeAt(section, ctrl, pos).value;
    var bs := section[pos..end];
    if ctrl % 32 == 29 {
      assert bs == [section[pos]];
    } else if ctrl % 32 == 30 {
      Codec16(size - 285, bs);
    } else if ctrl % 32 == 31 {
      Codec24(size - 65821, bs);
    }
  }

  lemma HeadWritten(section: seq<byte>, at: nat, typ: nat, pos: nat, size: nat, start: nat) returns (extended: bool)
    requires at < |section| && HeadAt(section, at) == Some(Head(typ, pos)) && typ != TYPE_POINTER
    requires SizeAt(section, section[at], pos) == Some(Sized(size, start))
    ensures LegalHead(typ, extended, size)
    ensures Holds(section, at, EncodeHead(typ, extended, size)) && start == at + |EncodeHead(typ, extended, size)|
  {
    SizeWritten(section, section[at], pos);
    extended := section[at] / 32 == TYPE_EXTENDED;
    var first: seq<byte> := if extended then [SizeTag(size), typ - 7] else [32 * typ + SizeTag(size)];
    assert section[at..pos] == first;
    HoldsJoin(section, at, first, SizeBytes(size));
  }

  lemma DataWritten(section: seq<byte>, at: nat, typ: nat, pos: nat) returns (code: Code)
    requires at < |section| && HeadAt(section, at) == Some(Head(typ, pos)) && typ != TYPE_POINTER
    requires DecodeSized(section, at, typ, pos).Some?
    ensures var d := DecodeSized(section, at, typ, pos).value;
            Written(section, at, code, d.field, d.next)
  {
    hide SizeAt, FieldOf, Payload, Writable, EncodeHead;
    var Sized(size, start) := SizeAt(section, section[at], pos).value;
    var extended := HeadWritten(section, at, typ, pos, size, start);
    var payload := section[start..start + PayloadSize(typ, size)];
    PayloadWritten(typ, size, payload);
    code := DataCode(FieldOf(typ, size, payload).value, extended, size, payload);
    HoldsJoin(section, at, EncodeHead(typ, extended, size), payload);
  }

  // ---- the main results ----

  lemma WrittenIsDecoded(section: seq<byte>, at: nat, code: Code, field: Field, end: nat)
    requires Written(section, at, code, field, end)
    ensures Decode(section, at) == Some(Decoded(field, at, end))
  {
    hide Decode, EncodePointer, EncodeHead, Payload, Writable;
    match code
    case PointerCode(target, width, spare) => PointerRead(section, at, target, width, spare);
    case DataCode(data, extended, size, filler) => DataRead(section, at, data, extended, size, filler);
  }

  lemma DecodedIsWritten(section: seq<byte>, at: nat) returns (code: Code)
    requires Decode(section, at).Some?
    ensures Written(section, at, code, Decode(section, at).value.field, Decode(section, at).value.next)
  {
    var Head(typ, pos) := HeadAt(section, at).value;
    if typ == TYPE_POINTER {
      code := PointerWritten(section, at, pos);
    } else {
      code := DataWritten(section, at, typ, pos);
    }
  }

  /** decode_one accepts exactly the encodings of fields, and reads the field
      and its end. */
  lemma DecodeIsExact(section: seq<byte>, at: nat, field: Field, end: nat)
    ensures FieldAt(section, at, field, end) <==> Decode(section, at) == Some(Decoded(field, at, end))
  {
    if FieldAt(section, at, field, end) {
      var code :| Written(section, at, code, field, end);
      WrittenIsDecoded(section, at, code, field, end);
    }
    if Decode(section, at) == Some(Decoded(field, at, end)) {
      var code := DecodedIsWritten(section, at);
    }
  }

  /** A byte string starts with at most one encoding of a field. */
  lemma CodesArePrefixFree(section: seq<byte>, at: nat, a: Code, b: Code)
    requires Legal(a) && Holds(section, at, Encode(a))
    requires Legal(b) && Holds(section, at, Encode(b))
    ensures Encode(a) == Encode(b) && Meaning(a) == Meaning(b)
  {
    hide Decode, Encode, Meaning;
    var endA, endB := at + |Encode(a)|, at + |Encode(b)|;
    WrittenIsDecoded(section, at, a, Meaning(a), endA);
    WrittenIsDecoded(section, at, b, Meaning(b), endB);
    assert Encode(a) == section[at..endA] && Encode(b) == section[at..endB];
  }

  // ---- the same in bytes ----

  lemma ShortField(section: seq<byte>, at: nat, typ: nat, n: nat, p: seq<byte>)
    requires 2 <= typ <= 7 && n < 29 && |p| == PayloadSize(typ, n) && Holds(section, at, [32 * typ + n] + p)
    ensures Decode(section, at)
         == match FieldOf(typ, n, p) case None => None case Some(f) => Some(Decoded(f, at, at + 1 + |p|))
  {
    hide FieldOf;
    HoldsSplit(section, at, [32 * typ + n], p);
    HoldsAt(section, at, [32 * typ + n], 0);
    assert HeadAt(section, at) == Some(Head(typ, at + 1));
    assert SizeAt(section, section[at], at + 1) == Some(Sized(n, at + 1));
    assert section[at + 1..at + 1 + |p|] == p;
  }

  lemma ShortExtendedField(section: seq<byte>, at: nat, second: byte, n: nat, p: seq<byte>)
    requires n < 29 && |p| == PayloadSize(7 + second, n) && Holds(section, at, [n, second] + p)
    ensures Decode(section, at)
         == match FieldOf(7 + second, n, p) case None => None case Some(f) => Some(Decoded(f, at, at + 2 + |p|))
  {
    hide FieldOf;
    HoldsSplit(section, at, [n, second], p);
    HoldsAt(section, at, [n, second], 0);
    HoldsAt(section, at, [n, second], 1);
    assert HeadAt(section, at) == Some(Head(7 + second, at + 2));
    assert SizeAt(section, section[at], at + 2) == Some(Sized(n, at + 2));
    assert section[at + 2..at + 2 + |p|] == p;
  }

  /** A field of the right size, or nothing. */
  function When(allowed: bool, scalar: Scalar, at: nat, end: nat): Option<Decoded> {
    if allowed then Some(Decoded(Plain(scalar), at, end)) else None
  }

  // The control bytes of payloads shorter than 29 bytes.

  lemma StringBytes(section: seq<byte>, at: nat, p: seq<byte>)
    requires |p| < 29 && Holds(section, at, [64 + |p|] + p)
    ensures Decode(section, at) == When(true, Utf8(p), at, at + 1 + |p|)
  {
    hide Decode, BigEndian, TwosComplement32, Holds;
    ShortField(section, at, 2, |p|, p);
  }

  lemma DoubleBytes(section: seq<byte>, at: nat, p: seq<byte>)
    requires |p| < 29 && Holds(section, at, [96 + |p|] + p)
    ensures Decode(section, at) == When(|p| == 8, Double(BigEndian(p)), at, at + 9)
  {
    hide Decode, BigEndian, TwosComplement32, Holds;
    ShortField(section, at, 3, |p|, p);
  }

  lemma BytesBytes(section: seq<byte>, at: nat, p: seq<byte>)
    requires |p| < 29 && Holds(section, at, [128 + |p|] + p)
    ensures Decode(section, at) == When(true, Bytes(p), at, at + 1 + |p|)
  {
    hide Decode, BigEndian, TwosComplement32, Holds;
    ShortField(section, at, 4, |p|, p);
  }

  lemma Uint16Bytes(section: seq<byte>, at: nat, p: seq<byte>)
    requires |p| < 29 && Holds(section, at, [160 + |p|] + p)
    ensures Decode(section, at) == When(|p| <= 2, Uint16(BigEndian(p)), at, at + 1 + |p|)
  {
    hide Decode, BigEndian, TwosComplement32, Holds;
    ShortField(section, at, 5, |p|, p);
  }

  lemma Uint32Bytes(section: seq<byte>, at: nat, p: seq<byte>)
    requires |p| < 29 && Holds(section, at, [192 + |p|] + p)
    ensures Decode(section, at) == When(|p| <= 4, Uint32(BigEndian(p)), at, at + 1 + |p|)
  {
    hide Decode, BigEndian, TwosComplement32, Holds;
    ShortField(section, at, 6, |p|, p);
  }

  // The second bytes of the extended types.

  lemma Int32Bytes(section: seq<byte>, at: nat, p: seq<byte>)
    requires |p| < 29 && Holds(section, at, [|p|, 1] + p)
    ensures Decode(section, at) == When(|p| <= 4, Int32(TwosComplement32(BigEndian(p))), at, at + 2 + |p|)
  {
    hide Decode, BigEndian, TwosComplement32, Holds;
    ShortExtendedField(section, at, 1, |p|, p);
  }

  lemma Uint64Bytes(section: seq<byte>, at: nat, p: seq<byte>)
    requires |p| < 29 && Holds(section, at, [|p|, 2] + p)
    ensures Decode(section, at) == When(|p| <= 8, Uint64(BigEndian(p)), at, at + 2 + |p|)
  {
    hide Decode, BigEndian, TwosComplement32, Holds;
    ShortExtendedField(section, at, 2, |p|, p);
  }

  lemma Uint128Bytes(section: seq<byte>, at: nat, p: seq<byte>)
    requires |p| < 29 && Holds(section, at, [|p|, 3] + p)
    ensures Decode(section, at) == When(|p| <= 16, Uint128(BigEndian(p)), at, at + 2 + |p|)
  {
    hide Decode, BigEndian, TwosComplement32, Holds;
    ShortExtendedField(section, at, 3, |p|, p);
  }

  lemma FloatBytes(section: seq<byte>, at: nat, p: seq<byte>)
    requires |p| < 29 && Holds(section, at, [|p|, 8] + p)
    ensures Decode(section, at) == When(|p| == 4, Float(BigEndian(p)), at, at + 6)
  {
    hide Decode, BigEndian, TwosComplement32, Holds;
    ShortExtendedField(section, at, 8, |p|, p);
  }

  lemma OtherBytes(section: seq<byte>, at: nat, second: byte, p: seq<byte>)
    requires |p| < 29 && Holds(section, at, [|p|, second] + p) && (second in {5, 6} || second > 8)
    ensures Decode(section, at) == When(true, Other(7 + second), at, at + 2 + |p|)
  {
    hide Decode, BigEndian, TwosComplement32, Holds;
    ShortExtendedField(section, at, second, |p|, p);
  }

  /** Maps, arrays and booleans have no payload: the size is the number of entries or
      elements, or the value. */
  lemma BytesWithoutPayload(section: seq<byte>, at: nat, n: nat)
    requires n < 29
    ensures Holds(section, at, [224 + n]) ==> Decode(section, at) == Some(Decoded(Map(n), at, at + 1))
    ensures Holds(section, at, [n, 4]) ==> Decode(section, at) == Some(Decoded(Array(n), at, at + 2))
    ensures Holds(section, at, [n, 7]) ==> Decode(section, at) == When(true, Boolean(n != 0), at, at + 2)
  {
    hide Decode, BigEndian, Holds;
    assert [224 + n] + [] == [224 + n] && [n, 4] + [] == [n, 4] && [n, 7] + [] == [n, 7];
    if Holds(section, at, [224 + n]) {
      ShortField(section, at, 7, n, []);
    }
    if Holds(section, at, [n, 4]) {
      ShortExtendedField(section, at, 4, n, []);
    }
    if Holds(section, at, [n, 7]) {
      ShortExtendedField(section, at, 7, n, []);
    }
  }

  /** A signed number is in the range of 32 bits, and stands for the same bits as
      the unsigned one. */
  lemma SignedRange(number: nat)
    requires number < 0x1_0000_0000
    ensures -0x8000_0000 <= TwosComplement32(number) < 0x8000_0000
    ensures (number - TwosComplement32(number)) % 0x1_0000_0000 == 0
  {
  }

  // Strings of 29 bytes and more: one, two or three bytes after the control byte
  // continue the length.

  lemma StringBytes29(section: seq<byte>, at: nat, a: byte, p: seq<byte>)
    requires |p| == 29 + a as nat && Holds(section, at, [93, a] + p)
    ensures Decode(section, at) == When(true, Utf8(p), at, at + 2 + |p|)
  {
    LongString(section, at, [93, a], |p|, p);
  }

  lemma StringBytes285(section: seq<byte>, at: nat, a: byte, b: byte, p: seq<byte>)
    requires |p| == 285 + a as nat * 256 + b as nat && Holds(section, at, [94, a, b] + p)
    ensures Decode(section, at) == When(true, Utf8(p), at, at + 3 + |p|)
  {
    hide Decode, Holds, Be2;
    assert GetUint16([a, b]) == |p| - 285;
    Codec16(|p| - 285, [a, b]);
    assert [94, a, b][1..] == [a, b];
    LongString(section, at, [94, a, b], |p|, p);
  }

  lemma StringBytes65821(section: seq<byte>, at: nat, a: byte, b: byte, c: byte, p: seq<byte>)
    requires |p| == 65821 + a as nat * 65536 + b as nat * 256 + c as nat && Holds(section, at, [95, a, b, c] + p)
    ensures Decode(section, at) == When(true, Utf8(p), at, at + 4 + |p|)
  {
    hide Decode, Holds, Be3;
    assert GetUint24([a, b, c]) == |p| - 65821;
    Codec24(|p| - 65821, [a, b, c]);
    assert [95, a, b, c][1..] == [a, b, c];
    LongString(section, at, [95, a, b, c], |p|, p);
  }

  lemma LongString(section: seq<byte>, at: nat, head: seq<byte>, size: nat, p: seq<byte>)
    requires 1 <= |head| && head[0] / 32 == TYPE_UTF8_STRING && |p| == size < SIZE_LIMIT
    requires head[0] % 32 == SizeTag(size) && head[1..] == SizeBytes(size)
    requires Holds(section, at, head + p)
    ensures Decode(section, at) == Some(Decoded(Plain(Utf8(p)), at, at + |head| + |p|))
  {
    hide SizeAt, SizeBytes, SizeTag;
    HoldsSplit(section, at, head, p);
    HoldsAt(section, at, head, 0);
    assert [head[0]] + head[1..] == head;
    HoldsSplit(section, at, [head[0]], head[1..]);
    assert HeadAt(section, at) == Some(Head(TYPE_UTF8_STRING, at + 1));
    SizeRead(section, section[at], at + 1, size);
    assert section[at + |head|..at + |head| + |p|] == p;
  }

  // Pointers in 2, 3, 4 and 5 bytes; `h` is the lowest three bits of the first.

  lemma PointerField(section: seq<byte>, at: nat, ctrl: byte, p: seq<byte>)
    requires ctrl / 32 == TYPE_POINTER && |p| == ctrl / 8 % 4 + 1 && Holds(section, at, [ctrl] + p)
    ensures Decode(section, at) == Some(Decoded(Pointer(GetPtrFrom(ctrl, p, |p|), |p|), at, at + 1 + |p|))
  {
    hide GetPtrFrom;
    HoldsSplit(section, at, [ctrl], p);
    HoldsAt(section, at, [ctrl], 0);
    assert HeadAt(section, at) == Some(Head(TYPE_POINTER, at + 1));
    assert section[at + 1..at + 1 + |p|] == p;
  }

  lemma PointerBytes1(section: seq<byte>, at: nat, h: byte, a: byte)
    requires h < 8 && Holds(section, at, [32 + h, a])
    ensures Decode(section, at) == Some(Decoded(Pointer(h as nat * 256 + a, 1), at, at + 2))
  {
    hide Decode, Holds;
    assert [32 + h] + [a] == [32 + h, a];
    PointerField(section, at, 32 + h, [a]);
  }

  lemma PointerBytes2(section: seq<byte>, at: nat, h: byte, a: byte, b: byte)
    requires h < 8 && Holds(section, at, [40 + h, a, b])
    ensures Decode(section, at)
         == Some(Decoded(Pointer(2048 + h as nat * 65536 + a as nat * 256 + b, 2), at, at + 3))
  {
    hide Decode, Holds;
    assert [40 + h] + [a, b] == [40 + h, a, b];
    PointerField(section, at, 40 + h, [a, b]);
  }

  lemma PointerBytes3(section: seq<byte>, at: nat, h: byte, a: byte, b: byte, c: byte)
    requires h < 8 && Holds(section, at, [48 + h, a, b, c])
    ensures Decode(section, at)
         == Some(Decoded(Pointer(526336 + h as nat * 16777216 + a as nat * 65536 + b as nat * 256 + c, 3), at, at + 4))
  {
    hide Decode, Holds;
    assert [48 + h] + [a, b, c] == [48 + h, a, b, c];
    PointerField(section, at, 48 + h, [a, b, c]);
  }

  lemma PointerBytes4(section: seq<byte>, at: nat, h: byte, a: byte, b: byte, c: byte, d: byte)
    requires h < 8 && Holds(section, at, [56 + h, a, b, c, d])
    ensures Decode(section, at)
         == Some(Decoded(Pointer(a as nat * 16777216 + b as nat * 65536 + c as nat * 256 + d, 4), at, at + 5))
  {
    hide Decode, Holds;
    assert [56 + h] + [a, b, c, d] == [56 + h, a, b, c, d];
    PointerField(section, at, 56 + h, [a, b, c, d]);
  }
}
