/** MMDB_aget_value: following a path of map keys and array indices. On a
    well-formed tree it finds what navigating the tree finds; on any bytes at
    all, looking up a path in two stages gives the same answer as in one. */
module PathLookup {
  import opened Base
  import opened Wire
  import opened Decoding
  import opened ValueTree
  import opened Flattening
  import opened Skipping

  type long = x: int | -0x8000_0000_0000_0000 <= x < 0x8000_0000_0000_0000

  /** A path element: its text, and what strtol makes of it in base 10 (the
      number, whether it was out of range, whether text follows it). */
  datatype PathElem = PathElem(text: seq<byte>, index: long, outOfRange: bool, trailing: bool)

  // ---- what the C functions compute ----

  /** The element of an array of `count` elements that `elem` selects, counting
      from the end for a negative index. */
  function SelectIndex(count: nat, elem: PathElem): (r: Result<nat>)
    ensures r.Ok? ==> r.value < count
    ensures r.Err? ==> r.status != Success
  {
    var index := if elem.index < 0 then elem.index as int + count else elem.index;
    if elem.outOfRange then Err(InvalidLookupPath)
    else if elem.trailing || !(0 <= index < count) then Err(LookupPathDoesNotMatchData)
    else Ok(index)
  }

  function FollowOr(section: seq<byte>, at: nat): (r: Result<Decoded>)
    ensures r.Err? ==> r.status != Success
  {
    match Follow(section, at)
    case None => Err(InvalidData)
    case Some(d) => Ok(d)
  }

  function LookupInArray(section: seq<byte>, d: Decoded, elem: PathElem): (r: Result<Decoded>)
    requires d.field.Array? && d.next <= |section|
    ensures r.Err? ==> r.status != Success
  {
    match SelectIndex(d.field.count, elem)
    case Err(status) => Err(status)
    case Ok(index) =>
      match SkipElements(section, d.next, index, 0)
      case None => Err(InvalidData)
      case Some(skipped) => FollowOr(section, skipped.end)
  }

  function LookupInMap(section: seq<byte>, from: nat, count: nat, text: seq<byte>): (r: Result<Decoded>)
    requires from <= |section|
    ensures r.Err? ==> r.status != Success
    decreases count
  {
    if count == 0 then Err(LookupPathDoesNotMatchData) else
    match Follow(section, from)
    case None => Err(InvalidData)
    case Some(key) =>
      if !(key.field.Plain? && key.field.scalar.Utf8?) then Err(InvalidData)
      else if key.field.scalar.text == text then FollowOr(section, key.next)
      else
        match Decode(section, key.next)
        case None => Err(InvalidData)
        case Some(value) =>
          match Skip(section, value, 0)
          case None => Err(InvalidData)
          case Some(skipped) => LookupInMap(section, skipped.end, count - 1, text)
  }

  function LookupStep(section: seq<byte>, d: Decoded, elem: PathElem): (r: Result<Decoded>)
    requires d.next <= |section|
    ensures r.Err? ==> r.status != Success
  {
    match d.field
    case Array(_) => LookupInArray(section, d, elem)
    case Map(count) => LookupInMap(section, d.next, count, elem.text)
    case _ => Err(LookupPathDoesNotMatchData)
  }

  lemma StepShowsFollowed(section: seq<byte>, d: Decoded, elem: PathElem)
    requires d.next <= |section|
    ensures LookupStep(section, d, elem).Ok? ==> Followed(section, LookupStep(section, d, elem).value)
  {
    hide Decode, Skip, SkipElements;
    if d.field.Map? {
      MapShowsFollowed(section, d.next, d.field.count, elem.text);
    } else if d.field.Array? && LookupStep(section, d, elem).Ok? {
      FollowIsFollowed(section, SkipElements(section, d.next, SelectIndex(d.field.count, elem).value, 0).value.end);
    }
  }

  lemma {:induction false} MapShowsFollowed(section: seq<byte>, from: nat, count: nat, text: seq<byte>)
    requires from <= |section|
    ensures LookupInMap(section, from, count, text).Ok?
        ==> Followed(section, LookupInMap(section, from, count, text).value)
    decreases count
  {
    hide Decode, Skip, SkipElements, Followed;
    if count > 0 && LookupInMap(section, from, count, text).Ok? {
      var key := Follow(section, from).value;
      if key.field.scalar.text == text {
        FollowIsFollowed(section, key.next);
      } else {
        var value := Decode(section, key.next).value;
        MapShowsFollowed(section, Skip(section, value, 0).value.end, count - 1, text);
      }
    }
  }

  /** The while loop of MMDB_aget_value. */
  function FollowPath(section: seq<byte>, d: Decoded, path: seq<PathElem>): (r: Result<Decoded>)
    requires d.next <= |section|
    ensures r.Err? ==> r.status != Success
    decreases |path|
  {
    if path == [] then Ok(d) else
    match LookupStep(section, d, path[0])
    case Err(status) => Err(status)
    case Ok(child) =>
      StepShowsFollowed(section, d, path[0]);
      FollowPath(section, child, path[1..])
  }

  function Lookup(section: seq<byte>, at: nat, path: seq<PathElem>): (r: Result<Decoded>)
    ensures r.Err? ==> r.status != Success
  {
    match Follow(section, at)
    case None => Err(InvalidData)
    case Some(d) => FollowPath(section, d, path)
  }

  // ---- the offsets a lookup goes through ----

  /** Where lookup_path_in_map looks for a key: at the first entry, and after each
      entry that it steps over. */
  function MapTrail(section: seq<byte>, from: nat, count: nat, text: seq<byte>): (trail: seq<nat>)
    requires from <= |section|
    ensures trail != [] && trail[0] == from
    decreases count
  {
    if count == 0 || Follow(section, from).None? then [from] else
    var key := Follow(section, from).value;
    if !(key.field.Plain? && key.field.scalar.Utf8?) || key.field.scalar.text == text then [from] else
    match Decode(section, key.next)
    case None => [from]
    case Some(value) =>
      match Skip(section, value, 0)
      case None => [from]
      case Some(skipped) => [from] + MapTrail(section, skipped.end, count - 1, text)
  }

  /** In an array, where the selected element is read. */
  function StepTrail(section: seq<byte>, d: Decoded, elem: PathElem): seq<nat>
    requires d.next <= |section|
  {
    match d.field
    case Map(count) => MapTrail(section, d.next, count, elem.text)
    case Array(count) =>
      (match SelectIndex(count, elem)
       case Err(_) => []
       case Ok(index) =>
         match SkipElements(section, d.next, index, 0)
         case None => []
         case Some(skipped) => [skipped.end])
    case _ => []
  }

  function PathTrail(section: seq<byte>, d: Decoded, path: seq<PathElem>): seq<seq<nat>>
    requires d.next <= |section|
    decreases |path|
  {
    if path == [] then [] else
    match LookupStep(section, d, path[0])
    case Err(_) => [StepTrail(section, d, path[0])]
    case Ok(child) =>
      StepShowsFollowed(section, d, path[0]);
      [StepTrail(section, d, path[0])] + PathTrail(section, child, path[1..])
  }

  /** The offsets that MMDB_aget_value goes through, path element by path element. */
  function Trail(section: seq<byte>, at: nat, path: seq<PathElem>): seq<seq<nat>> {
    match Follow(section, at)
    case None => []
    case Some(d) => PathTrail(section, d, path)
  }

  // ---- a lookup continues from where another ended ----

  /** `d` is what decode_one reads at d.offset, up to the next offset of a scalar. */
  ghost predicate Followed(section: seq<byte>, d: Decoded) {
    && d.next <= |section|
    && Follow(section, d.offset).Some?
    && SameValue(Follow(section, d.offset).value, d)
  }

  /** The same field at the same offset; for containers, also the same children. */
  ghost predicate SameValue(a: Decoded, b: Decoded) {
    a.field == b.field && a.offset == b.offset && (a.field.IsContainer() ==> a.next == b.next)
  }

  ghost predicate SameResult(a: Result<Decoded>, b: Result<Decoded>) {
    match (a, b)
    case (Ok(x), Ok(y)) => SameValue(x, y)
    case (Err(x), Err(y)) => x == y
    case _ => false
  }

  lemma FollowIsFollowed(section: seq<byte>, at: nat)
    requires Follow(section, at).Some?
    ensures Followed(section, Follow(section, at).value)
  {
    hide Decode;
  }

  lemma {:induction false} FollowPathIsFollowed(section: seq<byte>, d: Decoded, path: seq<PathElem>)
    requires d.next <= |section| && Followed(section, d)
    ensures FollowPath(section, d, path).Ok? ==> Followed(section, FollowPath(section, d, path).value)
    decreases |path|
  {
    hide Decode, LookupStep;
    if path != [] && LookupStep(section, d, path[0]).Ok? {
      StepShowsFollowed(section, d, path[0]);
      FollowPathIsFollowed(section, LookupStep(section, d, path[0]).value, path[1..]);
    }
  }

  lemma {:induction false} FollowPathAppend(section: seq<byte>, d: Decoded, p: seq<PathElem>, q: seq<PathElem>)
    requires d.next <= |section|
    ensures FollowPath(section, d, p).Ok? ==>
              && FollowPath(section, d, p).value.next <= |section|
              && FollowPath(section, d, p + q) == FollowPath(section, FollowPath(section, d, p).value, q)
    ensures FollowPath(section, d, p).Err? ==> FollowPath(section, d, p + q) == FollowPath(section, d, p)
    decreases |p|
  {
    hide Decode, LookupStep;
    if p == [] {
      assert p + q == q;
    } else if LookupStep(section, d, p[0]).Ok? {
      StepShowsFollowed(section, d, p[0]);
      FollowPathAppend(section, LookupStep(section, d, p[0]).value, p[1..], q);
      assert (p + q)[1..] == p[1..] + q;
    }
  }

  lemma FollowPathOfSameValue(section: seq<byte>, a: Decoded, b: Decoded, path: seq<PathElem>)
    requires a.next <= |section| && b.next <= |section| && SameValue(a, b) && !a.field.Pointer?
    ensures SameResult(FollowPath(section, a, path), FollowPath(section, b, path))
  {
    hide Decode, LookupInMap, LookupInArray;
    if a.field.IsContainer() {
      assert a == b;
    }
  }

  /** Looking up p and then q from the offset that p returned is looking up p
      followed by q: the same error, or the same field at the same offset; and
      when p fails so does every longer path. This holds of every byte section,
      well formed or not. */
  lemma LookupComposes(section: seq<byte>, at: nat, p: seq<PathElem>, q: seq<PathElem>)
    ensures match Lookup(section, at, p)
            case Ok(found) => SameResult(Lookup(section, at, p + q), Lookup(section, found.offset, q))
            case Err(status) => Lookup(section, at, p + q) == Err(status)
  {
    hide Decode, FollowPath;
    if Follow(section, at).Some? {
      var d := Follow(section, at).value;
      FollowPathAppend(section, d, p, q);
      if Lookup(section, at, p).Ok? {
        var found := Lookup(section, at, p).value;
        FollowIsFollowed(section, at);
        FollowPathIsFollowed(section, d, p);
        FollowPathOfSameValue(section, found, Follow(section, found.offset).value, q);
      }
    }
  }

  // ---- what the errors mean, on any bytes ----

  lemma {:induction false} MapErrors(section: seq<byte>, from: nat, count: nat, text: seq<byte>)
    requires from <= |section|
    ensures |MapTrail(section, from, count, text)| <= count + 1
    ensures LookupInMap(section, from, count, text) == Err(LookupPathDoesNotMatchData)
       <==> |MapTrail(section, from, count, text)| == count + 1
    ensures LookupInMap(section, from, count, text).Err? ==>
              LookupInMap(section, from, count, text).status in {LookupPathDoesNotMatchData, InvalidData}
    decreases count
  {
    hide Decode, Follow, Skip;
    if count > 0 && Follow(section, from).Some? {
      var key := Follow(section, from).value;
      if key.field.Plain? && key.field.scalar.Utf8? && key.field.scalar.text != text
         && Decode(section, key.next).Some? {
        var skipped := Skip(section, Decode(section, key.next).value, 0);
        if skipped.Some? {
          MapErrors(section, skipped.value.end, count - 1, text);
        }
      }
    }
  }

  /** One element of a path fails as not matching exactly when there is nothing to
      match: the value has no children, the index is no number or not one of the
      array, or every key of the map has been read and is another. It fails as an
      invalid path exactly when the index is out of range; and else the data is
      invalid. */
  lemma StepErrors(section: seq<byte>, d: Decoded, elem: PathElem)
    requires d.next <= |section|
    ensures LookupStep(section, d, elem) == Err(InvalidLookupPath) <==> d.field.Array? && elem.outOfRange
    ensures LookupStep(section, d, elem) == Err(LookupPathDoesNotMatchData)
       <==> match d.field
            case Map(count) => |StepTrail(section, d, elem)| == count + 1
            case Array(count) =>
              !elem.outOfRange && (elem.trailing || elem.index >= count || elem.index as int + count < 0)
            case _ => true
    ensures LookupStep(section, d, elem).Err? ==>
              LookupStep(section, d, elem).status in {InvalidLookupPath, LookupPathDoesNotMatchData, InvalidData}
  {
    hide LookupInMap, MapTrail, SkipElements, Follow;
    if d.field.Map? {
      MapErrors(section, d.next, d.field.count, elem.text);
    }
  }

  /** A lookup fails with the error of the first element that fails, or as invalid
      data when there is no value to start from. */
  lemma {:induction false} LookupErrors(section: seq<byte>, at: nat, path: seq<PathElem>)
    ensures Follow(section, at).None? ==> Lookup(section, at, path) == Err(InvalidData)
    ensures Follow(section, at).Some? && Lookup(section, at, path).Err? ==>
              exists k: nat :: k < |path|
                && Lookup(section, at, path[..k]).Ok?
                && Lookup(section, at, path[..k]).value.next <= |section|
                && LookupStep(section, Lookup(section, at, path[..k]).value, path[k]) == Lookup(section, at, path)
    decreases |path|
  {
    hide Decode, Follow, FollowPath, LookupStep;
    if Follow(section, at).Some? && Lookup(section, at, path).Err? {
      var d := Follow(section, at).value;
      EmptyPath(section, d);
      assert path != [];
      var front, last := path[..|path| - 1], path[|path| - 1];
      assert front + [last] == path;
      FollowPathAppend(section, d, front, [last]);
      if Lookup(section, at, front).Ok? {
        var reached := Lookup(section, at, front).value;
        OneElement(section, reached, last);
        assert path[..|path| - 1] == front;
      } else {
        LookupErrors(section, at, front);
        var k: nat :| k < |front| && Lookup(section, at, front[..k]).Ok?
          && Lookup(section, at, front[..k]).value.next <= |section|
          && LookupStep(section, Lookup(section, at, front[..k]).value, front[k]) == Lookup(section, at, front);
        assert front[..k] == path[..k];
      }
    }
  }

  lemma OneElement(section: seq<byte>, d: Decoded, elem: PathElem)
    requires d.next <= |section|
    ensures FollowPath(section, d, [elem]).Err? ==> LookupStep(section, d, elem) == FollowPath(section, d, [elem])
  {
    hide LookupStep;
    PathUnfolds(section, d, [elem]);
    if LookupStep(section, d, elem).Ok? {
      EmptyPath(section, LookupStep(section, d, elem).value);
      assert [elem][1..] == [];
    }
  }

  // ---- the C functions ----

  function StatusOf<T>(r: Result<T>): Status {
    match r
    case Ok(_) => Success
    case Err(status) => status
  }

  /** decode_one and then skip_map_or_array. */
  method StepOver(mem: seq<byte>, at: uint32, value: EntryData) returns (status: Status)
    requires Readable(mem)
    modifies value
    ensures status
         == if Decode(mem, at).Some? && Skip(mem, Decode(mem, at).value, 0).Some? then Success else InvalidData
    ensures status == Success ==> value.offsetToNext == Skip(mem, Decode(mem, at).value, 0).value.end
  {
    hide Decode, Skip;
    status := value.DecodeOne(mem, at);
    if status != Success {
      return status;
    }
    status := SkipMapOrArray(mem, value, Decode(mem, at).value, 0);
  }

  /** lookup_path_in_array */
  method LookupPathInArray(mem: seq<byte>, elem: PathElem, entryData: EntryData, ghost d: Decoded)
    returns (status: Status, ghost trail: seq<nat>)
    requires Readable(mem) && d.next <= |mem| && d.field.Array? && entryData.Shows(d)
    modifies entryData
    ensures status == StatusOf(LookupInArray(mem, d, elem)) && trail == StepTrail(mem, d, elem)
    ensures LookupInArray(mem, d, elem).Ok? ==> entryData.Shows(LookupInArray(mem, d, elem).value)
  {
    hide Decode, Follow, Skip;
    trail := [];
    var size := entryData.dataSize;
    if elem.outOfRange {
      return InvalidLookupPath, trail;
    }
    var arrayIndex: long := elem.index;
    if arrayIndex < 0 {
      arrayIndex := arrayIndex + size;
      if arrayIndex < 0 {
        return LookupPathDoesNotMatchData, trail;
      }
    }
    if elem.trailing || arrayIndex >= size {
      return LookupPathDoesNotMatchData, trail;
    }
    for i := 0 to arrayIndex
      invariant entryData.offsetToNext <= |mem|
      invariant SameOutcome(SkipElements(mem, d.next, arrayIndex, 0),
                            SkipElements(mem, entryData.offsetToNext, arrayIndex - i, 0))
    {
      status := StepOver(mem, entryData.offsetToNext, entryData);
      if status != Success {
        return status, trail;
      }
    }
    trail := [entryData.offsetToNext];
    var value := new EntryData();
    status := value.DecodeOneFollow(mem, entryData.offsetToNext);
    if status != Success {
      return status, trail;
    }
    entryData.CopyFrom(value);
    return Success, trail;
  }

  /** Whether lookup_path_in_map steps over the entry at `from`, and where to. */
  function NextEntry(section: seq<byte>, from: nat, text: seq<byte>): (r: Option<nat>)
    requires from <= |section|
    ensures r.Some? ==> r.value <= |section|
  {
    match Follow(section, from)
    case None => None
    case Some(key) =>
      if !(key.field.Plain? && key.field.scalar.Utf8?) || key.field.scalar.text == text then None else
      match Decode(section, key.next)
      case None => None
      case Some(value) =>
        match Skip(section, value, 0)
        case None => None
        case Some(skipped) => Some(skipped.end)
  }

  lemma MapUnfolds(section: seq<byte>, from: nat, count: nat, text: seq<byte>)
    requires from <= |section| && count > 0
    ensures var next := NextEntry(section, from, text);
            && (next.None? ==> MapTrail(section, from, count, text) == [from])
            && (next.Some? ==>
                  && LookupInMap(section, from, count, text) == LookupInMap(section, next.value, count - 1, text)
                  && MapTrail(section, from, count, text) == [from] + MapTrail(section, next.value, count - 1, text))
    ensures Follow(section, from).Some? && Follow(section, from).value.field == Plain(Utf8(text)) ==>
              LookupInMap(section, from, count, text) == FollowOr(section, Follow(section, from).value.next)
    ensures NextEntry(section, from, text).None?
            && !(Follow(section, from).Some? && Follow(section, from).value.field == Plain(Utf8(text)))
        ==> LookupInMap(section, from, count, text) == Err(InvalidData)
  {
    hide Follow, Decode, Skip;
  }

  /** lookup_path_in_map */
  method LookupPathInMap(mem: seq<byte>, elem: PathElem, entryData: EntryData, ghost d: Decoded)
    returns (status: Status, ghost trail: seq<nat>)
    requires Readable(mem) && d.next <= |mem| && d.field.Map? && entryData.Shows(d)
    modifies entryData
    ensures status == StatusOf(LookupInMap(mem, d.next, d.field.count, elem.text))
    ensures trail == StepTrail(mem, d, elem)
    ensures var r := LookupInMap(mem, d.next, d.field.count, elem.text); r.Ok? ==> entryData.Shows(r.value)
  {
    hide Decode, Follow, Skip, OverReads, LookupInMap, MapTrail;
    trail := [];
    var size := entryData.dataSize;
    var at: uint32 := entryData.offsetToNext;
    while size > 0
      invariant at <= |mem|
      invariant LookupInMap(mem, d.next, d.field.count, elem.text) == LookupInMap(mem, at, size, elem.text)
      invariant MapTrail(mem, d.next, d.field.count, elem.text) == trail + MapTrail(mem, at, size, elem.text)
    {
      MapUnfolds(mem, at, size, elem.text);
      size := size - 1;
      var key := new EntryData();
      var value := new EntryData();
      status := key.DecodeOneFollow(mem, at);
      if status != Success {
        return status, trail + [at];
      }
      var offsetToValue := key.offsetToNext;
      FollowedTypeIsExact(mem, at);
      if key.typ != TYPE_UTF8_STRING {
        return InvalidData, trail + [at];
      }
      if key.dataSize == |elem.text| && elem.text == key.value.scalar.text {
        status := value.DecodeOneFollow(mem, offsetToValue);
        if status != Success {
          return status, trail + [at];
        }
        entryData.CopyFrom(value);
        return Success, trail + [at];
      } else {
        status := StepOver(mem, offsetToValue, value);
        if status != Success {
          return status, trail + [at];
        }
        var next := value.offsetToNext;
        assert trail + ([at] + MapTrail(mem, next, size, elem.text))
            == trail + [at] + MapTrail(mem, next, size, elem.text);
        trail := trail + [at];
        at := next;
      }
    }
    NoEntriesLeft(mem, at, elem.text);
    entryData.Clear();
    return LookupPathDoesNotMatchData, trail + [at];
  }

  lemma NoEntriesLeft(section: seq<byte>, from: nat, text: seq<byte>)
    requires from <= |section|
    ensures LookupInMap(section, from, 0, text) == Err(LookupPathDoesNotMatchData)
    ensures MapTrail(section, from, 0, text) == [from]
  {
  }

  lemma FollowedTypeIsExact(section: seq<byte>, at: nat)
    requires Follow(section, at).Some?
    ensures var field := Follow(section, at).value.field;
            && (TypeCode(field) == TYPE_MAP <==> field.Map?)
            && (TypeCode(field) == TYPE_ARRAY <==> field.Array?)
            && (TypeCode(field) == TYPE_UTF8_STRING <==> field.Plain? && field.scalar.Utf8?)
  {
    hide Decode, TypeCode;
    DecodedTypeIsExact(section, at);
    var d := Decode(section, at).value;
    if d.field.Pointer? {
      DecodedTypeIsExact(section, d.field.target);
    }
  }

  /** One round of the loop of MMDB_aget_value. */
  lemma PathUnfolds(section: seq<byte>, d: Decoded, path: seq<PathElem>)
    requires d.next <= |section| && path != []
    ensures var step := LookupStep(section, d, path[0]);
            && (step.Err? ==> FollowPath(section, d, path) == Err(step.status))
            && (step.Err? ==> PathTrail(section, d, path) == [StepTrail(section, d, path[0])])
            && (step.Ok? ==>
                  && step.value.next <= |section| && Followed(section, step.value)
                  && FollowPath(section, d, path) == FollowPath(section, step.value, path[1..])
                  && PathTrail(section, d, path)
                  == [StepTrail(section, d, path[0])] + PathTrail(section, step.value, path[1..]))
  {
    hide LookupStep, StepTrail, Followed;
    StepShowsFollowed(section, d, path[0]);
    if LookupStep(section, d, path[0]).Ok? {
      FollowedIsInside(section, LookupStep(section, d, path[0]).value);
    }
  }

  lemma FollowedIsInside(section: seq<byte>, d: Decoded)
    requires Followed(section, d)
    ensures d.next <= |section|
  {
  }

  /** One round of that loop: the dispatch on the type of the struct. */
  method FollowElement(mem: seq<byte>, elem: PathElem, entryData: EntryData, ghost d: Decoded)
    returns (status: Status, ghost places: seq<nat>)
    requires Readable(mem) && Followed(mem, d) && d.next <= |mem| && entryData.Shows(d)
    modifies entryData
    ensures status == StatusOf(LookupStep(mem, d, elem)) && places == StepTrail(mem, d, elem)
    ensures LookupStep(mem, d, elem).Ok? ==> entryData.Shows(LookupStep(mem, d, elem).value)
    ensures LookupStep(mem, d, elem).Err? ==> entryData.IsZero()
  {
    hide Decode, Follow, LookupInMap, LookupInArray, MapTrail, Readable;
    FollowedTypeIsExact(mem, d.offset);
    places := [];
    if entryData.typ == TYPE_ARRAY {
      status, places := LookupPathInArray(mem, elem, entryData, d);
    } else if entryData.typ == TYPE_MAP {
      status, places := LookupPathInMap(mem, elem, entryData, d);
    } else {
      status := LookupPathDoesNotMatchData;
    }
    if status != Success {
      entryData.Clear();
    }
  }

  /** MMDB_aget_value: the struct holds the value found, and is all zeros when a
      path element does not lead on. */
  method AgetValue(mem: seq<byte>, start: uint32, path: seq<PathElem>, entryData: EntryData)
    returns (status: Status, ghost trail: seq<seq<nat>>)
    requires Readable(mem)
    modifies entryData
    ensures status == StatusOf(Lookup(mem, start, path)) && trail == Trail(mem, start, path)
    ensures Lookup(mem, start, path).Ok? ==> entryData.Shows(Lookup(mem, start, path).value)
    ensures status != Success && Follow(mem, start).Some? ==> entryData.IsZero()
  {
    hide Decode, Follow, Followed, LookupStep, StepTrail, FollowPath, PathTrail;
    trail := [];
    entryData.Clear();
    status := entryData.DecodeOneFollow(mem, start);
    if status != Success {
      return status, trail;
    }
    if !entryData.hasData {
      return InvalidLookupPath, trail;
    }
    ghost var d := Follow(mem, start).value;
    assert [] + PathTrail(mem, d, path) == PathTrail(mem, d, path) && path[0..] == path;
    var i := 0;
    FollowIsFollowed(mem, start);
    while i < |path|
      invariant 0 <= i <= |path|
      invariant Followed(mem, d) && d.next <= |mem| && entryData.Shows(d)
      invariant FollowPath(mem, d, path[i..]) == Lookup(mem, start, path)
      invariant trail + PathTrail(mem, d, path[i..]) == Trail(mem, start, path)
    {
      var elem := path[i];
      i := i + 1;
      assert path[i - 1..][1..] == path[i..];
      PathUnfolds(mem, d, path[i - 1..]);
      ghost var places;
      status, places := FollowElement(mem, elem, entryData, d);
      if status != Success {
        return status, trail + [places];
      }
      d := LookupStep(mem, d, elem).value;
      assert trail + ([places] + PathTrail(mem, d, path[i..])) == trail + [places] + PathTrail(mem, d, path[i..]);
      trail := trail + [places];
    }
    EmptyPath(mem, d);
    assert path[i..] == [];
    return Success, trail;
  }

  lemma EmptyPath(section: seq<byte>, d: Decoded)
    requires d.next <= |section|
    ensures FollowPath(section, d, []) == Ok(d) && PathTrail(section, d, []) == []
  {
  }

  // ---- navigating a tree ----

  /** The value itself, or what the pointer leads to. */
  function Resolve(t: Tree): (u: Tree)
  {
    if t.Ref? then t.target else t
  }

  /** A string, or a pointer to one. */
  predicate IsText(t: Tree) {
    var u := Resolve(t);
    u.Leaf? && u.scalar.Utf8?
  }

  function KeyText(key: Tree): seq<byte> {
    if IsText(key) then Resolve(key).scalar.text else []
  }

  /** A string is one node in a list, which shows its text. */
  lemma KeyItem(key: Tree)
    requires Paired(key)
    ensures Preorder(key)[0].field == OwnField(Resolve(key))
    ensures IsText(key) ==> |Preorder(key)| == 1
  {
  }

  function Kid(kids: Forest, index: nat): Tree
    requires index < Len(kids)
  {
    if index == 0 then kids.head else Kid(kids.tail, index - 1)
  }

  function Reversed(kids: Forest): (r: Forest)
    ensures Len(r) == Len(kids)
  {
    match kids
    case Nil => Nil
    case Cons(head, tail) => Append(Reversed(tail), Cons(head, Nil))
  }

  /** The element an index selects: counted from the start, or from the end for
      the indices -1, -2, ... */
  function Element(kids: Forest, elem: PathElem): Result<Tree> {
    if elem.outOfRange then Err(InvalidLookupPath)
    else if elem.trailing then Err(LookupPathDoesNotMatchData)
    else if 0 <= elem.index < Len(kids) then Ok(Kid(kids, elem.index))
    else if 0 < -(elem.index as int) <= Len(kids) then Ok(Kid(Reversed(kids), -(elem.index as int) - 1))
    else Err(LookupPathDoesNotMatchData)
  }

  lemma {:induction false} KidOfAppend(f: Forest, g: Forest, i: nat)
    requires i < Len(f) + Len(g)
    ensures Kid(Append(f, g), i) == if i < Len(f) then Kid(f, i) else Kid(g, i - Len(f))
  {
    if f.Cons? && i > 0 {
      KidOfAppend(f.tail, g, i - 1);
    }
  }

  lemma {:induction false} KidFromEnd(kids: Forest, i: nat)
    requires i < Len(kids)
    ensures Kid(Reversed(kids), i) == Kid(kids, Len(kids) - 1 - i)
  {
    KidOfAppend(Reversed(kids.tail), Cons(kids.head, Nil), i);
    if i < Len(kids.tail) {
      KidFromEnd(kids.tail, i);
    }
  }

  /** The index arithmetic of lookup_path_in_array selects that element. */
  lemma SelectIndexIsElement(kids: Forest, elem: PathElem)
    ensures var r := SelectIndex(Len(kids), elem);
            if r.Ok? then Element(kids, elem) == Ok(Kid(kids, r.value)) else Element(kids, elem) == Err(r.status)
  {
    hide Kid, Reversed, Len;
    if 0 < -(elem.index as int) <= Len(kids) {
      KidFromEnd(kids, -(elem.index as int) - 1);
    }
  }

  /** The value of the first entry whose key is `text`. */
  function FindKey(kids: Forest, text: seq<byte>): Result<Tree> {
    match kids
    case Cons(key, Cons(value, rest)) =>
      (match Resolve(key)
       case Leaf(_, _, Utf8(s)) => if s == text then Ok(value) else FindKey(rest, text)
       case _ => Err(InvalidData))
    case _ => Err(LookupPathDoesNotMatchData)
  }

  function Child(t: Tree, elem: PathElem): Result<Tree> {
    match t
    case Items(_, _, _, kids) => Element(kids, elem)
    case Entries(_, _, _, kids) => FindKey(kids, elem.text)
    case _ => Err(LookupPathDoesNotMatchData)
  }

  function Navigate(t: Tree, path: seq<PathElem>): Result<Tree>
    decreases |path|
  {
    if path == [] then Ok(t) else
    match Child(Resolve(t), path[0])
    case Err(status) => Err(status)
    case Ok(child) => Navigate(child, path[1..])
  }

  /** What a lookup reports about the tree it ends at. */
  function Reported(t: Tree): Decoded
    requires !Resolve(t).Ref?
  {
    Decoded(OwnField(Resolve(t)), Resolve(t).at, if Resolve(t).IsContainer() then Resolve(t).body else t.end)
  }

  /** The outcome of a lookup is that of a navigation. */
  predicate Finds(looked: Result<Decoded>, navigated: Result<Tree>) {
    match navigated
    case Err(status) => looked == Err(status)
    case Ok(t) => !Resolve(t).Ref? && looked == Ok(Reported(t))
  }

  // ---- what is in the way ----

  /** How many entries have another text as their key before the first that has
      `text`, or no text, as its key. */
  function KeysPassed(kids: Forest, text: seq<byte>): (n: nat)
    ensures 2 * n <= Len(kids)
  {
    match kids
    case Cons(key, Cons(_, rest)) =>
      (match Resolve(key)
       case Leaf(_, _, Utf8(s)) => if s == text then 0 else 1 + KeysPassed(rest, text)
       case _ => 0)
    case _ => 0
  }

  /** Every value that a lookup steps over on its way to a child can be skipped. */
  predicate ClearStep(t: Tree, elem: PathElem) {
    match t
    case Items(_, _, _, kids) =>
      var index := SelectIndex(Len(kids), elem);
      index.Ok? ==> SkippableElements(kids, index.value, 0)
    case Entries(_, _, _, kids) => SkippablePairs(kids, KeysPassed(kids, elem.text), 0)
    case _ => true
  }

  /** The same along a path. What the path does not step over does not matter. */
  predicate ClearPath(t: Tree, path: seq<PathElem>)
    decreases |path|
  {
    path != [] ==>
      && ClearStep(Resolve(t), path[0])
      && var child := Child(Resolve(t), path[0]);
         child.Ok? ==> ClearPath(child.value, path[1..])
  }

  /** The offsets that a navigation goes through: where keys start and, in an
      array, where the selected element starts. */
  function MapPlaces(from: nat, kids: Forest, text: seq<byte>): (places: seq<nat>)
    ensures places != [] && places[0] == from
    decreases kids
  {
    match kids
    case Cons(key, Cons(value, rest)) =>
      (match Resolve(key)
       case Leaf(_, _, Utf8(s)) => if s == text then [from] else [from] + MapPlaces(value.end, rest, text)
       case _ => [from])
    case _ => [from]
  }

  function StepPlaces(t: Tree, elem: PathElem): seq<nat> {
    match t
    case Items(_, _, _, kids) =>
      (match Element(kids, elem)
       case Ok(u) => [u.at]
       case Err(_) => [])
    case Entries(_, body, _, kids) => MapPlaces(body, kids, elem.text)
    case _ => []
  }

  function Places(t: Tree, path: seq<PathElem>): seq<seq<nat>>
    decreases |path|
  {
    if path == [] then [] else
    match Child(Resolve(t), path[0])
    case Err(_) => [StepPlaces(Resolve(t), path[0])]
    case Ok(child) => [StepPlaces(Resolve(t), path[0])] + Places(child, path[1..])
  }

  // ---- lookup is navigation ----

  lemma FollowOfTree(section: seq<byte>, t: Tree)
    requires Parses(section, t)
    ensures !Resolve(t).Ref? && Parses(section, Resolve(t))
    ensures Follow(section, t.at) == Some(Reported(t))
  {
    hide Decode;
    DecodeOfTree(section, t);
    if t.Ref? {
      DecodeOfTree(section, t.target);
    }
  }

  lemma {:induction false} KidStarts(section: seq<byte>, from: nat, kids: Forest, end: nat, index: nat)
    requires Chain(section, from, kids, end) && index < Len(kids)
    ensures Kid(kids, index).at == Boundary(from, kids, index) && Parses(section, Kid(kids, index))
    decreases index
  {
    hide Parses;
    if index > 0 {
      KidStarts(section, kids.head.end, kids.tail, end, index - 1);
    }
  }

  lemma ConsEquals<T>(a: T, s: seq<T>, b: T, t: seq<T>)
    ensures [a] + s == [b] + t <==> a == b && s == t
  {
    if [a] + s == [b] + t {
      assert ([a] + s)[0] == ([b] + t)[0];
      assert ([a] + s)[1..] == s && ([b] + t)[1..] == t;
    }
  }

  /** Whether a lookup goes on to the next entry. */
  predicate Passes(key: Tree, text: seq<byte>) {
    var k := Resolve(key);
    k.Leaf? && k.scalar.Utf8? && k.scalar.text != text
  }

  lemma {:induction false} MapTrailIff(section: seq<byte>, from: nat, kids: Forest, end: nat, text: seq<byte>)
    requires Chain(section, from, kids, end) && from <= |section| && Len(kids) % 2 == 0
    ensures MapTrail(section, from, Len(kids) / 2, text) == MapPlaces(from, kids, text)
       <==> SkippablePairs(kids, KeysPassed(kids, text), 0)
    decreases kids
  {
    hide Decode, Parses, Skip, Skippable, InlineHeight, SkipSafe, Follow;
    match kids
    case Nil =>
    case Cons(key, Cons(value, rest)) =>
      FollowOfTree(section, key);
      TreeExtent(section, value);
      assert Chain(section, key.end, kids.tail, end);
      assert Len(rest) == Len(kids) - 2;
      if Passes(key, text) {
        SkipIsExactIff(section, value, 0);
        MapTrailIff(section, value.end, rest, end, text);
        var skipped := Skip(section, Decode(section, value.at).value, 0);
        if skipped.Some? {
          ConsEquals(from, MapTrail(section, skipped.value.end, Len(rest) / 2, text),
                     from, MapPlaces(value.end, rest, text));
        }
      }
  }

  lemma {:induction false} MapLookupIsFindKey(section: seq<byte>, from: nat, kids: Forest, end: nat, text: seq<byte>)
    requires Chain(section, from, kids, end) && from <= |section| && Len(kids) % 2 == 0
    ensures SkippablePairs(kids, KeysPassed(kids, text), 0)
        ==> Finds(LookupInMap(section, from, Len(kids) / 2, text), FindKey(kids, text))
    ensures FindKey(kids, text).Ok? ==> Parses(section, FindKey(kids, text).value)
    decreases kids
  {
    hide Decode, Parses, Skip, Skippable, InlineHeight, SkipSafe, Follow;
    match kids
    case Nil =>
    case Cons(key, Cons(value, rest)) =>
      FollowOfTree(section, key);
      FollowOfTree(section, value);
      TreeExtent(section, value);
      assert Chain(section, key.end, kids.tail, end);
      assert Len(rest) == Len(kids) - 2;
      if Passes(key, text) {
        SkipIsExactIff(section, value, 0);
        MapLookupIsFindKey(section, value.end, rest, end, text);
      }
  }

  lemma ElementLookupIff(section: seq<byte>, t: Tree, elem: PathElem)
    requires Parses(section, t) && t.Items?
    ensures Reported(t).next <= |section|
    ensures StepTrail(section, Reported(t), elem) == StepPlaces(t, elem) <==> ClearStep(t, elem)
    ensures ClearStep(t, elem) ==> Finds(LookupStep(section, Reported(t), elem), Child(t, elem))
    ensures Child(t, elem).Ok? ==> Parses(section, Child(t, elem).value)
  {
    hide Decode, Follow, SkipElements, SkippableElements, Boundary;
    TreeExtent(section, t);
    SelectIndexIsElement(t.kids, elem);
    if SelectIndex(Len(t.kids), elem).Ok? {
      var index := SelectIndex(Len(t.kids), elem).value;
      KidStarts(section, t.body, t.kids, t.end, index);
      ElementsLandIff(section, t.body, t.kids, t.end, index, 0);
      FollowOfTree(section, Kid(t.kids, index));
    }
  }

  /** One step of a lookup goes through the right offsets exactly when the step is
      clear, and then finds the right child. */
  lemma StepIff(section: seq<byte>, t: Tree, elem: PathElem)
    requires Parses(section, t) && !t.Ref?
    ensures Reported(t).next <= |section|
    ensures StepTrail(section, Reported(t), elem) == StepPlaces(t, elem) <==> ClearStep(t, elem)
    ensures ClearStep(t, elem) ==> Finds(LookupStep(section, Reported(t), elem), Child(t, elem))
    ensures Child(t, elem).Ok? ==> Parses(section, Child(t, elem).value)
  {
    hide Decode, Follow, MapTrail, MapPlaces, LookupInMap, FindKey, Finds, SkippablePairs;
    TreeExtent(section, t);
    match t
    case Leaf(_, _, _) => ScalarHasNoChild(t, elem);
    case Items(_, _, _, _) => ElementLookupIff(section, t, elem);
    case Entries(_, body, end, kids) =>
      MapTrailIff(section, body, kids, end, elem.text);
      MapLookupIsFindKey(section, body, kids, end, elem.text);
  }

  lemma ScalarHasNoChild(t: Tree, elem: PathElem)
    requires t.Leaf?
    ensures Finds(Err(LookupPathDoesNotMatchData), Child(t, elem))
  {
  }

  lemma StepIgnoresScalarNext(section: seq<byte>, t: Tree, elem: PathElem)
    requires !Resolve(t).Ref? && Reported(t).next <= |section| && Reported(Resolve(t)).next <= |section|
    ensures LookupStep(section, Reported(t), elem) == LookupStep(section, Reported(Resolve(t)), elem)
    ensures StepTrail(section, Reported(t), elem) == StepTrail(section, Reported(Resolve(t)), elem)
  {
  }

  lemma {:induction false} FollowPathIff(section: seq<byte>, t: Tree, path: seq<PathElem>)
    requires Parses(section, t)
    ensures !Resolve(t).Ref? && Reported(t).next <= |section|
    ensures PathTrail(section, Reported(t), path) == Places(t, path) <==> ClearPath(t, path)
    ensures ClearPath(t, path) ==> Finds(FollowPath(section, Reported(t), path), Navigate(t, path))
    decreases |path|
  {
    hide Decode, Follow, LookupStep, Child, Parses, StepTrail, StepPlaces, ClearStep;
    FollowOfTree(section, t);
    TreeExtent(section, t);
    var u := Resolve(t);
    TreeExtent(section, u);
    if path != [] {
      var elem, rest := path[0], path[1..];
      StepIff(section, u, elem);
      StepIgnoresScalarNext(section, t, elem);
      StepShowsFollowed(section, Reported(t), elem);
      var step, child := LookupStep(section, Reported(t), elem), Child(u, elem);
      if child.Ok? {
        FollowPathIff(section, child.value, rest);
      }
      ConsEquals(StepTrail(section, Reported(t), elem), if step.Ok? then PathTrail(section, step.value, rest) else [],
                 StepPlaces(u, elem), if child.Ok? then Places(child.value, rest) else []);
    }
  }

  /** On a well-formed value, looking up a path goes through exactly the offsets
      that navigating the tree goes through if and only if every value it steps
      over can be skipped. */
  lemma LookupIsOnTrackIff(section: seq<byte>, t: Tree, path: seq<PathElem>)
    requires Parses(section, t)
    ensures Trail(section, t.at, path) == Places(t, path) <==> ClearPath(t, path)
  {
    hide Decode, Follow, PathTrail, Places, ClearPath, Parses;
    FollowOfTree(section, t);
    FollowPathIff(section, t, path);
  }

  /** When every value that the path steps over can be skipped, looking up the
      path succeeds exactly when navigating the tree does, with the sub-value found
      there and otherwise with the same error. */
  lemma LookupIsNavigation(section: seq<byte>, t: Tree, path: seq<PathElem>)
    requires Parses(section, t) && ClearPath(t, path)
    ensures Finds(Lookup(section, t.at, path), Navigate(t, path))
  {
    hide Decode, Follow, FollowPath, Navigate, ClearPath, Parses;
    FollowOfTree(section, t);
    FollowPathIff(section, t, path);
  }

  // ---- trees in which every path is clear ----

  /** In every map, also behind pointers, no key is an in-place container with
      children; and no child is nested in place deeper than the skipper goes. The
      format's own rule that keys are strings implies the first; any number of
      levels may be reached through pointers. */
  predicate Searchable(t: Tree) {
    match t
    case Leaf(_, _, _) => true
    case Ref(_, _, target) => Searchable(target)
    case Items(_, _, _, kids) => SearchableIn(kids)
    case Entries(_, _, _, kids) => SearchableIn(kids) && KeysHeadOnly(kids)
  }

  predicate SearchableIn(kids: Forest) {
    match kids
    case Nil => true
    case Cons(head, tail) =>
      InlineHeight(head) <= MAXIMUM_DATA_STRUCTURE_DEPTH && Searchable(head) && SearchableIn(tail)
  }

  predicate KeysHeadOnly(kids: Forest) {
    match kids
    case Cons(key, Cons(_, rest)) => HeadOnly(key) && KeysHeadOnly(rest)
    case _ => true
  }

  lemma {:induction false} SearchableIsSafe(t: Tree)
    requires Searchable(t)
    ensures SkipSafe(t)
    decreases t
  {
    if t.Items? {
      ElementsAreSafe(t.kids, Len(t.kids));
    } else if t.Entries? {
      PairsAreSafe(t.kids, Len(t.kids) / 2);
    }
  }

  lemma {:induction false} ElementsAreSafe(kids: Forest, count: nat)
    requires SearchableIn(kids)
    ensures SafeElements(kids, count)
    decreases kids
  {
    if kids.Cons? && count > 0 {
      SearchableIsSafe(kids.head);
      ElementsAreSafe(kids.tail, count - 1);
    }
  }

  lemma {:induction false} PairsAreSafe(kids: Forest, count: nat)
    requires SearchableIn(kids) && KeysHeadOnly(kids)
    ensures SafePairs(kids, count)
    decreases kids
  {
    if kids.Cons? && kids.tail.Cons? && count > 0 {
      SearchableIsSafe(kids.tail.head);
      PairsAreSafe(kids.tail.tail, count - 1);
    }
  }

  lemma {:induction false} ElementsAreSkippable(kids: Forest, count: nat)
    requires SearchableIn(kids) && PairedIn(kids)
    ensures SkippableElements(kids, count, 0)
    decreases kids
  {
    hide Skippable, SkipSafe, InlineHeight, Searchable;
    if kids.Cons? && count > 0 {
      SearchableIsSafe(kids.head);
      SkippableIsSafeAndShallow(kids.head, 0);
      ElementsAreSkippable(kids.tail, count - 1);
    }
  }

  lemma {:induction false} PassedPairsAreSkippable(kids: Forest, text: seq<byte>)
    requires SearchableIn(kids) && PairedIn(kids)
    ensures SkippablePairs(kids, KeysPassed(kids, text), 0)
    decreases kids
  {
    hide Skippable, SkipSafe, InlineHeight, Searchable;
    if kids.Cons? && kids.tail.Cons? && KeysPassed(kids, text) > 0 {
      SearchableIsSafe(kids.tail.head);
      SkippableIsSafeAndShallow(kids.tail.head, 0);
      PassedPairsAreSkippable(kids.tail.tail, text);
    }
  }

  lemma {:induction false} KidIsSearchable(kids: Forest, index: nat)
    requires SearchableIn(kids) && index < Len(kids)
    ensures Searchable(Kid(kids, index))
    decreases index
  {
    if index > 0 {
      KidIsSearchable(kids.tail, index - 1);
    }
  }

  lemma {:induction false} FoundIsSearchable(kids: Forest, text: seq<byte>)
    requires SearchableIn(kids) && FindKey(kids, text).Ok?
    ensures Searchable(FindKey(kids, text).value)
    decreases kids
  {
    if kids.head.Leaf? || kids.head.Ref? {
      if FindKey(kids, text) != Ok(kids.tail.head) {
        FoundIsSearchable(kids.tail.tail, text);
      }
    }
  }

  /** In a searchable value every path is clear. */
  lemma {:induction false} SearchableIsClear(section: seq<byte>, t: Tree, path: seq<PathElem>)
    requires Parses(section, t) && Searchable(t)
    ensures ClearPath(t, path)
    decreases |path|
  {
    hide Parses, SkippableElements, SkippablePairs, Element, FindKey, SelectIndex;
    if path != [] {
      FollowOfTree(section, t);
      var u, elem := Resolve(t), path[0];
      ParsedIsPaired(section, u);
      StepIff(section, u, elem);
      if u.Items? {
        SelectIndexIsElement(u.kids, elem);
        if SelectIndex(Len(u.kids), elem).Ok? {
          ElementsAreSkippable(u.kids, SelectIndex(Len(u.kids), elem).value);
          KidIsSearchable(u.kids, SelectIndex(Len(u.kids), elem).value);
        }
      } else if u.Entries? {
        PassedPairsAreSkippable(u.kids, elem.text);
        if FindKey(u.kids, elem.text).Ok? {
          FoundIsSearchable(u.kids, elem.text);
        }
      }
      if Child(u, elem).Ok? {
        SearchableIsClear(section, Child(u, elem).value, path[1..]);
      }
    }
  }

  /** A value the flattener accepts is searchable when its maps have no in-place
      containers with children as keys. */
  lemma {:induction false} ListableIsSearchable(t: Tree)
    requires Height(t) <= MAXIMUM_DATA_STRUCTURE_DEPTH && OnlyPlainKeys(t)
    ensures Searchable(t)
    decreases t
  {
    match t
    case Leaf(_, _, _) =>
    case Ref(_, _, target) => ListableIsSearchable(target);
    case Items(_, _, _, kids) => ListableRunIsSearchable(kids);
    case Entries(_, _, _, kids) => ListableRunIsSearchable(kids);
  }

  lemma {:induction false} ListableRunIsSearchable(kids: Forest)
    requires MaxHeight(kids) <= MAXIMUM_DATA_STRUCTURE_DEPTH && OnlyPlainKeysIn(kids)
    ensures SearchableIn(kids)
    decreases kids
  {
    if kids.Cons? {
      InlineHeightIsSmaller(kids.head);
      ListableIsSearchable(kids.head);
      ListableRunIsSearchable(kids.tail);
    }
  }

  predicate OnlyPlainKeys(t: Tree) {
    match t
    case Leaf(_, _, _) => true
    case Ref(_, _, target) => OnlyPlainKeys(target)
    case Items(_, _, _, kids) => OnlyPlainKeysIn(kids)
    case Entries(_, _, _, kids) => OnlyPlainKeysIn(kids) && KeysHeadOnly(kids)
  }

  predicate OnlyPlainKeysIn(kids: Forest) {
    match kids
    case Nil => true
    case Cons(head, tail) => OnlyPlainKeys(head) && OnlyPlainKeysIn(tail)
  }

  /** {"a": {[""]: ""}, "b": ""}, with an array as an inner map key. */
  const HIDDEN_KEY: seq<byte> := [226, 65, 97, 225, 1, 4, 64, 64, 65, 98, 64]

  function HiddenKeyTree(): Tree {
    var innerKey := Items(4, 6, 7, Cons(Leaf(6, 7, Utf8([])), Nil));
    var inner := Entries(3, 4, 8, Cons(innerKey, Cons(Leaf(7, 8, Utf8([])), Nil)));
    Entries(0, 1, 11,
            Cons(Leaf(1, 3, Utf8([97])), Cons(inner, Cons(Leaf(8, 10, Utf8([98])), Cons(Leaf(10, 11, Utf8([])), Nil)))))
  }

  lemma HiddenKeyFields()
    ensures Decode(HIDDEN_KEY, 0) == Some(Decoded(Map(2), 0, 1))
    ensures Decode(HIDDEN_KEY, 1) == Some(Decoded(Plain(Utf8([97])), 1, 3))
    ensures Decode(HIDDEN_KEY, 3) == Some(Decoded(Map(1), 3, 4))
    ensures Decode(HIDDEN_KEY, 4) == Some(Decoded(Array(1), 4, 6))
  {
    hide Decode;
    SmallMap(HIDDEN_KEY, 0, 2);
    ShortString(HIDDEN_KEY, 1, 1);
    SmallMap(HIDDEN_KEY, 3, 1);
    SmallArray(HIDDEN_KEY, 4, 1);
    assert HIDDEN_KEY[2..3] == [97];
  }

  lemma HiddenKeyMoreFields()
    ensures Decode(HIDDEN_KEY, 6) == Some(Decoded(Plain(Utf8([])), 6, 7))
    ensures Decode(HIDDEN_KEY, 7) == Some(Decoded(Plain(Utf8([])), 7, 8))
    ensures Decode(HIDDEN_KEY, 8) == Some(Decoded(Plain(Utf8([98])), 8, 10))
    ensures Decode(HIDDEN_KEY, 10) == Some(Decoded(Plain(Utf8([])), 10, 11))
  {
    hide Decode;
    var s := HIDDEN_KEY;
    ShortString(s, 6, 0);
    ShortString(s, 7, 0);
    ShortString(s, 8, 1);
    ShortString(s, 10, 0);
    assert s[7..7] == [] && s[8..8] == [] && s[11..11] == [] && s[9..10] == [98];
  }

  lemma HiddenKeyIsThere(elem: PathElem)
    requires elem.text == [98]
    ensures Parses(HIDDEN_KEY, HiddenKeyTree()) && !Searchable(HiddenKeyTree())
    ensures Navigate(HiddenKeyTree(), [elem]) == Ok(Leaf(10, 11, Utf8([])))
  {
    hide Decode;
    HiddenKeyFields();
    HiddenKeyMoreFields();
    var s := HIDDEN_KEY;
    var first, last := Leaf(1, 3, Utf8([97])), Leaf(10, 11, Utf8([]));
    var innerKey := Items(4, 6, 7, Cons(Leaf(6, 7, Utf8([])), Nil));
    var inner := Entries(3, 4, 8, Cons(innerKey, Cons(Leaf(7, 8, Utf8([])), Nil)));
    var second := Leaf(8, 10, Utf8([98]));
    assert Chain(s, 6, innerKey.kids, 7);
    assert Chain(s, 4, inner.kids, 8);
    assert Chain(s, 8, Cons(second, Cons(last, Nil)), 11);
    assert Chain(s, 1, HiddenKeyTree().kids, 11);
    assert !Searchable(inner);
    assert FindKey(Cons(second, Cons(last, Nil)), [98]) == Ok(last);
    assert !SearchableIn(Cons(inner, Cons(second, Cons(last, Nil))));
    assert !SearchableIn(HiddenKeyTree().kids);
    assert Child(HiddenKeyTree(), elem) == Ok(last);
    assert [elem][1..] == [] && Navigate(last, []) == Ok(last);
  }

  lemma HiddenKeyIsMissed(elem: PathElem)
    requires elem.text == [98]
    ensures Lookup(HIDDEN_KEY, 0, [elem]) == Err(LookupPathDoesNotMatchData)
  {
    hide Decode;
    HiddenKeyFields();
    HiddenKeyMoreFields();
    var s := HIDDEN_KEY;
    assert SkipPairs(s, 7, 0, 1) == Some(Skipped(7, 0));
    assert Skip(s, Decode(s, 3).value, 0) == Some(Skipped(7, 2));
    assert LookupInMap(s, 10, 0, [98]) == Err(LookupPathDoesNotMatchData);
    assert LookupInMap(s, 7, 1, [98]) == Err(LookupPathDoesNotMatchData);
    assert LookupInMap(s, 1, 2, [98]) == Err(LookupPathDoesNotMatchData);
  }

  /** On a path that is not clear a key can be missed: the tree has a value for
      "b", and the lookup reports that there is none. */
  lemma ContainerKeyHidesLaterKeys(elem: PathElem)
    requires elem.text == [98]
    ensures Parses(HIDDEN_KEY, HiddenKeyTree()) && !Searchable(HiddenKeyTree())
    ensures Navigate(HiddenKeyTree(), [elem]) == Ok(Leaf(10, 11, Utf8([])))
    ensures Lookup(HIDDEN_KEY, 0, [elem]) == Err(LookupPathDoesNotMatchData)
    ensures !ClearPath(HiddenKeyTree(), [elem])
  {
    hide Decode, Parses, Searchable, Navigate, Lookup, ClearPath;
    HiddenKeyIsThere(elem);
    HiddenKeyIsMissed(elem);
    if ClearPath(HiddenKeyTree(), [elem]) {
      LookupIsNavigation(HIDDEN_KEY, HiddenKeyTree(), [elem]);
      assert false;
    }
  }
}
