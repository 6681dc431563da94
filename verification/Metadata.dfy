/** find_metadata and the mmdb_memmem it is built on: the metadata section starts
    after the last marker in the final 128 KiB of the file. */
module Metadata {
  import opened Base
  import opened Wire

  const METADATA_BLOCK_MAX_SIZE := 131072

  /** "\xab\xcd\xefMaxMind.com" */
  const METADATA_MARKER: seq<byte> := [171, 205, 239, 77, 97, 120, 77, 105, 110, 100, 46, 99, 111, 109]

  // ---- searching memory ----

  /** memchr */
  method MemChr(l: seq<byte>, c: byte) returns (r: Option<nat>)
    ensures r.None? ==> c !in l
    ensures r.Some? ==> r.value < |l| && l[r.value] == c && c !in l[..r.value]
  {
    for i := 0 to |l|
      invariant c !in l[..i]
    {
      if l[i] == c {
        return Some(i);
      }
    }
    return None;
  }

  /** mmdb_memmem: the first occurrence of `s` in `l`; an empty `s` is not found. */
  method MemMem(l: seq<byte>, s: seq<byte>) returns (r: Option<nat>)
    ensures r.Some? ==> s != [] && Holds(l, r.value, s) && forall i: nat | i < r.value :: !Holds(l, i, s)
    ensures r.None? && s != [] ==> forall i: nat :: !Holds(l, i, s)
  {
    if |l| == 0 || |s| == 0 {
      return None;
    }
    if |l| < |s| {
      return None;
    }
    if |s| == 1 {
      r := MemChr(l, s[0]);
      forall i: nat | Holds(l, i, s) ensures r.Some? && r.value <= i {
        assert l[i..i + 1][0] == l[i];
      }
      return r;
    }
    var last := |l| - |s|;
    var cur := 0;
    while cur <= last
      invariant 0 <= cur <= last + 1
      invariant forall i: nat | i < cur :: !Holds(l, i, s)
    {
      if l[cur] == s[0] && l[cur..cur + |s|] == s {
        return Some(cur);
      }
      cur := cur + 1;
    }
    return None;
  }

  // ---- locating the metadata ----

  /** Two occurrences of the marker do not overlap: its first byte does not come
      again inside it. */
  lemma MarkersDoNotOverlap(file: seq<byte>, i: nat, j: nat)
    requires Holds(file, i, METADATA_MARKER) && Holds(file, j, METADATA_MARKER) && i < j
    ensures i + |METADATA_MARKER| <= j
  {
    var m := METADATA_MARKER;
    assert file[j] == file[j..j + |m|][0] == m[0];
    if j - i < |m| {
      assert false;
    }
  }

  lemma HoldsInSuffix(file: seq<byte>, from: nat, i: nat, bs: seq<byte>)
    requires from <= |file|
    ensures Holds(file[from..], i, bs) <==> Holds(file, from + i, bs)
  {
    if from + i + |bs| <= |file| {
      assert file[from..][i..i + |bs|] == file[from + i..from + i + |bs|];
    }
  }

  /** Where find_metadata starts searching. */
  function WindowStart(file: seq<byte>): nat {
    if |file| > METADATA_BLOCK_MAX_SIZE then |file| - METADATA_BLOCK_MAX_SIZE else 0
  }

  ghost predicate MarkerAt(file: seq<byte>, i: nat) {
    WindowStart(file) <= i && Holds(file, i, METADATA_MARKER)
  }

  ghost predicate LastMarkerAt(file: seq<byte>, i: nat) {
    MarkerAt(file, i) && forall j: nat | j > i :: !MarkerAt(file, j)
  }

  /** Every marker from `from` on is at or after `hit`, or there is none at all:
      what one call of mmdb_memmem tells. */
  ghost predicate NextMarker(file: seq<byte>, from: nat, hit: Option<nat>) {
    match hit
    case None => forall i: nat | i >= from :: !Holds(file, i, METADATA_MARKER)
    case Some(at) =>
      && at >= from && Holds(file, at, METADATA_MARKER)
      && forall i: nat | from <= i < at :: !Holds(file, i, METADATA_MARKER)
  }

  /** The search for one more marker. */
  method SearchOnce(file: seq<byte>, searchArea: nat, maxSize: nat) returns (tmp: Option<nat>)
    requires searchArea + maxSize == |file|
    ensures NextMarker(file, searchArea, tmp)
  {
    var r := MemMem(file[searchArea..searchArea + maxSize], METADATA_MARKER);
    assert file[searchArea..searchArea + maxSize] == file[searchArea..];
    forall i: nat | i >= searchArea
      ensures Holds(file, i, METADATA_MARKER) <==> Holds(file[searchArea..], i - searchArea, METADATA_MARKER)
    {
      HoldsInSuffix(file, searchArea, i - searchArea, METADATA_MARKER);
    }
    return match r case None => None case Some(at) => Some(searchArea + at);
  }

  /** Each marker is wholly before `searchArea`, or may still be found after it. */
  ghost predicate Split(file: seq<byte>, searchArea: nat) {
    forall i: nat | MarkerAt(file, i) :: i + |METADATA_MARKER| <= searchArea || i >= searchArea
  }

  lemma SplitAfterHit(file: seq<byte>, from: nat, hit: nat)
    requires Split(file, from) && NextMarker(file, from, Some(hit))
    ensures Split(file, hit + |METADATA_MARKER|)
  {
    forall i: nat | MarkerAt(file, i) ensures i <= hit || i >= hit + |METADATA_MARKER| {
      if i > hit {
        MarkersDoNotOverlap(file, hit, i);
      }
    }
  }

  /** find_metadata. The result is the offset of the metadata section. */
  method FindMetadata(file: seq<byte>) returns (metadata: Option<nat>, metadataSize: uint32)
    ensures metadata.Some? ==>
              && |METADATA_MARKER| <= metadata.value < |file|
              && LastMarkerAt(file, metadata.value - |METADATA_MARKER|)
              && metadataSize == |file| - metadata.value
    ensures metadata.None? <==>
              forall i: nat | LastMarkerAt(file, i) :: i + |METADATA_MARKER| == |file|
  {
    hide Holds;
    var markerLen := |METADATA_MARKER|;
    var maxSize := if |file| > METADATA_BLOCK_MAX_SIZE then METADATA_BLOCK_MAX_SIZE else |file|;
    var searchArea := |file| - maxSize;
    var start := searchArea;
    metadataSize := 0;
    var found := true;
    while found
      invariant start == WindowStart(file) <= searchArea && 0 <= maxSize && searchArea + maxSize == |file|
      invariant maxSize <= METADATA_BLOCK_MAX_SIZE
      invariant searchArea > start ==> searchArea >= start + markerLen && MarkerAt(file, searchArea - markerLen)
      invariant Split(file, searchArea)
      invariant !found ==> NextMarker(file, searchArea, None)
      decreases maxSize, found
    {
      var tmp := SearchOnce(file, searchArea, maxSize);
      found := tmp.Some?;
      if tmp.Some? {
        HitFits(file, tmp.value);
        SplitAfterHit(file, searchArea, tmp.value);
        maxSize := maxSize - (tmp.value - searchArea);
        searchArea := tmp.value;
        maxSize := maxSize - markerLen;
        searchArea := searchArea + markerLen;
      }
    }
    if searchArea > start {
      assert LastMarkerAt(file, searchArea - markerLen);
    }
    if searchArea == start || maxSize <= 0 {
      return None, metadataSize;
    }
    metadataSize := maxSize;
    return Some(searchArea), metadataSize;
  }

  lemma HitFits(file: seq<byte>, at: nat)
    requires Holds(file, at, METADATA_MARKER)
    ensures at + |METADATA_MARKER| <= |file|
  {
  }

  /** In a file built as anything, a marker, and metadata without a marker of its
      own, that marker is the last one, so the metadata is what is found. */
  lemma MarkerBeforeMetadataIsLast(before: seq<byte>, metadata: seq<byte>)
    requires |METADATA_MARKER| + |metadata| <= METADATA_BLOCK_MAX_SIZE
    requires forall i: nat :: !Holds(metadata, i, METADATA_MARKER)
    ensures LastMarkerAt(before + METADATA_MARKER + metadata, |before|)
  {
    var file := before + METADATA_MARKER + metadata;
    var end := |before| + |METADATA_MARKER|;
    assert file[|before|..end] == METADATA_MARKER;
    assert file[end..] == metadata;
    forall j: nat | j > |before| ensures !MarkerAt(file, j) {
      if MarkerAt(file, j) {
        MarkersDoNotOverlap(file, |before|, j);
        HoldsInSuffix(file, end, j - end, METADATA_MARKER);
        assert false;
      }
    }
  }

  /** The marker is the bytes 0xab 0xcd 0xef and the text "MaxMind.com". */
  lemma MarkerText()
    ensures METADATA_MARKER == [0xab, 0xcd, 0xef] + seq(11, i requires 0 <= i < 11 => "MaxMind.com"[i] as int % 256)
  {
    assert "MaxMind.com"[0] as int == 77 && "MaxMind.com"[7] as int == 46;
  }

  /** A marker counts exactly when it starts in the final 131072 bytes of the file, or
      anywhere in a shorter one. */
  lemma OnlyTheEndIsSearched(file: seq<byte>, i: nat)
    requires Holds(file, i, METADATA_MARKER)
    ensures MarkerAt(file, i) <==> |file| - i <= 131072
  {
  }
}
