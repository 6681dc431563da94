/** C strings: text up to a NUL, and copies of it. */
module CStrings {
  import opened Base

  /** The part of `text` before its first NUL. */
  function Cut(text: seq<byte>): (s: seq<byte>)
    ensures s <= text && 0 !in s
    ensures |s| < |text| ==> text[|s|] == 0
  {
    if text == [] || text[0] == 0 then [] else [text[0]] + Cut(text[1..])
  }

  lemma {:induction false} CutIsUnique(text: seq<byte>, n: nat)
    requires n <= |text| && 0 !in text[..n] && (n == |text| || text[n] == 0)
    ensures Cut(text) == text[..n]
    decreases n
  {
    if n > 0 {
      assert text[0] == text[..n][0];
      assert text[1..][..n - 1] == text[..n][1..];
      CutIsUnique(text[1..], n - 1);
    }
  }

  /** mmdb_strnlen, on memory that may be read for `maxlen` bytes. */
  method StrNLen(s: seq<byte>, maxlen: nat) returns (len: nat)
    requires maxlen <= |s|
    ensures len == |Cut(s[..maxlen])|
  {
    len := 0;
    while len < maxlen
      invariant len <= maxlen && 0 !in s[..len]
    {
      if s[len] == 0 {
        break;
      }
      len := len + 1;
    }
    assert s[..maxlen][..len] == s[..len];
    CutIsUnique(s[..maxlen], len);
  }

  /** mmdb_strndup. Whether the copy can be allocated depends on what is copied. */
  method StrNDup(s: seq<byte>, n: nat, memory: seq<byte> -> bool) returns (copy: Option<seq<byte>>)
    requires n <= |s|
    ensures copy == if memory(Cut(s[..n])) then Some(Cut(s[..n])) else None
  {
    var len := StrNLen(s, n);
    assert s[..len] == s[..n][..len] == Cut(s[..n]);
    if !memory(s[..len]) {
      return None;
    }
    return Some(s[..len]);
  }
}
