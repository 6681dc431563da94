/** Machine-level vocabulary shared by every part of the model: bytes, the
    unsigned widths of the C code, status codes and big-endian numbers. */
module Base {
  const UINT32_LIMIT := 0x1_0000_0000
  const UINT64_LIMIT := 0x1_0000_0000_0000_0000

  const UINT128_LIMIT := UINT64_LIMIT * UINT64_LIMIT

  type byte = x: int | 0 <= x < 256
  type uint16 = x: int | 0 <= x < 0x1_0000
  type uint32 = x: int | 0 <= x < UINT32_LIMIT
  type uint64 = x: int | 0 <= x < UINT64_LIMIT

  datatype Option<+T> = None | Some(value: T)

  datatype Result<+T> = Ok(value: T) | Err(status: Status) {
    predicate IsFailure() {
      Err?
    }

    function PropagateFailure<U>(): Result<U>
      requires Err?
    {
      Err(status)
    }

    function Extract(): T
      requires Ok?
    {
      value
    }
  }

  /** The MMDB_* error codes that the modelled functions return. */
  datatype Status =
    | Success
    | CorruptSearchTree
    | InvalidMetadata
    | OutOfMemory
    | UnknownDatabaseFormat
    | InvalidData
    | InvalidLookupPath
    | LookupPathDoesNotMatchData
    | InvalidNodeNumber
    | Ipv6LookupInIpv4Database
    | InvalidNetworkAddress

  /** Subtraction of two uint32_t values, with C's wrap-around. */
  function Sub32(a: uint32, b: uint32): uint32 {
    if a >= b then a - b else a - b + UINT32_LIMIT
  }

  /** The number written by `bs`, most significant byte first. */
  function BigEndian(bs: seq<byte>): nat {
    if |bs| == 0 then 0 else BigEndian(bs[..|bs| - 1]) * 256 + bs[|bs| - 1]
  }

  function Power256(n: nat): (p: nat)
    ensures p > 0
  {
    if n == 0 then 1 else 256 * Power256(n - 1)
  }

  lemma {:induction false} Power256Monotone(m: nat, n: nat)
    requires m <= n
    ensures Power256(m) <= Power256(n)
  {
    if m < n {
      Power256Monotone(m, n - 1);
    }
  }

  lemma Power256Values()
    ensures Power256(1) == 0x100 && Power256(2) == 0x1_0000 && Power256(4) == UINT32_LIMIT
    ensures Power256(7) == 0x100_0000_0000_0000 && Power256(8) == UINT64_LIMIT
    ensures 256 * Power256(15) == Power256(16) == UINT128_LIMIT
  {
    assert Power256(3) == 0x100_0000;
    assert Power256(5) == 0x100_0000_0000;
    assert Power256(6) == 0x1_0000_0000_0000;
    assert Power256(9) == 256 * UINT64_LIMIT;
    assert Power256(10) == 0x1_0000 * UINT64_LIMIT;
    assert Power256(11) == 0x100_0000 * UINT64_LIMIT;
    assert Power256(12) == UINT32_LIMIT * UINT64_LIMIT;
    assert Power256(13) == 0x100_0000_0000 * UINT64_LIMIT;
    assert Power256(14) == 0x1_0000_0000_0000 * UINT64_LIMIT;
  }

  /** The `n` lowest bytes of `v`, most significant first. */
  function ToBytes(v: nat, n: nat): (bs: seq<byte>)
    ensures |bs| == n
  {
    if n == 0 then [] else ToBytes(v / 256, n - 1) + [v % 256]
  }

  lemma {:induction false} BigEndianBound(bs: seq<byte>)
    ensures BigEndian(bs) < Power256(|bs|)
  {
    if |bs| != 0 {
      BigEndianBound(bs[..|bs| - 1]);
    }
  }

  /** The first byte is the most significant one. */
  lemma {:induction false} BigEndianFirst(first: byte, bs: seq<byte>)
    ensures BigEndian([first] + bs) == first * Power256(|bs|) + BigEndian(bs)
    decreases |bs|
  {
    var all := [first] + bs;
    if bs == [] {
      assert all[..0] == [];
    } else {
      var front, last := bs[..|bs| - 1], bs[|bs| - 1];
      BigEndianFirst(first, front);
      assert all[..|all| - 1] == [first] + front;
      assert first * Power256(|bs|) == 256 * (first * Power256(|front|));
    }
  }

  lemma {:induction false} BytesOfBigEndian(bs: seq<byte>)
    ensures ToBytes(BigEndian(bs), |bs|) == bs
  {
    if |bs| != 0 {
      var front := bs[..|bs| - 1];
      BytesOfBigEndian(front);
      assert BigEndian(bs) / 256 == BigEndian(front);
      assert bs == front + [bs[|bs| - 1]];
    }
  }

  lemma {:induction false} BigEndianOfBytes(v: nat, n: nat)
    requires v < Power256(n)
    ensures BigEndian(ToBytes(v, n)) == v
  {
    if n != 0 {
      BigEndianOfBytes(v / 256, n - 1);
      assert ToBytes(v, n)[..n - 1] == ToBytes(v / 256, n - 1);
    }
  }
}
