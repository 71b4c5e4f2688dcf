/** Big-endian integers as Python's `struct` packs and unpacks them. */
module Bytes {
  type byte = b: int | 0 <= b < 256

  type s32 = n: int | -0x8000_0000 <= n < 0x8000_0000

  type u2 = n: int | 0 <= n < 0x1_0000

  function U16(d: seq<byte>, at: nat): (n: nat)
    requires at + 2 <= |d|
    ensures n < 0x1_0000
  {
    (d[at] as int) * 256 + d[at + 1]
  }

  function U32(d: seq<byte>, at: nat): (n: nat)
    requires at + 4 <= |d|
    ensures n < 0x1_0000_0000
  {
    U16(d, at) * 0x1_0000 + U16(d, at + 2)
  }

  /** Two's complement. */
  function S32(d: seq<byte>, at: nat): s32
    requires at + 4 <= |d|
  {
    if U32(d, at) < 0x8000_0000 then U32(d, at) else U32(d, at) - 0x1_0000_0000
  }

  function PackU16(n: nat): (d: seq<byte>)
    requires n < 0x1_0000
    ensures |d| == 2
  {
    [n / 256, n % 256]
  }

  function PackU32(n: nat): (d: seq<byte>)
    requires n < 0x1_0000_0000
    ensures |d| == 4
  {
    PackU16(n / 0x1_0000) + PackU16(n % 0x1_0000)
  }

  function PackS32(n: s32): (d: seq<byte>)
    ensures |d| == 4
  {
    PackU32(if n < 0 then n + 0x1_0000_0000 else n)
  }

  lemma U16OfPack(d: seq<byte>, at: nat, n: nat)
    requires n < 0x1_0000 && at + 2 <= |d| && d[at..at + 2] == PackU16(n)
    ensures U16(d, at) == n
  {
    assert d[at] == d[at..at + 2][0] && d[at + 1] == d[at..at + 2][1];
  }

  lemma U32OfPack(d: seq<byte>, at: nat, n: nat)
    requires n < 0x1_0000_0000 && at + 4 <= |d| && d[at..at + 4] == PackU32(n)
    ensures U32(d, at) == n
  {
    var part := d[at..at + 4];
    assert part[..2] == PackU16(n / 0x1_0000) && part[2..] == PackU16(n % 0x1_0000);
    assert d[at..at + 2] == part[..2] && d[at + 2..at + 4] == part[2..];
    U16OfPack(d, at, n / 0x1_0000);
    U16OfPack(d, at + 2, n % 0x1_0000);
  }

  lemma S32OfPack(d: seq<byte>, at: nat, n: s32)
    requires at + 4 <= |d| && d[at..at + 4] == PackS32(n)
    ensures S32(d, at) == n
  {
    U32OfPack(d, at, if n < 0 then n + 0x1_0000_0000 else n);
  }

  /** The middle part of what stands at `at`. */
  lemma PartAt(d: seq<byte>, at: nat, a: seq<byte>, b: seq<byte>, c: seq<byte>)
    requires at <= |d| && d[at..] == a + b + c
    ensures at + |a| + |b| <= |d| && d[at + |a|..at + |a| + |b|] == b
  {
    assert d[at + |a|..at + |a| + |b|] == d[at..][|a|..|a| + |b|];
  }

  lemma PackOfU16(d: seq<byte>, at: nat)
    requires at + 2 <= |d|
    ensures PackU16(U16(d, at)) == d[at..at + 2]
  {
  }

  lemma PackOfS32(d: seq<byte>, at: nat)
    requires at + 4 <= |d|
    ensures PackS32(S32(d, at)) == d[at..at + 4]
  {
    PackOfU16(d, at);
    PackOfU16(d, at + 2);
    assert U32(d, at) / 0x1_0000 == U16(d, at) && U32(d, at) % 0x1_0000 == U16(d, at + 2);
  }

  /** `part` stands in `data` at `at`. */
  ghost predicate Holds(data: seq<byte>, at: nat, part: seq<byte>) {
    at + |part| <= |data| && data[at..at + |part|] == part
  }

  lemma HoldsParts(data: seq<byte>, at: nat, a: seq<byte>, b: seq<byte>)
    requires Holds(data, at, a + b)
    ensures Holds(data, at, a) && Holds(data, at + |a|, b)
  {
    var whole := data[at..at + |a + b|];
    assert whole[..|a|] == data[at..at + |a|] && whole[|a|..] == data[at + |a|..at + |a| + |b|];
  }

  /** A Python slice: out-of-range bounds shorten it. */
  function Slice(d: seq<byte>, from: nat, to: nat): seq<byte>
    requires from <= to
  {
    if from >= |d| then [] else if to >= |d| then d[from..] else d[from..to]
  }

  lemma SliceOfHeld(data: seq<byte>, at: nat, part: seq<byte>)
    requires Holds(data, at, part)
    ensures Slice(data, at, at + |part|) == part
  {
  }

  /** The most significant byte comes first, and the sign is in its top bit. */
  lemma BigEndian()
    ensures U16([0x12, 0x34], 0) == 0x1234 && PackU16(0x1234) == [0x12, 0x34]
    ensures U32([0x12, 0x34, 0x56, 0x78], 0) == 0x12345678 && PackU32(0x12345678) == [0x12, 0x34, 0x56, 0x78]
    ensures S32([0xff, 0xff, 0xff, 0xfe], 0) == -2 && PackS32(-2) == [0xff, 0xff, 0xff, 0xfe]
    ensures S32([0x80, 0, 0, 0], 0) == -0x8000_0000 && S32([0x7f, 0xff, 0xff, 0xff], 0) == 0x7fff_ffff
  {
  }
}
