/** The byte sequences that strict UTF-8 decodes: table 3-7 of the Unicode Standard. */
module StrictUtf8 {
  import opened Bytes

  predicate Continues(b: byte) {
    0x80 <= b <= 0xbf
  }

  /** How many bytes the character at `i` takes, or none if no well-formed one starts there. */
  function CharacterAt(d: seq<byte>, i: nat): (n: nat)
    requires i < |d|
    ensures i + n <= |d|
  {
    var (left, b) := (|d| - i, d[i]);
    if b <= 0x7f then 1
    else if 0xc2 <= b <= 0xdf && left >= 2 && Continues(d[i + 1]) then 2
    else if 0xe0 <= b <= 0xef && left >= 3 && Continues(d[i + 1]) && Continues(d[i + 2])
            && (b == 0xe0 ==> d[i + 1] >= 0xa0) && (b == 0xed ==> d[i + 1] <= 0x9f) then 3
    else if 0xf0 <= b <= 0xf4 && left >= 4 && Continues(d[i + 1]) && Continues(d[i + 2]) && Continues(d[i + 3])
            && (b == 0xf0 ==> d[i + 1] >= 0x90) && (b == 0xf4 ==> d[i + 1] <= 0x8f) then 4
    else 0
  }

  /** The byte at `i` is the second or a later one of a character that starts before it. */
  predicate Within(d: seq<byte>, i: nat)
    requires i < |d|
  {
    || (i >= 1 && CharacterAt(d, i - 1) > 1)
    || (i >= 2 && CharacterAt(d, i - 2) > 2)
    || (i >= 3 && CharacterAt(d, i - 3) > 3)
  }

  /** Every byte starts a character or belongs to one; a character's later bytes start none. */
  predicate IsUtf8(d: seq<byte>) {
    forall i :: 0 <= i < |d| ==> CharacterAt(d, i) > 0 || Within(d, i)
  }

  lemma AsciiIsUtf8(d: seq<byte>)
    requires forall i :: 0 <= i < |d| ==> d[i] < 0x80
    ensures IsUtf8(d)
  {
  }

  /** So a decoder that goes from character to character accepts it. */
  lemma DecodesLeftToRight(d: seq<byte>)
    requires d != []
    ensures IsUtf8(d) <==> CharacterAt(d, 0) > 0 && IsUtf8(d[CharacterAt(d, 0)..])
  {
    hide CharacterAt;
    var n := CharacterAt(d, 0);
    if n > 0 {
      LaterBytesStartNothing(d);
      var rest := d[n..];
      forall i | 0 <= i < |rest|
        ensures CharacterAt(rest, i) == CharacterAt(d, n + i)
      {
        SameCharacter(d, n, i);
      }
      forall i | 0 <= i < |rest|
        ensures Within(rest, i) <==> Within(d, n + i)
      {
      }
      forall i | n <= i < |d|
        ensures CharacterAt(d, i) > 0 || Within(d, i) <==> CharacterAt(rest, i - n) > 0 || Within(rest, i - n)
      {
      }
    }
  }

  lemma SameCharacter(d: seq<byte>, n: nat, i: nat)
    requires n + i < |d|
    ensures CharacterAt(d[n..], i) == CharacterAt(d, n + i)
  {
  }

  lemma LaterBytesStartNothing(d: seq<byte>)
    requires d != []
    ensures CharacterAt(d, 0) <= 4
    ensures forall i :: 0 < i < CharacterAt(d, 0) ==> CharacterAt(d, i) == 0 && Within(d, i)
  {
  }

  // -------------------------------------------------------- measured against RFC 3629

  /** A Unicode scalar value, written as section 3 of RFC 3629 lays it out. */
  predicate IsScalar(v: nat) {
    v < 0xd800 || 0xe000 <= v < 0x11_0000
  }

  function ScalarBytes(v: nat): (d: seq<byte>)
    requires IsScalar(v)
    ensures |d| > 0
  {
    if v < 0x80 then [v]
    else if v < 0x800 then [0xc0 + v / 64, 0x80 + v % 64]
    else if v < 0x1_0000 then [0xe0 + v / 4096, 0x80 + v / 64 % 64, 0x80 + v % 64]
    else [0xf0 + v / 262144, 0x80 + v / 4096 % 64, 0x80 + v / 64 % 64, 0x80 + v % 64]
  }

  lemma ScalarIsCharacter(v: nat, rest: seq<byte>)
    requires IsScalar(v)
    ensures CharacterAt(ScalarBytes(v) + rest, 0) == |ScalarBytes(v)|
  {
    if v >= 0x800 {
      Sixths(v);
    }
  }

  lemma Sixths(v: nat)
    ensures v == v / 262144 * 262144 + v / 4096 % 64 * 4096 + v / 64 % 64 * 64 + v % 64
    ensures v / 4096 == v / 262144 * 64 + v / 4096 % 64 && v / 64 == v / 4096 * 64 + v / 64 % 64
  {
    assert v / 64 / 64 == v / 4096 && v / 4096 / 64 == v / 262144;
  }

  /** The scalar value a well-formed character stands for. */
  lemma CharacterIsScalar(d: seq<byte>) returns (v: nat)
    requires d != [] && CharacterAt(d, 0) > 0
    ensures IsScalar(v) && d[..CharacterAt(d, 0)] == ScalarBytes(v)
  {
    var n := CharacterAt(d, 0);
    var a: int := d[0];
    if n == 1 {
      v := a;
    } else if n == 2 {
      var b: int := d[1];
      v := (a - 0xc0) * 64 + (b - 0x80);
    } else if n == 3 {
      var b: int, c: int := d[1], d[2];
      v := (a - 0xe0) * 4096 + (b - 0x80) * 64 + (c - 0x80);
      Three(a - 0xe0, b - 0x80, c - 0x80);
    } else {
      var b: int, c: int, e: int := d[1], d[2], d[3];
      v := (a - 0xf0) * 262144 + (b - 0x80) * 4096 + (c - 0x80) * 64 + (e - 0x80);
      Four(a - 0xf0, b - 0x80, c - 0x80, e - 0x80);
    }
  }

  lemma Three(a: nat, b: nat, c: nat)
    requires b < 64 && c < 64
    ensures var v := a * 4096 + b * 64 + c; v / 4096 == a && v / 64 % 64 == b && v % 64 == c
  {
    assert (a * 4096 + b * 64 + c) / 64 == a * 64 + b;
  }

  lemma Four(a: nat, b: nat, c: nat, e: nat)
    requires b < 64 && c < 64 && e < 64
    ensures var v := a * 262144 + b * 4096 + c * 64 + e;
            v / 262144 == a && v / 4096 % 64 == b && v / 64 % 64 == c && v % 64 == e
  {
    assert (a * 262144 + b * 4096 + c * 64 + e) / 4096 == a * 64 + b;
    assert (a * 262144 + b * 4096 + c * 64 + e) / 64 == a * 4096 + b * 64 + c;
  }

  /** A text decodes exactly when it is a row of written scalar values. */
  function TextOf(values: seq<nat>): seq<byte>
    requires forall i :: 0 <= i < |values| ==> IsScalar(values[i])
  {
    if values == [] then [] else ScalarBytes(values[0]) + TextOf(values[1..])
  }

  lemma {:induction false} TextDecodes(values: seq<nat>)
    requires forall i :: 0 <= i < |values| ==> IsScalar(values[i])
    ensures IsUtf8(TextOf(values))
    decreases |values|
  {
    hide CharacterAt, IsUtf8, ScalarBytes;
    if values == [] {
      EmptyDecodes();
    } else {
      var d, rest := TextOf(values), TextOf(values[1..]);
      TextDecodes(values[1..]);
      ScalarIsCharacter(values[0], rest);
      assert d[|ScalarBytes(values[0])|..] == rest;
      DecodesLeftToRight(d);
    }
  }

  lemma EmptyDecodes()
    ensures IsUtf8([])
  {
  }

  lemma {:induction false} DecodesExactly(d: seq<byte>)
    ensures IsUtf8(d) <==>
              exists values: seq<nat> :: (forall i :: 0 <= i < |values| ==> IsScalar(values[i])) && TextOf(values) == d
  {
    hide IsUtf8, TextOf;
    if IsUtf8(d) {
      var values := Decoded(d);
    }
    if values: seq<nat> :| (forall i :: 0 <= i < |values| ==> IsScalar(values[i])) && TextOf(values) == d {
      TextDecodes(values);
    }
  }

  lemma {:induction false} Decoded(d: seq<byte>) returns (values: seq<nat>)
    requires IsUtf8(d)
    ensures (forall i :: 0 <= i < |values| ==> IsScalar(values[i])) && TextOf(values) == d
    decreases |d|
  {
    hide CharacterAt, IsUtf8, ScalarBytes;
    if d == [] {
      values := [];
    } else {
      DecodesLeftToRight(d);
      var n := CharacterAt(d, 0);
      var v := CharacterIsScalar(d);
      var others := Decoded(d[n..]);
      values := [v] + others;
      assert values[1..] == others && d == d[..n] + d[n..];
    }
  }
}
