/**
 The standard base64 alphabet with canonical padding, section 4 of RFC 4648, as the `base64`
 crate's `STANDARD` engine reads and writes it: padding is required and unused bits are zero.
 */
module Base64 {
  import opened Bytes
  import opened Wrappers

  type sextet = v: int | 0 <= v < 64

  const PAD: byte := 61

  function Letter(v: sextet): byte {
    if v < 26 then v + 65 else if v < 52 then v + 71 else if v < 62 then v - 4 else if v == 62 then 43 else 47
  }

  function ValueOf(c: byte): Option<sextet> {
    if 65 <= c <= 90 then Some(c - 65)
    else if 97 <= c <= 122 then Some(c - 71)
    else if 48 <= c <= 57 then Some(c + 4)
    else if c == 43 then Some(62)
    else if c == 47 then Some(63)
    else None
  }

  lemma LetterOf(v: sextet)
    ensures ValueOf(Letter(v)) == Some(v) && Letter(v) != PAD
  {
  }

  lemma LetterAgain(c: byte)
    requires ValueOf(c).Some?
    ensures Letter(ValueOf(c).value) == c
  {
  }

  lemma LetterValue()
    ensures forall v: sextet :: ValueOf(Letter(v)) == Some(v) && Letter(v) != PAD
    ensures forall c: byte :: ValueOf(c).Some? ==> Letter(ValueOf(c).value) == c
  {
    hide Letter, ValueOf;
    forall v: sextet ensures ValueOf(Letter(v)) == Some(v) && Letter(v) != PAD {
      LetterOf(v);
    }
    forall c: byte | ValueOf(c).Some? ensures Letter(ValueOf(c).value) == c {
      LetterAgain(c);
    }
  }

  // Three bytes and four sextets are the same twenty-four bits.

  function Sextet0(a: byte): sextet { a / 4 }

  function Sextet1(a: byte, b: byte): sextet { a % 4 * 16 + b / 16 }

  function Sextet2(b: byte, c: byte): sextet { b % 16 * 4 + c / 64 }

  function Sextet3(c: byte): sextet { c % 64 }

  function Byte0(p: int, q: int): (b: byte)
    requires 0 <= p < 64 && 0 <= q < 64
  {
    p * 4 + q / 16
  }

  function Byte1(q: int, r: int): (b: byte)
    requires 0 <= q < 64 && 0 <= r < 64
  {
    q % 16 * 16 + r / 4
  }

  function Byte2(r: int, s: int): (b: byte)
    requires 0 <= r < 64 && 0 <= s < 64
  {
    r % 4 * 64 + s
  }

  lemma Parts4(high: int, low: int)
    requires 0 <= low < 4
    ensures (high * 4 + low) / 4 == high && (high * 4 + low) % 4 == low
  {
  }

  lemma Parts16(high: int, low: int)
    requires 0 <= low < 16
    ensures (high * 16 + low) / 16 == high && (high * 16 + low) % 16 == low
  {
  }

  lemma Parts64(high: int, low: int)
    requires 0 <= low < 64
    ensures (high * 64 + low) / 64 == high && (high * 64 + low) % 64 == low
  {
  }

  lemma BytesOfSextets(a: byte, b: byte, c: byte)
    ensures Byte0(Sextet0(a), Sextet1(a, b)) == a
    ensures Byte1(Sextet1(a, b), Sextet2(b, c)) == b
    ensures Byte2(Sextet2(b, c), Sextet3(c)) == c
  {
    First(a, b);
    Second(a, b, c);
    Third(b, c);
  }

  lemma First(a: byte, b: byte)
    ensures Byte0(Sextet0(a), Sextet1(a, b)) == a
  {
    Parts16(a % 4, b / 16);
  }

  lemma Second(a: byte, b: byte, c: byte)
    ensures Byte1(Sextet1(a, b), Sextet2(b, c)) == b
  {
    Parts16(a % 4, b / 16);
    Parts4(b % 16, c / 64);
  }

  lemma Third(b: byte, c: byte)
    ensures Byte2(Sextet2(b, c), Sextet3(c)) == c
  {
    Parts4(b % 16, c / 64);
  }

  lemma SextetsOfBytes(p: sextet, q: sextet, r: sextet, s: sextet)
    ensures Sextet0(Byte0(p, q)) == p
    ensures Sextet1(Byte0(p, q), Byte1(q, r)) == q
    ensures Sextet2(Byte1(q, r), Byte2(r, s)) == r
    ensures Sextet3(Byte2(r, s)) == s
  {
    Zeroth(p, q);
    FirstAgain(p, q, r);
    SecondAgain(q, r, s);
    ThirdAgain(r, s);
  }

  lemma Zeroth(p: sextet, q: sextet)
    ensures Sextet0(Byte0(p, q)) == p
  {
    Parts4(p, q / 16);
  }

  lemma FirstAgain(p: sextet, q: sextet, r: sextet)
    ensures Sextet1(Byte0(p, q), Byte1(q, r)) == q
  {
    Parts4(p, q / 16);
    Parts16(q % 16, r / 4);
  }

  lemma SecondAgain(q: sextet, r: sextet, s: sextet)
    ensures Sextet2(Byte1(q, r), Byte2(r, s)) == r
  {
    Parts16(q % 16, r / 4);
    Parts64(r % 4, s);
  }

  lemma ThirdAgain(r: sextet, s: sextet)
    ensures Sextet3(Byte2(r, s)) == s
  {
    Parts64(r % 4, s);
  }

  /** A short last group leaves bits unused, which are zero. */
  lemma UnusedBits(a: byte, b: byte, q: sextet, r: sextet)
    ensures Sextet1(a, 0) % 16 == 0 && Sextet2(b, 0) % 4 == 0
    ensures q % 16 == 0 ==> Byte1(q, 0) == 0
    ensures r % 4 == 0 ==> Byte2(r, 0) == 0
  {
  }

  function Quad(a: byte, b: byte, c: byte): (q: seq<byte>)
    ensures |q| == 4
  {
    [Letter(Sextet0(a)), Letter(Sextet1(a, b)), Letter(Sextet2(b, c)), Letter(Sextet3(c))]
  }

  function Encode(d: seq<byte>): (text: seq<byte>)
    ensures |text| % 4 == 0
    ensures |text| == 0 <==> d == []
  {
    hide Letter, Quad, Sextet0, Sextet1, Sextet2, Sextet3;
    if |d| == 0 then []
    else if |d| == 1 then [Letter(Sextet0(d[0])), Letter(Sextet1(d[0], 0)), PAD, PAD]
    else if |d| == 2 then [Letter(Sextet0(d[0])), Letter(Sextet1(d[0], d[1])), Letter(Sextet2(d[1], 0)), PAD]
    else Quad(d[0], d[1], d[2]) + Encode(d[3..])
  }

  /** Four letters without padding: three bytes. */
  function Triple(a: byte, b: byte, c: byte, e: byte): (d: Option<seq<byte>>)
    ensures d.Some? ==> |d.value| == 3
  {
    var (p, q, r, s) := (ValueOf(a), ValueOf(b), ValueOf(c), ValueOf(e));
    if p.None? || q.None? || r.None? || s.None? then None
    else Some([Byte0(p.value, q.value), Byte1(q.value, r.value), Byte2(r.value, s.value)])
  }

  function Pair(a: byte, b: byte, c: byte): (d: Option<seq<byte>>)
    ensures d.Some? ==> |d.value| == 2
  {
    var (p, q, r) := (ValueOf(a), ValueOf(b), ValueOf(c));
    if p.None? || q.None? || r.None? || r.value % 4 != 0 then None
    else Some([Byte0(p.value, q.value), Byte1(q.value, r.value)])
  }

  function Single(a: byte, b: byte): (d: Option<seq<byte>>)
    ensures d.Some? ==> |d.value| == 1
  {
    var (p, q) := (ValueOf(a), ValueOf(b));
    if p.None? || q.None? || q.value % 16 != 0 then None else Some([Byte0(p.value, q.value)])
  }

  function Decode(text: seq<byte>): Option<seq<byte>> {
    if text == [] then Some([])
    else if |text| < 4 then None
    else if |text| == 4 && text[3] == PAD then
      if text[2] == PAD then Single(text[0], text[1]) else Pair(text[0], text[1], text[2])
    else
      var first := Triple(text[0], text[1], text[2], text[3]);
      var others := Decode(text[4..]);
      if first.None? || others.None? then None else Some(first.value + others.value)
  }

  lemma TripleOfQuad(a: byte, b: byte, c: byte)
    ensures var q := Quad(a, b, c); Triple(q[0], q[1], q[2], q[3]) == Some([a, b, c])
  {
    hide Letter, ValueOf, Sextet0, Sextet1, Sextet2, Sextet3, Byte0, Byte1, Byte2;
    LetterValue();
    BytesOfSextets(a, b, c);
  }

  lemma QuadOfTriple(a: byte, b: byte, c: byte, e: byte)
    requires Triple(a, b, c, e).Some?
    ensures var d := Triple(a, b, c, e).value; Quad(d[0], d[1], d[2]) == [a, b, c, e]
  {
    hide Letter, ValueOf, Sextet0, Sextet1, Sextet2, Sextet3, Byte0, Byte1, Byte2;
    LetterValue();
    SextetsOfBytes(ValueOf(a).value, ValueOf(b).value, ValueOf(c).value, ValueOf(e).value);
  }

  lemma ShortGroups(a: byte, b: byte)
    ensures var s := Encode([a]); Single(s[0], s[1]) == Some([a]) && s[2] == PAD && s[3] == PAD
    ensures var p := Encode([a, b]); Pair(p[0], p[1], p[2]) == Some([a, b]) && p[2] != PAD && p[3] == PAD
  {
    hide Letter, ValueOf, Sextet0, Sextet1, Sextet2, Sextet3, Byte0, Byte1, Byte2;
    LetterValue();
    BytesOfSextets(a, 0, 0);
    BytesOfSextets(a, b, 0);
    UnusedBits(a, b, 0, 0);
  }

  lemma ShortTexts(a: byte, b: byte, c: byte)
    ensures Single(a, b).Some? ==> Encode(Single(a, b).value) == [a, b, PAD, PAD]
    ensures Pair(a, b, c).Some? ==> Encode(Pair(a, b, c).value) == [a, b, c, PAD]
  {
    hide Letter, ValueOf, Sextet0, Sextet1, Sextet2, Sextet3, Byte0, Byte1, Byte2;
    LetterValue();
    if Single(a, b).Some? {
      SextetsOfBytes(ValueOf(a).value, ValueOf(b).value, 0, 0);
      UnusedBits(0, 0, ValueOf(b).value, 0);
    }
    if Pair(a, b, c).Some? {
      SextetsOfBytes(ValueOf(a).value, ValueOf(b).value, ValueOf(c).value, 0);
      UnusedBits(0, 0, 0, ValueOf(c).value);
    }
  }

  /** What is encoded is decoded to itself. */
  lemma {:induction false} DecodeOfEncode(d: seq<byte>)
    ensures Decode(Encode(d)) == Some(d)
  {
    hide Quad, Triple, Pair, Single, Letter, ValueOf;
    if |d| == 1 {
      ShortGroups(d[0], 0);
      assert d == [d[0]];
    } else if |d| == 2 {
      ShortGroups(d[0], d[1]);
      assert d == [d[0], d[1]];
    } else if |d| > 2 {
      TripleOfQuad(d[0], d[1], d[2]);
      QuadIsNotPadded(d[0], d[1], d[2]);
      DecodeOfEncode(d[3..]);
      assert Encode(d)[4..] == Encode(d[3..]);
      assert d == [d[0], d[1], d[2]] + d[3..];
    }
  }

  lemma QuadIsNotPadded(a: byte, b: byte, c: byte)
    ensures Quad(a, b, c)[3] != PAD
  {
    hide Letter;
    LetterValue();
  }

  /** Only the canonical text of some bytes is decoded to them. */
  lemma {:induction false} EncodeOfDecode(text: seq<byte>)
    requires Decode(text).Some?
    ensures Encode(Decode(text).value) == text
  {
    hide Quad, Triple, Pair, Single, Letter, ValueOf;
    if |text| == 4 && text[3] == PAD {
      ShortTexts(text[0], text[1], text[2]);
      assert text == [text[0], text[1], text[2], text[3]];
    } else if text != [] {
      var (first, others) := (Triple(text[0], text[1], text[2], text[3]).value, Decode(text[4..]).value);
      QuadOfTriple(text[0], text[1], text[2], text[3]);
      EncodeOfDecode(text[4..]);
      assert (first + others)[3..] == others;
      assert text == [text[0], text[1], text[2], text[3]] + text[4..];
    }
  }

  /** Decoding is exactly the inverse of encoding. */
  lemma DecodesExactly(text: seq<byte>, d: seq<byte>)
    ensures Decode(text) == Some(d) <==> text == Encode(d)
  {
    hide Encode, Decode;
    DecodeOfEncode(d);
    if Decode(text) == Some(d) {
      EncodeOfDecode(text);
    }
  }

  predicate InAlphabet(c: byte) {
    c == PAD || ValueOf(c).Some?
  }

  lemma {:induction false} OnlyAlphabet(d: seq<byte>)
    ensures forall i :: 0 <= i < |Encode(d)| ==> InAlphabet(Encode(d)[i])
  {
    hide Letter, ValueOf;
    LetterValue();
    if |d| > 2 {
      OnlyAlphabet(d[3..]);
    }
  }

  /** The letters are those of table 1 of RFC 4648, in its order. */
  lemma LettersInOrder(v: sextet)
    ensures v < 26 ==> Letter(v) == 'A' as int + v
    ensures 26 <= v < 52 ==> Letter(v) == 'a' as int + (v - 26)
    ensures 52 <= v < 62 ==> Letter(v) == '0' as int + (v - 52)
    ensures Letter(62) == '+' as int && Letter(63) == '/' as int && PAD == '=' as int
  {
  }

  /** Test vectors of section 10 of RFC 4648. */
  lemma TestVectors()
    ensures Encode([]) == []
    ensures Encode([0x66]) == [0x5a, 0x67, 0x3d, 0x3d]
    ensures Encode([0x66, 0x6f]) == [0x5a, 0x6d, 0x38, 0x3d]
    ensures Encode([0x66, 0x6f, 0x6f]) == [0x5a, 0x6d, 0x39, 0x76]
    ensures Encode([0x66, 0x6f, 0x6f, 0x62]) == [0x5a, 0x6d, 0x39, 0x76, 0x59, 0x67, 0x3d, 0x3d]
  {
    assert [0x66, 0x6f, 0x6f][3..] == [];
    var four: seq<byte> := [0x66, 0x6f, 0x6f, 0x62];
    assert four[3..] == [0x62];
  }
}
