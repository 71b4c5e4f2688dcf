/**
 Skipping annotations in dev/plugin_api_usage.py: two mutually recursive functions from offset to
 offset, measured against the encoding of section 4.7.16.1 of the Java Virtual Machine
 Specification.
 */
module Annotations {
  import opened AnnotationFormat
  import opened Bytes
  import opened Wrappers

  /** The tags of `BCDFIJSZsc`. */
  const CONSTANT_TAGS: set<int> :=
    {'B' as int, 'C' as int, 'D' as int, 'F' as int, 'I' as int, 'J' as int, 'S' as int, 'Z' as int, 's' as int, 'c' as int}
  const ENUM: byte := 'e' as int
  const NESTED: byte := '@' as int
  const ARRAY: byte := '[' as int

  // ------------------------------------------------------------------ the skipper

  /** The offset after one annotation, or nothing where the parser raises. */
  function SkipAnnotation(data: seq<byte>, offset: nat): (r: Option<nat>)
    ensures r.Some? ==> r.value >= offset + 4
    decreases |data| - offset, 0, 0
  {
    if offset + 4 > |data| then None else SkipPairs(data, offset + 4, U16(data, offset + 2))
  }

  function SkipPairs(data: seq<byte>, offset: nat, count: nat): (r: Option<nat>)
    ensures r.Some? ==> r.value >= offset
    decreases |data| - offset, 1, count
  {
    if count == 0 then Some(offset)
    else if offset + 2 >= |data| then None
    else
      var next := SkipElementValue(data, offset + 2);
      if next.None? then None else SkipPairs(data, next.value, count - 1)
  }

  function SkipElementValue(data: seq<byte>, offset: nat): (r: Option<nat>)
    ensures r.Some? ==> r.value > offset
    decreases |data| - offset, 0, 0
  {
    if offset >= |data| then None
    else
      var tag := data[offset];
      if tag in CONSTANT_TAGS then Some(offset + 3)
      else if tag == ENUM then Some(offset + 5)
      else if tag == NESTED then SkipAnnotation(data, offset + 1)
      else if tag == ARRAY then
        if offset + 3 > |data| then None else SkipValues(data, offset + 3, U16(data, offset + 1))
      else None
  }

  function SkipValues(data: seq<byte>, offset: nat, count: nat): (r: Option<nat>)
    ensures r.Some? ==> r.value >= offset
    decreases |data| - offset, 1, count
  {
    if count == 0 then Some(offset)
    else if offset >= |data| then None
    else
      var next := SkipElementValue(data, offset);
      if next.None? then None else SkipValues(data, next.value, count - 1)
  }

  // -------------------------------------------------------------- skipping is exact

  /** A tag and what follows it. */
  lemma TagInPlace(data: seq<byte>, at: nat, tag: byte, body: seq<byte>)
    requires Holds(data, at, [tag] + body)
    ensures at < |data| && data[at] == tag && Holds(data, at + 1, body)
  {
    HoldsParts(data, at, [tag], body);
    assert data[at] == data[at..at + 1][0];
  }

  /** For every nested value, the skipper lands right behind its encoding. */
  lemma {:induction false} SkipsValue(data: seq<byte>, at: nat, v: ElementValue)
    requires ValidValue(v) && Holds(data, at, EncodeValue(v))
    ensures SkipElementValue(data, at) == Some(at + |EncodeValue(v)|)
    decreases v, 1
  {
    hide Holds, U16, PackU16, KindTag, SkipAnnotation, SkipValues, EncodeAnnotation, EncodeValues;
    match v {
      case Constant(kind, index) =>
        TagInPlace(data, at, KindTag(kind), PackU16(index));
        KindsAreSkipped(kind);
      case EnumConstant(typeName, constantName) =>
        TagInPlace(data, at, 'e' as int, PackU16(typeName) + PackU16(constantName));
      case Nested(annotation) =>
        TagInPlace(data, at, '@' as int, EncodeAnnotation(annotation));
        SkipsAnnotation(data, at + 1, annotation);
      case Array(values) =>
        SkipsArray(data, at, values);
    }
  }

  /** The skipper knows the tag of every kind. */
  lemma KindsAreSkipped(kind: Kind)
    ensures KindTag(kind) in CONSTANT_TAGS
  {
  }

  lemma {:induction false} SkipsArray(data: seq<byte>, at: nat, values: seq<ElementValue>)
    requires ValidValue(Array(values)) && Holds(data, at, EncodeValue(Array(values)))
    ensures SkipElementValue(data, at) == Some(at + |EncodeValue(Array(values))|)
    decreases values, 1
  {
    hide U16, PackU16, SkipAnnotation, SkipValues, EncodeAnnotation, EncodeValues;
    var count := PackU16(|values|);
    TagInPlace(data, at, '[' as int, count + EncodeValues(values));
    HoldsParts(data, at + 1, count, EncodeValues(values));
    U16OfPack(data, at + 1, |values|);
    SkipsValues(data, at + 3, values);
  }

  lemma {:induction false} SkipsValues(data: seq<byte>, at: nat, values: seq<ElementValue>)
    requires (forall v :: v in values ==> ValidValue(v)) && Holds(data, at, EncodeValues(values))
    ensures SkipValues(data, at, |values|) == Some(at + |EncodeValues(values)|)
    decreases values, 0
  {
    hide SkipElementValue, EncodeValue, EncodePair, ValidValue, Holds;
    if |values| > 0 {
      HoldsParts(data, at, EncodeValue(values[0]), EncodeValues(values[1..]));
      SkipsValue(data, at, values[0]);
      SkipsValues(data, at + |EncodeValue(values[0])|, values[1..]);
    }
  }

  lemma {:induction false} SkipsAnnotation(data: seq<byte>, at: nat, a: Annotation)
    requires ValidAnnotation(a) && Holds(data, at, EncodeAnnotation(a))
    ensures SkipAnnotation(data, at) == Some(at + |EncodeAnnotation(a)|)
    decreases a, 1
  {
    hide U16, PackU16, SkipPairs, EncodePairs;
    HoldsParts(data, at, PackU16(a.typeIndex) + PackU16(|a.pairs|), EncodePairs(a.pairs));
    HoldsParts(data, at, PackU16(a.typeIndex), PackU16(|a.pairs|));
    U16OfPack(data, at + 2, |a.pairs|);
    SkipsPairs(data, at + 4, a.pairs);
  }

  lemma {:induction false} SkipsPairs(data: seq<byte>, at: nat, pairs: seq<Pair>)
    requires (forall p :: p in pairs ==> ValidValue(p.value)) && Holds(data, at, EncodePairs(pairs))
    ensures SkipPairs(data, at, |pairs|) == Some(at + |EncodePairs(pairs)|)
    decreases pairs, 0
  {
    hide SkipElementValue, EncodeValue, EncodePair, ValidValue, Holds;
    if |pairs| > 0 {
      var pair := pairs[0];
      HoldsParts(data, at, EncodePair(pair), EncodePairs(pairs[1..]));
      SkipsPair(data, at, pair);
      SkipsPairs(data, at + |EncodePair(pair)|, pairs[1..]);
    }
  }

  lemma {:induction false} SkipsPair(data: seq<byte>, at: nat, pair: Pair)
    requires ValidValue(pair.value) && Holds(data, at, EncodePair(pair))
    ensures at + 2 < |data|
    ensures SkipElementValue(data, at + 2) == Some(at + |EncodePair(pair)|)
    decreases pair, 1
  {
    hide SkipElementValue, ValidValue, PackU16;
    HoldsParts(data, at, PackU16(pair.name), EncodeValue(pair.value));
    SomeBytes(pair.value);
    SkipsValue(data, at + 2, pair.value);
  }

  lemma SomeBytes(v: ElementValue)
    requires ValidValue(v)
    ensures |EncodeValue(v)| > 0
  {
    hide EncodeValues, EncodeAnnotation;
  }
}
