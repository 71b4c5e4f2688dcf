/**
 `skip_nbt` of dev/join.py: stepping over one NBT value without decoding it. Python slices never
 fail, so truncated or negative lengths are followed exactly as the slices follow them; only an
 index or an unpack past the end, and an unknown tag, raise (`None` here).
 */
module NbtSkipping {
  import opened Bytes
  import opened NbtFormat
  import opened Wrappers

  const TAG_END := 0
  const TAG_BYTE_ARRAY := 7
  const TAG_STRING := 8
  const TAG_LIST := 9
  const TAG_COMPOUND := 10
  const TAG_INT_ARRAY := 11
  const TAG_LONG_ARRAY := 12

  /** `NBT_FIXED_SIZES`, 0 for a tag that has none. */
  function FixedSize(tag: byte): nat {
    match tag
    case 1 => 1
    case 2 => 2
    case 3 => 4
    case 4 => 8
    case 5 => 4
    case 6 => 8
    case _ => 0
  }

  /** The Python slice `data[from:]`, for a negative start as well. */
  function Tail(data: Data, from: int): (rest: Data)
    ensures Follows(Some(rest), data)
  {
    if from >= |data| then [] else if from >= 0 then data[from..] else if |data| + from <= 0 then data else data[|data| + from..]
  }

  /** What follows a value: always a suffix of what it was read from. */
  ghost predicate Follows(rest: Option<Data>, data: Data) {
    rest.Some? ==> |rest.value| <= |data| && rest.value == data[|data| - |rest.value|..]
  }

  lemma FollowsOn(rest: Option<Data>, middle: Data, data: Data)
    requires Follows(rest, middle) && Follows(Some(middle), data)
    ensures Follows(rest, data)
  {
  }

  /** A negative length runs a Python `range` no times. */
  function ListLength(data: Data): nat
    requires |data| >= 5
  {
    var length: int := S32(data, 1);
    if length < 0 then 0 else length
  }

  /** Past one value of the given tag. */
  function Skipped(data: Data, tag: byte): (rest: Option<Data>)
    ensures Follows(rest, data)
    decreases |data|, 1, 0
  {
    if tag == TAG_END then Some(data)
    else if FixedSize(tag) > 0 then Some(Tail(data, FixedSize(tag)))
    else if tag == TAG_STRING then (if |data| < 2 then None else Some(Tail(data, 2 + U16(data, 0))))
    else if tag == TAG_BYTE_ARRAY then (if |data| < 4 then None else Some(Tail(data, 4 + S32(data, 0))))
    else if tag == TAG_INT_ARRAY then (if |data| < 4 then None else Some(Tail(data, 4 + S32(data, 0) * 4)))
    else if tag == TAG_LONG_ARRAY then (if |data| < 4 then None else Some(Tail(data, 4 + S32(data, 0) * 8)))
    else if tag == TAG_LIST then
      (if |data| < 5 then None else SkippedElements(data[5..], data[0], ListLength(data)))
    else if tag == TAG_COMPOUND then SkippedEntries(data)
    else None
  }

  /** Past `count` values of one tag. */
  function SkippedElements(data: Data, tag: byte, count: nat): (rest: Option<Data>)
    ensures Follows(rest, data)
    decreases |data|, 2, count
  {
    if count == 0 then Some(data)
    else
      var first := Skipped(data, tag);
      if first.None? then None
      else
        var rest := SkippedElements(first.value, tag, count - 1);
        FollowsOn(rest, first.value, data);
        rest
  }

  /** Past the entries of a compound and the end tag after them. */
  function SkippedEntries(data: Data): (rest: Option<Data>)
    ensures Follows(rest, data)
    decreases |data|, 0, 0
  {
    if data == [] then None
    else if data[0] == TAG_END then Some(data[1..])
    else if |data| < 3 then None
    else
      var value := Tail(data[1..], 2 + U16(data, 1));
      var first := Skipped(value, data[0]);
      if first.None? then None
      else
        FollowsOn(first, value, data);
        var rest := SkippedEntries(first.value);
        FollowsOn(rest, first.value, data);
        rest
  }

  /** Past an unnamed value that starts with its tag. */
  function SkippedRoot(data: Data): Option<Data> {
    if data == [] then None else Skipped(data[1..], data[0])
  }

  lemma ListSkipped(data: Data)
    ensures Skipped(data, TAG_LIST) == if |data| < 5 then None else SkippedElements(data[5..], data[0], ListLength(data))
  {
  }

  lemma ElementSkipped(data: Data, tag: byte, count: nat)
    ensures count == 0 ==> SkippedElements(data, tag, count) == Some(data)
    ensures count > 0 ==>
              SkippedElements(data, tag, count)
              == var first := Skipped(data, tag); if first.None? then None else SkippedElements(first.value, tag, count - 1)
    ensures Skipped(data, tag).Some? ==> |Skipped(data, tag).value| <= |data|
  {
  }

  /** `skip_nbt` with a tag. */
  method SkipNbt(data: Data, tag: byte) returns (rest: Option<Data>)
    ensures rest == Skipped(data, tag)
    decreases |data|, 1
  {
    if tag == TAG_END {
      return Some(data);
    }
    var fixed := FixedSize(tag);
    if fixed > 0 {
      return Some(Tail(data, fixed));
    }
    if tag == TAG_STRING {
      return if |data| < 2 then None else Some(Tail(data, 2 + U16(data, 0)));
    }
    if tag == TAG_BYTE_ARRAY {
      return if |data| < 4 then None else Some(Tail(data, 4 + S32(data, 0)));
    }
    if tag == TAG_INT_ARRAY {
      return if |data| < 4 then None else Some(Tail(data, 4 + S32(data, 0) * 4));
    }
    if tag == TAG_LONG_ARRAY {
      return if |data| < 4 then None else Some(Tail(data, 4 + S32(data, 0) * 8));
    }
    if tag == TAG_LIST {
      rest := SkipList(data);
      return;
    }
    if tag == TAG_COMPOUND {
      rest := SkipCompound(data);
      return;
    }
    rest := None;
  }

  /** The TAG_List branch. */
  method SkipList(data: Data) returns (rest: Option<Data>)
    ensures rest == Skipped(data, TAG_LIST)
    decreases |data|, 0
  {
    hide Skipped, SkippedElements, Follows;
    ListSkipped(data);
    if |data| < 5 {
      return None;
    }
    var elementType := data[0];
    var length: int := S32(data, 1);
    var left := data[5..];
    var i := 0;
    while i < length
      invariant i <= ListLength(data)
      invariant |left| < |data|
      invariant Skipped(data, TAG_LIST) == SkippedElements(left, elementType, ListLength(data) - i)
    {
      ElementSkipped(left, elementType, ListLength(data) - i);
      var next := SkipNbt(left, elementType);
      if next.None? {
        return None;
      }
      left, i := next.value, i + 1;
    }
    ElementSkipped(left, elementType, ListLength(data) - i);
    rest := Some(left);
  }

  /** The TAG_Compound branch. */
  method SkipCompound(data: Data) returns (rest: Option<Data>)
    ensures rest == SkippedEntries(data)
    decreases |data|, 0
  {
    var left := data;
    while true
      invariant |left| <= |data|
      invariant SkippedEntries(data) == SkippedEntries(left)
      decreases |left|
    {
      if left == [] {
        return None;
      }
      if left[0] == TAG_END {
        return Some(left[1..]);
      }
      if |left| < 3 {
        return None;
      }
      var next := SkipNbt(Tail(left[1..], 2 + U16(left, 1)), left[0]);
      if next.None? {
        return None;
      }
      left := next.value;
    }
  }

  // ------------------------------------------------------------- skipping is exact

  lemma TailPast(head: Data, rest: Data)
    ensures Tail(head + rest, |head|) == rest
  {
  }

  lemma StringSkipped(text: Data, rest: Data)
    requires |text| < 0x1_0000
    ensures Skipped(PackU16(|text|) + text + rest, TAG_STRING) == Some(rest)
  {
    hide Skipped, PackU16, U16, Tail, Follows;
    var head := PackU16(|text|) + text;
    assert (head + rest)[0..2] == PackU16(|text|);
    U16OfPack(head + rest, 0, |text|);
    TailPast(head, rest);
    CountedSkipped(head + rest);
  }

  lemma CountedSkipped(data: Data)
    ensures |data| >= 2 ==> Skipped(data, TAG_STRING) == Some(Tail(data, 2 + U16(data, 0)))
    ensures |data| >= 4 ==> Skipped(data, TAG_BYTE_ARRAY) == Some(Tail(data, 4 + S32(data, 0)))
    ensures |data| >= 4 ==> Skipped(data, TAG_INT_ARRAY) == Some(Tail(data, 4 + S32(data, 0) * 4))
    ensures |data| >= 4 ==> Skipped(data, TAG_LONG_ARRAY) == Some(Tail(data, 4 + S32(data, 0) * 8))
  {
    hide SkippedElements, SkippedEntries, U16, S32, Tail, Follows;
  }

  /** The length field in front of an array or a list. */
  lemma LengthAt(data: Data, at: nat, length: nat, rest: Data)
    requires length < 0x8000_0000 && at + 4 <= |data| && data[at..] == PackS32(length) + rest
    ensures S32(data, at) == length
  {
    assert data[at..at + 4] == data[at..][..4];
    S32OfPack(data, at, length);
  }

  lemma ArraySkipped(tag: byte, width: nat, count: nat, items: Data, rest: Data)
    requires count < 0x8000_0000 && |items| == width * count
    requires (tag == TAG_BYTE_ARRAY && width == 1) || (tag == TAG_INT_ARRAY && width == 4) || (tag == TAG_LONG_ARRAY && width == 8)
    ensures Skipped(PackS32(count) + items + rest, tag) == Some(rest)
  {
    hide Skipped, PackS32, S32, Tail, Follows;
    var head := PackS32(count) + items;
    assert (head + rest)[0..] == PackS32(count) + (items + rest);
    LengthAt(head + rest, 0, count, items + rest);
    TailPast(head, rest);
    CountedSkipped(head + rest);
  }

  /** Skipping a value that is in the data leads exactly to what follows it. */
  lemma {:induction false} SkipIsExact(v: Nbt, rest: Data)
    requires Writable(v)
    ensures Skipped(Written(v) + rest, TagOf(v)) == Some(rest)
    decreases v, 0
  {
    match v {
      case ByteArray(items) => ArraySkipped(TAG_BYTE_ARRAY, 1, |items|, items, rest);
      case IntArray(ints) =>
        IntsLength(ints);
        ArraySkipped(TAG_INT_ARRAY, 4, |ints|, PackInts(ints), rest);
      case LongArray(longs) =>
        LongsLength(longs);
        ArraySkipped(TAG_LONG_ARRAY, 8, |longs|, PackLongs(longs), rest);
      case String(text) => StringSkipped(text, rest);
      case List(tag, elements) => ListIsExact(tag, elements, rest);
      case Compound(entries) => CompoundIsExact(entries, rest);
      case _ => NumberSkipped(v, rest);
    }
  }

  lemma {:induction false} IntsLength(ints: seq<s32>)
    ensures |PackInts(ints)| == 4 * |ints|
  {
    if ints != [] {
      IntsLength(ints[1..]);
    }
  }

  lemma {:induction false} LongsLength(longs: seq<Long64>)
    ensures |PackLongs(longs)| == 8 * |longs|
  {
    if longs != [] {
      LongsLength(longs[1..]);
    }
  }

  /** The six kinds of number, and the end tag, which has no bytes. */
  lemma NumberSkipped(v: Nbt, rest: Data)
    requires v.End? || v.Byte? || v.Short? || v.Int? || v.Long? || v.Float? || v.Double?
    ensures Skipped(Written(v) + rest, TagOf(v)) == Some(rest)
  {
    hide SkippedElements, SkippedEntries, Follows, PackS32, PackU16, PackLong, Tail;
    TailPast(Written(v), rest);
    if v.End? {
      assert Written(v) + rest == rest;
    }
  }

  lemma {:induction false} ListIsExact(tag: byte, elements: seq<Nbt>, rest: Data)
    requires Writable(List(tag, elements))
    ensures Skipped(Written(List(tag, elements)) + rest, TAG_LIST) == Some(rest)
    decreases elements, 3
  {
    SkipElementsIsExact(tag, elements, rest);
    ListHeadSkipped(tag, |elements|, WrittenElements(elements), rest);
  }

  lemma ListHeadSkipped(tag: byte, count: nat, elements: Data, rest: Data)
    requires count < 0x8000_0000
    ensures Skipped([tag] + PackS32(count) + elements + rest, TAG_LIST) == SkippedElements(elements + rest, tag, count)
  {
    hide Skipped, SkippedElements, SkippedEntries, PackS32, S32, Follows;
    var data := [tag] + PackS32(count) + elements + rest;
    assert data[1..] == PackS32(count) + (elements + rest) && data[5..] == elements + rest;
    LengthAt(data, 1, count, elements + rest);
    ListSkipped(data);
  }

  lemma {:induction false} CompoundIsExact(entries: seq<Entry>, rest: Data)
    requires Writable(Compound(entries))
    ensures Skipped(Written(Compound(entries)) + rest, TAG_COMPOUND) == Some(rest)
    decreases entries, 3
  {
    hide Skipped, SkippedEntries, WrittenEntries, Follows;
    SkipEntriesIsExact(entries, rest);
    CompoundHeadSkipped(WrittenEntries(entries), rest);
  }

  lemma CompoundHeadSkipped(entries: Data, rest: Data)
    ensures Skipped(entries + [0] + rest, TAG_COMPOUND) == SkippedEntries(entries + ([0] + rest))
  {
    hide SkippedEntries, Follows;
    assert entries + [0] + rest == entries + ([0] + rest);
  }

  lemma {:induction false} SkipElementsIsExact(tag: byte, elements: seq<Nbt>, rest: Data)
    requires forall i :: 0 <= i < |elements| ==> TagOf(elements[i]) == tag && Writable(elements[i])
    ensures SkippedElements(WrittenElements(elements) + rest, tag, |elements|) == Some(rest)
    decreases elements, 2
  {
    hide Skipped, Written, Writable, Follows;
    if elements == [] {
      assert WrittenElements(elements) + rest == rest;
    } else {
      var others := WrittenElements(elements[1..]) + rest;
      assert WrittenElements(elements) + rest == Written(elements[0]) + others;
      SkipIsExact(elements[0], others);
      SkipElementsIsExact(tag, elements[1..], rest);
    }
  }

  lemma {:induction false} SkipEntriesIsExact(entries: seq<Entry>, rest: Data)
    requires forall i :: 0 <= i < |entries| ==>
               |entries[i].name| < 0x1_0000 && TagOf(entries[i].value) != TAG_END && Writable(entries[i].value)
    ensures SkippedEntries(WrittenEntries(entries) + ([0] + rest)) == Some(rest)
    decreases entries, 2
  {
    hide Skipped, Written, Writable, SkippedEntries, Follows;
    var data := WrittenEntries(entries) + ([0] + rest);
    if entries == [] {
      assert data == [0] + rest && data[1..] == rest;
      EntrySkipped(data);
    } else {
      var (name, value) := (entries[0].name, entries[0].value);
      var others := WrittenEntries(entries[1..]) + ([0] + rest);
      assert data == [TagOf(value)] + PackU16(|name|) + name + (Written(value) + others);
      EntryHeadSkipped(TagOf(value), name, Written(value) + others);
      SkipIsExact(value, others);
      SkipEntriesIsExact(entries[1..], rest);
    }
  }

  lemma EntrySkipped(data: Data)
    requires data != [] && data[0] == TAG_END
    ensures SkippedEntries(data) == Some(data[1..])
  {
  }

  lemma EntryHeadSkipped(tag: byte, name: Data, rest: Data)
    requires |name| < 0x1_0000 && tag != TAG_END
    ensures SkippedEntries([tag] + PackU16(|name|) + name + rest)
         == var value := Skipped(rest, tag); if value.None? then None else SkippedEntries(value.value)
  {
    hide Skipped, PackU16, U16, Follows;
    var data := [tag] + PackU16(|name|) + name + rest;
    assert data[1..3] == PackU16(|name|);
    U16OfPack(data, 1, |name|);
    assert data[1..] == PackU16(|name|) + name + rest;
    TailPast(PackU16(|name|) + name, rest);
  }

  /** The whole contract of `skip_nbt(data)`: past the tag and its value, whatever the tree. */
  lemma SkipRootIsExact(v: Nbt, rest: Data)
    requires Writable(v)
    ensures SkippedRoot([TagOf(v)] + Written(v) + rest) == Some(rest)
  {
    assert ([TagOf(v)] + Written(v) + rest)[1..] == Written(v) + rest;
    SkipIsExact(v, rest);
  }
}
