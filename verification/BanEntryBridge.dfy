/**
 dev/add-banentry-bridge.py: a byte-level rewrite that adds one bridge method to the class file of
 `org/bukkit/BanEntry`. Class files are laid out as in sections 4.1, 4.4, 4.6 and 4.7 of the Java
 Virtual Machine Specification.
 */
module BanEntryBridge {
  import opened Wrappers
  import opened Bytes
  import opened StrictUtf8

  /** The constant pool by index: slot 0 and the slot after a long or double are empty. */
  type Slots = seq<Option<seq<byte>>>

  const BAN_ENTRY: seq<byte> := Ascii("org/bukkit/BanEntry")
  const TARGET: seq<byte> := Ascii("getTarget")
  const RETURNS_STRING: seq<byte> := Ascii("()Ljava/lang/String;")
  const RETURNS_OBJECT: seq<byte> := Ascii("()Ljava/lang/Object;")
  const CODE: seq<byte> := Ascii("Code")
  const STRING: seq<byte> := Ascii("java/lang/String")

  function Ascii(s: string): (d: seq<byte>)
    ensures |d| == |s|
  {
    seq(|s|, i requires 0 <= i < |s| => (s[i] as int) % 128)
  }

  lemma AsciiDecodes(s: string)
    ensures IsUtf8(Ascii(s))
  {
    hide IsUtf8;
    AsciiIsUtf8(Ascii(s));
  }

  /** The payload width of every tag but Utf8. */
  function Width(tag: byte): Option<nat> {
    if tag == 3 || tag == 4 || tag == 9 || tag == 10 || tag == 11 || tag == 12 || tag == 17 || tag == 18 then Some(4)
    else if tag == 5 || tag == 6 then Some(8)
    else if tag == 7 || tag == 8 || tag == 16 || tag == 19 || tag == 20 then Some(2)
    else if tag == 15 then Some(3)
    else None
  }

  predicate Wide(tag: byte) { tag == 5 || tag == 6 }

  // ------------------------------------------------------------ walking the bytes

  /** Where the pool entry at `offset` ends. */
  function EntryEnd(data: seq<byte>, offset: nat): (r: Option<nat>)
    ensures r.Some? ==> offset < |data| && r.value > offset
  {
    if offset >= |data| then None
    else if data[offset] == 1 then
      if offset + 3 > |data| then None else Some(offset + 3 + U16(data, offset + 1))
    else if Width(data[offset]).None? then None
    else Some(offset + 1 + Width(data[offset]).value)
  }

  /** The pool slots from `index` on, and the offset behind them. */
  function Entries(data: seq<byte>, offset: nat, index: nat, count: nat): Option<(nat, Slots)>
    decreases count - index
  {
    if index >= count then Some((offset, []))
    else
      var end := EntryEnd(data, offset);
      if end.None? then None
      else
        var here := SlotsOf(data[offset], Slice(data, offset, end.value));
        var rest := Entries(data, end.value, index + |here|, count);
        if rest.None? then None else Some((rest.value.0, here + rest.value.1))
  }

  function SlotsOf(tag: byte, entry: seq<byte>): (r: Slots)
    ensures |r| > 0
  {
    if Wide(tag) then [Some(entry), None] else [Some(entry)]
  }

  function AttributesEnd(data: seq<byte>, offset: nat, count: nat): (r: Option<nat>)
    ensures r.Some? ==> r.value >= offset
    decreases count
  {
    if count == 0 then Some(offset)
    else if offset + 6 > |data| then None
    else AttributesEnd(data, offset + 6 + U32(data, offset + 2), count - 1)
  }

  function AttributeTableEnd(data: seq<byte>, offset: nat): (r: Option<nat>)
    ensures r.Some? ==> r.value >= offset + 2
  {
    if offset + 2 > |data| then None else AttributesEnd(data, offset + 2, U16(data, offset))
  }

  function MembersEnd(data: seq<byte>, offset: nat, count: nat): (r: Option<nat>)
    ensures r.Some? ==> r.value >= offset
    decreases count
  {
    if count == 0 then Some(offset)
    else
      var end := AttributeTableEnd(data, offset + 6);
      if end.None? then None else MembersEnd(data, end.value, count - 1)
  }

  /** Where the method count stands, and where the method table ends. */
  function MethodTable(data: seq<byte>, cpOffset: nat): (r: Option<(nat, nat)>)
    ensures r.Some? ==> cpOffset + 8 <= r.value.0 && r.value.0 + 2 <= |data| && r.value.0 + 2 <= r.value.1
  {
    if cpOffset + 8 > |data| then None
    else
      var fields := cpOffset + 8 + 2 * U16(data, cpOffset + 6);
      if fields + 2 > |data| then None
      else
        var methods := MembersEnd(data, fields + 2, U16(data, fields));
        if methods.None? || methods.value + 2 > |data| then None
        else
          var end := MembersEnd(data, methods.value + 2, U16(data, methods.value));
          if end.None? then None else Some((methods.value, end.value))
  }

  /** The text of a Utf8 slot; the tag is not looked at, and Python's strict decoding may raise. */
  function Text(pool: Slots, index: nat): Option<seq<byte>> {
    if index >= |pool| || pool[index].None? || |pool[index].value| < 3 then None
    else
      var raw := pool[index].value;
      var text := Slice(raw, 3, 3 + U16(raw, 1));
      if IsUtf8(text) then Some(text) else None
  }

  function ClassName(pool: Slots, index: nat): Option<seq<byte>> {
    if index >= |pool| || pool[index].None? || |pool[index].value| < 3 then None
    else Text(pool, U16(pool[index].value, 1))
  }

  function Targets(data: seq<byte>, offset: nat, count: nat, pool: Slots): Option<bool>
    decreases count
  {
    if count == 0 then Some(false)
    else if offset + 6 > |data| then None
    else
      var name := Text(pool, U16(data, offset + 2));
      if name.None? then None
      else if name.value == TARGET && Text(pool, U16(data, offset + 4)).None? then None
      else if name.value == TARGET && Text(pool, U16(data, offset + 4)) == Some(RETURNS_STRING) then Some(true)
      else
        var end := AttributeTableEnd(data, offset + 6);
        if end.None? then None else Targets(data, end.value, count - 1, pool)
  }

  method SkipAttributes(data: seq<byte>, start: nat) returns (r: Option<nat>)
    ensures r == AttributeTableEnd(data, start)
  {
    if start + 2 > |data| {
      return None;
    }
    var count := U16(data, start);
    var offset: nat := start + 2;
    for i := 0 to count
      invariant AttributesEnd(data, offset, count - i) == AttributeTableEnd(data, start)
    {
      if offset + 6 > |data| {
        return None;
      }
      offset := offset + 6 + U32(data, offset + 2);
    }
    r := Some(offset);
  }

  /** The slots read so far, followed by what is still to read, are the whole pool. */
  ghost predicate PoolProgress(data: seq<byte>, count: nat, offset: nat, index: nat, pool: Slots) {
    var all, rest := Entries(data, 10, 1, count), Entries(data, offset, index, count);
    if rest.None? then all.None?
    else all.Some? && all.value.0 == rest.value.0 && [None] + all.value.1 == pool + rest.value.1
  }

  lemma PoolProgressMoves(data: seq<byte>, count: nat, offset: nat, index: nat, pool: Slots)
    requires PoolProgress(data, count, offset, index, pool) && index < count
    ensures var end := EntryEnd(data, offset);
            if end.None? then Entries(data, 10, 1, count).None?
            else
              var here := SlotsOf(data[offset], Slice(data, offset, end.value));
              PoolProgress(data, count, end.value, index + |here|, pool + here)
  {
    hide EntryEnd, Slice, SlotsOf;
    var end := EntryEnd(data, offset);
    if end.Some? {
      var here := SlotsOf(data[offset], Slice(data, offset, end.value));
      var rest := Entries(data, end.value, index + |here|, count);
      if rest.Some? {
        assert pool + (here + rest.value.1) == pool + here + rest.value.1;
      }
    }
  }

  lemma PoolProgressEnds(data: seq<byte>, count: nat, offset: nat, index: nat, pool: Slots)
    requires PoolProgress(data, count, offset, index, pool) && index >= count
    ensures var all := Entries(data, 10, 1, count); all.Some? && all.value.0 == offset && [None] + all.value.1 == pool
  {
    assert pool + [] == pool;
  }

  method PoolEnd(data: seq<byte>) returns (r: Option<(nat, nat, Slots)>)
    ensures |data| < 10 ==> r.None?
    ensures |data| >= 10 ==>
              var all := Entries(data, 10, 1, U16(data, 8));
              r == if all.None? then None else Some((U16(data, 8), all.value.0, [None] + all.value.1))
  {
    hide Entries, PoolProgress, U16, Slice;
    if |data| < 10 {
      return None;
    }
    var count := U16(data, 8);
    var offset: nat, index: nat := 10, 1;
    var pool: Slots := [None];
    assert PoolProgress(data, count, 10, 1, [None]) by {
      PoolProgressStarts(data, count);
    }
    while index < count
      invariant PoolProgress(data, count, offset, index, pool)
      decreases count - index
    {
      PoolProgressMoves(data, count, offset, index, pool);
      if offset >= |data| {
        return None;
      }
      var tag := data[offset];
      var start := offset;
      offset := offset + 1;
      if tag == 1 {
        if offset + 2 > |data| {
          return None;
        }
        var length := U16(data, offset);
        offset := offset + 2 + length;
      } else {
        var width := Width(tag);
        if width.None? {
          return None;
        }
        offset := offset + width.value;
      }
      ghost var before := pool;
      pool := pool + [Some(Slice(data, start, offset))];
      if Wide(tag) {
        pool := pool + [None];
        index := index + 2;
      } else {
        index := index + 1;
      }
      assert pool == before + SlotsOf(tag, Slice(data, start, offset));
    }
    PoolProgressEnds(data, count, offset, index, pool);
    r := Some((count, offset, pool));
  }

  lemma PoolProgressStarts(data: seq<byte>, count: nat)
    ensures PoolProgress(data, count, 10, 1, [None])
  {
  }

  method MethodTableOffset(data: seq<byte>, cpOffset: nat) returns (r: Option<(nat, nat)>)
    ensures r == MethodTable(data, cpOffset)
  {
    hide AttributeTableEnd, U16;
    var offset: nat := cpOffset + 6;
    if offset + 2 > |data| {
      return None;
    }
    var interfaces := U16(data, offset);
    offset := offset + 2 + 2 * interfaces;
    var methodCountOffset := 0;
    for table := 0 to 2
      invariant table == 0 ==> offset == cpOffset + 8 + 2 * U16(data, cpOffset + 6)
      invariant table == 1 ==>
                  var fields := cpOffset + 8 + 2 * U16(data, cpOffset + 6);
                  fields + 2 <= |data| && MembersEnd(data, fields + 2, U16(data, fields)) == Some(offset)
      invariant table == 2 ==> MethodTable(data, cpOffset) == Some((methodCountOffset, offset))
    {
      if table == 1 {
        methodCountOffset := offset;
      }
      if offset + 2 > |data| {
        return None;
      }
      var count := U16(data, offset);
      ghost var all := MembersEnd(data, offset + 2, count);
      offset := offset + 2;
      for i := 0 to count
        invariant MembersEnd(data, offset, count - i) == all
      {
        offset := offset + 6;
        var end := SkipAttributes(data, offset);
        if end.None? {
          return None;
        }
        offset := end.value;
      }
    }
    r := Some((methodCountOffset, offset));
  }

  method HasStringTarget(data: seq<byte>, cpOffset: nat, pool: Slots) returns (r: Option<bool>)
    ensures var table := MethodTable(data, cpOffset);
            r == if table.None? then None else Targets(data, table.value.0 + 2, U16(data, table.value.0), pool)
  {
    hide MethodTable, Text, U16, AttributeTableEnd;
    var table := MethodTableOffset(data, cpOffset);
    if table.None? {
      return None;
    }
    var offset: nat := table.value.0;
    var count := U16(data, offset);
    offset := offset + 2;
    ghost var all := Targets(data, offset, count, pool);
    for i := 0 to count
      invariant Targets(data, offset, count - i, pool) == all
    {
      if offset + 6 > |data| {
        return None;
      }
      var nameIndex, descriptorIndex := U16(data, offset + 2), U16(data, offset + 4);
      var name := Text(pool, nameIndex);
      if name.None? {
        return None;
      }
      if name.value == TARGET {
        var descriptor := Text(pool, descriptorIndex);
        if descriptor.None? {
          return None;
        }
        if descriptor.value == RETURNS_STRING {
          return Some(true);
        }
      }
      offset := offset + 6;
      var end := SkipAttributes(data, offset);
      if end.None? {
        return None;
      }
      offset := end.value;
    }
    r := Some(false);
  }
}
