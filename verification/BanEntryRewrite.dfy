/**
 What the rewrite of dev/add-banentry-bridge.py does to a well-formed class file, stated on the
 file's structure and proved of the bytes.
 */
module BanEntryRewrite {
  import opened Wrappers
  import opened Bytes
  import opened ConstantPool
  import opened StrictUtf8
  import opened BanEntryBridge

  datatype Attribute = Attribute(name: seq<byte>, body: seq<byte>)

  /** A field or a method: access flags, name index, descriptor index, attributes. */
  datatype Member = Member(fixed: seq<byte>, attributes: seq<Attribute>)

  /** `head` is access flags, this_class and super_class. */
  datatype ClassFile = ClassFile(
    header: seq<byte>,
    pool: seq<Constant>,
    head: seq<byte>,
    interfaces: seq<byte>,
    fields: seq<Member>,
    methods: seq<Member>,
    attributes: seq<Attribute>)

  // -------------------------------------------------------------- the byte layout

  function PoolBytes(entries: seq<Constant>): seq<byte> {
    if |entries| == 0 then [] else Written(entries[0]) + PoolBytes(entries[1..])
  }

  function EntrySlots(c: Constant): Slots {
    if TakesTwoIndices(c) then [Some(Written(c)), None] else [Some(Written(c))]
  }

  /** The pool by index, from index 1 on. */
  function PoolSlots(entries: seq<Constant>): Slots {
    if |entries| == 0 then [] else EntrySlots(entries[0]) + PoolSlots(entries[1..])
  }

  function Pool(cf: ClassFile): Slots {
    [None] + PoolSlots(cf.pool)
  }

  predicate ValidAttributes(a: seq<Attribute>) {
    |a| < 0x1_0000 && forall x :: x in a ==> |x.name| == 2 && |x.body| < 0x1_0000_0000
  }

  function EncodeAttributes(a: seq<Attribute>): seq<byte>
    requires forall x :: x in a ==> |x.name| == 2 && |x.body| < 0x1_0000_0000
  {
    if |a| == 0 then [] else a[0].name + PackU32(|a[0].body|) + a[0].body + EncodeAttributes(a[1..])
  }

  function EncodeTable(a: seq<Attribute>): seq<byte>
    requires ValidAttributes(a)
  {
    PackU16(|a|) + EncodeAttributes(a)
  }

  predicate ValidMembers(ms: seq<Member>) {
    forall m :: m in ms ==> |m.fixed| == 6 && ValidAttributes(m.attributes)
  }

  function EncodeMembers(ms: seq<Member>): seq<byte>
    requires ValidMembers(ms)
  {
    if |ms| == 0 then [] else ms[0].fixed + EncodeTable(ms[0].attributes) + EncodeMembers(ms[1..])
  }

  predicate WellFormed(cf: ClassFile) {
    && |cf.header| == 8 && |cf.head| == 6
    && |Pool(cf)| < 0x1_0000
    && |cf.interfaces| % 2 == 0 && |cf.interfaces| / 2 < 0x1_0000
    && |cf.fields| < 0x1_0000 && ValidMembers(cf.fields)
    && |cf.methods| < 0x1_0000 && ValidMembers(cf.methods)
    && ValidAttributes(cf.attributes)
  }

  /** The class from its access flags up to its field count. */
  function EncodeFront(cf: ClassFile): seq<byte>
    requires WellFormed(cf)
  {
    cf.head + PackU16(|cf.interfaces| / 2) + cf.interfaces
  }

  function Encode(cf: ClassFile): seq<byte>
    requires WellFormed(cf)
  {
    cf.header + PackU16(|Pool(cf)|) + PoolBytes(cf.pool) + EncodeFront(cf)
    + (PackU16(|cf.fields|) + EncodeMembers(cf.fields))
    + (PackU16(|cf.methods|) + EncodeMembers(cf.methods))
    + EncodeTable(cf.attributes)
  }

  // ------------------------------------------------------- the walks on an encoding

  lemma {:induction false} PoolWalk(data: seq<byte>, at: nat, entries: seq<Constant>, index: nat)
    requires Holds(data, at, PoolBytes(entries))
    ensures Entries(data, at, index, index + |PoolSlots(entries)|) == Some((at + |PoolBytes(entries)|, PoolSlots(entries)))
    decreases |entries|
  {
    hide IsUtf8, EntryEnd, Slice, SlotsOf, Written, EntrySlots, Holds;
    if |entries| > 0 {
      var e := Written(entries[0]);
      HoldsParts(data, at, e, PoolBytes(entries[1..]));
      EntryInPlace(data, at, entries[0]);
      SliceOfHeld(data, at, e);
      SomeSlot(entries[0]);
      PoolWalk(data, at + |e|, entries[1..], index + |EntrySlots(entries[0])|);
    }
  }

  lemma SomeSlot(c: Constant)
    ensures |EntrySlots(c)| > 0
  {
  }

  /** On every kind of constant the walker steps to its end and counts its indices right. */
  lemma EntryInPlace(data: seq<byte>, at: nat, c: Constant)
    requires Holds(data, at, Written(c))
    ensures at < |data| && data[at] == TagOf(c)
    ensures EntryEnd(data, at) == Some(at + |Written(c)|)
    ensures SlotsOf(data[at], Written(c)) == EntrySlots(c)
  {
    hide IsUtf8, PackU16, U16;
    HoldsParts(data, at, [TagOf(c)], Info(c));
    assert data[at] == data[at..at + 1][0];
    if c.Utf8Constant? {
      HoldsParts(data, at + 1, PackU16(|c.text|), c.text);
      U16OfPack(data, at + 1, |c.text|);
    }
  }

  lemma {:induction false} AttributesWalk(data: seq<byte>, at: nat, a: seq<Attribute>)
    requires forall x :: x in a ==> |x.name| == 2 && |x.body| < 0x1_0000_0000
    requires Holds(data, at, EncodeAttributes(a))
    ensures AttributesEnd(data, at, |a|) == Some(at + |EncodeAttributes(a)|)
    decreases |a|
  {
    hide IsUtf8, U32, PackU32;
    if |a| > 0 {
      var size := PackU32(|a[0].body|);
      HoldsParts(data, at, a[0].name + size + a[0].body, EncodeAttributes(a[1..]));
      HoldsParts(data, at, a[0].name + size, a[0].body);
      HoldsParts(data, at, a[0].name, size);
      U32OfPack(data, at + 2, |a[0].body|);
      AttributesWalk(data, at + 6 + |a[0].body|, a[1..]);
    }
  }

  lemma TableWalk(data: seq<byte>, at: nat, a: seq<Attribute>)
    requires ValidAttributes(a) && Holds(data, at, EncodeTable(a))
    ensures AttributeTableEnd(data, at) == Some(at + |EncodeTable(a)|)
  {
    hide IsUtf8, U16, PackU16;
    HoldsParts(data, at, PackU16(|a|), EncodeAttributes(a));
    U16OfPack(data, at, |a|);
    AttributesWalk(data, at + 2, a);
  }

  lemma {:induction false} MembersWalk(data: seq<byte>, at: nat, ms: seq<Member>)
    requires ValidMembers(ms) && Holds(data, at, EncodeMembers(ms))
    ensures MembersEnd(data, at, |ms|) == Some(at + |EncodeMembers(ms)|)
    decreases |ms|
  {
    hide IsUtf8, EncodeTable, AttributeTableEnd;
    if |ms| > 0 {
      var table := EncodeTable(ms[0].attributes);
      HoldsParts(data, at, ms[0].fixed + table, EncodeMembers(ms[1..]));
      HoldsParts(data, at, ms[0].fixed, table);
      TableWalk(data, at + 6, ms[0].attributes);
      MembersWalk(data, at + 6 + |table|, ms[1..]);
    }
  }

  /** Some method already is `String getTarget()`. */
  predicate IsTarget(m: Member, pool: Slots) {
    |m.fixed| == 6 && Text(pool, U16(m.fixed, 2)) == Some(TARGET) && Text(pool, U16(m.fixed, 4)) == Some(RETURNS_STRING)
  }

  predicate HasTarget(ms: seq<Member>, pool: Slots) {
    exists m :: m in ms && IsTarget(m, pool)
  }

  /** The indices of the name, and of the descriptor when it matters, lead to texts in strict UTF-8. */
  predicate ReadableMethod(m: Member, pool: Slots) {
    && |m.fixed| == 6
    && Text(pool, U16(m.fixed, 2)).Some?
    && (Text(pool, U16(m.fixed, 2)) == Some(TARGET) ==> Text(pool, U16(m.fixed, 4)).Some?)
  }

  /** So it is for every method up to the first that is the target. */
  predicate ReadableMethods(ms: seq<Member>, pool: Slots) {
    ms == [] || (ReadableMethod(ms[0], pool) && (IsTarget(ms[0], pool) || ReadableMethods(ms[1..], pool)))
  }

  lemma FixedInPlace(data: seq<byte>, at: nat, fixed: seq<byte>)
    requires |fixed| == 6 && Holds(data, at, fixed)
    ensures U16(data, at + 2) == U16(fixed, 2) && U16(data, at + 4) == U16(fixed, 4)
  {
    var part := data[at..at + 6];
    assert part[2] == data[at + 2] && part[3] == data[at + 3] && part[4] == data[at + 4] && part[5] == data[at + 5];
  }

  lemma {:induction false} TargetsWalk(data: seq<byte>, at: nat, ms: seq<Member>, pool: Slots)
    requires ValidMembers(ms) && Holds(data, at, EncodeMembers(ms))
    ensures Targets(data, at, |ms|, pool) == if ReadableMethods(ms, pool) then Some(HasTarget(ms, pool)) else None
    decreases |ms|
  {
    hide IsUtf8, EncodeTable, AttributeTableEnd, Text, U16;
    if |ms| > 0 {
      var m := ms[0];
      var table := EncodeTable(m.attributes);
      HoldsParts(data, at, m.fixed + table, EncodeMembers(ms[1..]));
      HoldsParts(data, at, m.fixed, table);
      FixedInPlace(data, at, m.fixed);
      TableWalk(data, at + 6, m.attributes);
      TargetsWalk(data, at + 6 + |table|, ms[1..], pool);
      assert HasTarget(ms, pool) <==> IsTarget(m, pool) || HasTarget(ms[1..], pool);
    }
  }

  // ----------------------------------------------------------------- the new parts

  /** The ten entries appended to a pool of `n` slots. */
  function NewEntries(n: nat): (es: seq<Constant>)
    requires n + 10 < 0x1_0000
    ensures |es| == 10
  {
    [Utf8Constant(TARGET), Utf8Constant(RETURNS_STRING), Utf8Constant(CODE), Utf8Constant(RETURNS_OBJECT),
     Utf8Constant(BAN_ENTRY), ClassConstant(n + 4), Utf8Constant(STRING), ClassConstant(n + 6),
     NameAndType(n, n + 3), InterfaceMethodref(n + 5, n + 8)]
  }

  /** aload_0, invokeinterface getTarget, checkcast String, areturn. */
  function BridgeCode(n: nat): (c: seq<byte>)
    requires n + 10 < 0x1_0000
    ensures |c| == 10
  {
    [0x2A, 0xB9] + PackU16(n + 9) + [0x01, 0x00, 0xC0] + PackU16(n + 7) + [0xB0]
  }

  function BridgeMethod(n: nat): (m: Member)
    requires n + 10 < 0x1_0000
    ensures |m.fixed| == 6 && ValidAttributes(m.attributes)
  {
    var body := PackU16(1) + PackU16(1) + PackU32(10) + BridgeCode(n) + PackU16(0) + PackU16(0);
    Member(PackU16(1) + PackU16(n) + PackU16(n + 1), [Attribute(PackU16(n + 2), body)])
  }

  predicate Bridgeable(cf: ClassFile)
    requires WellFormed(cf)
  {
    ClassName(Pool(cf), U16(cf.head, 2)) == Some(BAN_ENTRY) && !HasTarget(cf.methods, Pool(cf))
  }

  /** The names the rewriter looks at are texts in strict UTF-8: that of the class, and the methods' if it is the one. */
  predicate Readable(cf: ClassFile)
    requires WellFormed(cf)
  {
    var name := ClassName(Pool(cf), U16(cf.head, 2));
    name.Some? && (name.value == BAN_ENTRY ==> ReadableMethods(cf.methods, Pool(cf)))
  }

  /** Room for ten more slots and one more method. */
  predicate Room(cf: ClassFile)
    requires WellFormed(cf)
  {
    |Pool(cf)| + 10 < 0x1_0000 && |cf.methods| + 1 < 0x1_0000
  }

  function Bridged(cf: ClassFile): ClassFile
    requires WellFormed(cf) && (Bridgeable(cf) ==> Room(cf))
  {
    if !Bridgeable(cf) then cf
    else cf.(pool := cf.pool + NewEntries(|Pool(cf)|), methods := cf.methods + [BridgeMethod(|Pool(cf)|)])
  }

  // ------------------------------------------------------------ the file in pieces

  /** The pieces of an encoding, each at its offset. */
  ghost predicate Laid(data: seq<byte>, cf: ClassFile, cp: nat, fields: nat, methods: nat, end: nat)
    requires WellFormed(cf)
  {
    && cp == 10 + |PoolBytes(cf.pool)|
    && fields == cp + 8 + |cf.interfaces|
    && methods == fields + 2 + |EncodeMembers(cf.fields)|
    && end == methods + 2 + |EncodeMembers(cf.methods)|
    && Holds(data, 0, cf.header) && Holds(data, 8, PackU16(|Pool(cf)|)) && Holds(data, 10, PoolBytes(cf.pool))
    && Holds(data, cp, EncodeFront(cf))
    && Holds(data, fields, PackU16(|cf.fields|) + EncodeMembers(cf.fields))
    && Holds(data, methods, PackU16(|cf.methods|) + EncodeMembers(cf.methods))
    && Holds(data, end, EncodeTable(cf.attributes))
    && |data| == end + |EncodeTable(cf.attributes)|
  }

  lemma Lay(cf: ClassFile) returns (cp: nat, fields: nat, methods: nat, end: nat)
    requires WellFormed(cf)
    ensures Laid(Encode(cf), cf, cp, fields, methods, end)
  {
    hide IsUtf8, Holds, PoolBytes, EncodeMembers, EncodeTable, PackU16, Pool, ClassName;
    var data := Encode(cf);
    var h, n, p, f := cf.header, PackU16(|Pool(cf)|), PoolBytes(cf.pool), EncodeFront(cf);
    var fs, ms := PackU16(|cf.fields|) + EncodeMembers(cf.fields), PackU16(|cf.methods|) + EncodeMembers(cf.methods);
    var a := EncodeTable(cf.attributes);
    cp := 10 + |p|;
    fields := cp + |f|;
    methods := fields + |fs|;
    end := methods + |ms|;
    assert data == h + n + p + f + fs + ms + a;
    HoldsWhole(data);
    HoldsParts(data, 0, h + n + p + f + fs + ms, a);
    HoldsParts(data, 0, h + n + p + f + fs, ms);
    HoldsParts(data, 0, h + n + p + f, fs);
    HoldsParts(data, 0, h + n + p, f);
    HoldsParts(data, 0, h + n, p);
    HoldsParts(data, 0, h, n);
  }

  lemma HoldsWhole(data: seq<byte>)
    ensures Holds(data, 0, data)
  {
    assert data[0..|data|] == data;
  }

  lemma LaidPool(data: seq<byte>, cf: ClassFile, cp: nat, fields: nat, methods: nat, end: nat)
    requires WellFormed(cf) && Laid(data, cf, cp, fields, methods, end)
    ensures U16(data, 8) == |Pool(cf)| && Entries(data, 10, 1, |Pool(cf)|) == Some((cp, PoolSlots(cf.pool)))
  {
    hide IsUtf8, EncodeMembers, PoolSlots, Entries, U16, PackU16, EncodeTable, EncodeFront;
    U16OfPack(data, 8, |Pool(cf)|);
    PoolWalk(data, 10, cf.pool, 1);
  }

  /** A counted table: the count is read, and walking that many members ends behind them. */
  lemma CountedMembers(data: seq<byte>, at: nat, ms: seq<Member>)
    requires |ms| < 0x1_0000 && ValidMembers(ms) && Holds(data, at, PackU16(|ms|) + EncodeMembers(ms))
    ensures at + 2 <= |data| && U16(data, at) == |ms| && Holds(data, at + 2, EncodeMembers(ms))
    ensures MembersEnd(data, at + 2, |ms|) == Some(at + 2 + |EncodeMembers(ms)|)
  {
    hide IsUtf8, EncodeMembers, MembersEnd;
    HoldsParts(data, at, PackU16(|ms|), EncodeMembers(ms));
    U16OfPack(data, at, |ms|);
    MembersWalk(data, at + 2, ms);
  }

  lemma LaidTables(data: seq<byte>, cf: ClassFile, cp: nat, fields: nat, methods: nat, end: nat)
    requires WellFormed(cf) && Laid(data, cf, cp, fields, methods, end)
    ensures cp + 6 <= |data| && U16(data, cp + 2) == U16(cf.head, 2)
    ensures MethodTable(data, cp) == Some((methods, end))
    ensures U16(data, methods) == |cf.methods| && Holds(data, methods + 2, EncodeMembers(cf.methods))
  {
    hide IsUtf8, EncodeMembers, MembersEnd, PoolSlots, U16, PackU16, EncodeTable, EncodeFront;
    FrontInPlace(data, cf, cp);
    CountedMembers(data, fields, cf.fields);
    CountedMembers(data, methods, cf.methods);
  }

  /** Every walk of the rewriter over an encoding finds what the structure says. */
  lemma LaidWalks(data: seq<byte>, cf: ClassFile, cp: nat, fields: nat, methods: nat, end: nat)
    requires WellFormed(cf) && Laid(data, cf, cp, fields, methods, end)
    ensures U16(data, 8) == |Pool(cf)| && Entries(data, 10, 1, |Pool(cf)|) == Some((cp, PoolSlots(cf.pool)))
    ensures cp + 6 <= |data| && U16(data, cp + 2) == U16(cf.head, 2)
    ensures MethodTable(data, cp) == Some((methods, end)) && U16(data, methods) == |cf.methods|
    ensures Targets(data, methods + 2, |cf.methods|, Pool(cf))
         == if ReadableMethods(cf.methods, Pool(cf)) then Some(HasTarget(cf.methods, Pool(cf))) else None
  {
    hide IsUtf8, EncodeMembers, MembersEnd, Targets, PoolSlots, Entries, U16, PackU16, EncodeTable, EncodeFront;
    LaidPool(data, cf, cp, fields, methods, end);
    LaidTables(data, cf, cp, fields, methods, end);
    TargetsWalk(data, methods + 2, cf.methods, Pool(cf));
  }

  lemma FrontInPlace(data: seq<byte>, cf: ClassFile, cp: nat)
    requires WellFormed(cf) && Holds(data, cp, EncodeFront(cf))
    ensures cp + 8 + |cf.interfaces| <= |data|
    ensures U16(data, cp + 2) == U16(cf.head, 2) && 2 * U16(data, cp + 6) == |cf.interfaces|
  {
    var n := PackU16(|cf.interfaces| / 2);
    HoldsParts(data, cp, cf.head + n, cf.interfaces);
    HoldsParts(data, cp, cf.head, n);
    FixedInPlace(data, cp, cf.head);
    U16OfPack(data, cp + 6, |cf.interfaces| / 2);
  }

  // -------------------------------------------------------------- appending things

  lemma {:induction false} SlotsJoin(a: seq<Constant>, b: seq<Constant>)
    ensures PoolSlots(a + b) == PoolSlots(a) + PoolSlots(b)
    ensures PoolBytes(a + b) == PoolBytes(a) + PoolBytes(b)
  {
    hide Written, EntrySlots;
    if |a| == 0 {
      assert a + b == b;
    } else {
      assert (a + b)[1..] == a[1..] + b;
      SlotsJoin(a[1..], b);
    }
  }

  lemma {:induction false} MembersJoin(a: seq<Member>, b: seq<Member>)
    requires ValidMembers(a) && ValidMembers(b)
    ensures ValidMembers(a + b) && EncodeMembers(a + b) == EncodeMembers(a) + EncodeMembers(b)
    decreases |a|
  {
    if |a| == 0 {
      assert a + b == b;
    } else {
      assert (a + b)[1..] == a[1..] + b;
      MembersJoin(a[1..], b);
    }
  }

  /** The bytes of a slot list, empty slots left out. */
  function Join(slots: Slots): seq<byte> {
    if |slots| == 0 then [] else (if slots[0].Some? then slots[0].value else []) + Join(slots[1..])
  }

  lemma {:induction false} JoinsSlots(a: Slots, b: Slots)
    ensures Join(a + b) == Join(a) + Join(b)
  {
    if |a| == 0 {
      assert a + b == b;
    } else {
      assert (a + b)[1..] == a[1..] + b;
      JoinsSlots(a[1..], b);
    }
  }

  lemma {:induction false} JoinOfPool(entries: seq<Constant>)
    ensures Join(PoolSlots(entries)) == PoolBytes(entries)
  {
    hide Written, EntrySlots;
    if |entries| > 0 {
      JoinsSlots(EntrySlots(entries[0]), PoolSlots(entries[1..]));
      JoinOfPool(entries[1..]);
      JoinOfEntry(entries[0]);
    }
  }

  lemma JoinOfEntry(c: Constant)
    ensures Join(EntrySlots(c)) == Written(c)
  {
    hide Written;
    var rest: Slots := if TakesTwoIndices(c) then [None] else [];
    assert EntrySlots(c)[1..] == rest && Join(rest) == [];
    assert Written(c) + [] == Written(c);
  }

  lemma {:induction false} NarrowPool(es: seq<Constant>)
    requires forall i :: 0 <= i < |es| ==> !TakesTwoIndices(es[i])
    ensures |PoolSlots(es)| == |es| && forall i :: 0 <= i < |es| ==> PoolSlots(es)[i] == Some(Written(es[i]))
    decreases |es|
  {
    hide Written;
    if |es| > 0 {
      var rest := es[1..];
      NarrowPool(rest);
      assert PoolSlots(es) == [Some(Written(es[0]))] + PoolSlots(rest);
    }
  }

  // -------------------------------------------------------- the new pool and method

  lemma NewEntriesNarrow(n: nat)
    requires n + 10 < 0x1_0000
    ensures forall i :: 0 <= i < 10 ==> !TakesTwoIndices(NewEntries(n)[i])
  {
  }

  /** Old indices keep their entries, and the ten new ones follow. */
  lemma BridgedPool(cf: ClassFile)
    requires WellFormed(cf) && Bridgeable(cf) && Room(cf)
    ensures var n := |Pool(cf)|;
            && |Pool(Bridged(cf))| == n + 10
            && (forall i :: 0 <= i < n ==> Pool(Bridged(cf))[i] == Pool(cf)[i])
            && (forall i :: 0 <= i < 10 ==> Pool(Bridged(cf))[n + i] == Some(Written(NewEntries(n)[i])))
            && Pool(Bridged(cf)) == Pool(cf) + PoolSlots(NewEntries(n))
            && PoolBytes(Bridged(cf).pool) == PoolBytes(cf.pool) + PoolBytes(NewEntries(n))
  {
    hide IsUtf8, NewEntries, ClassName, HasTarget, PoolSlots, PoolBytes, Written, ValidMembers, ValidAttributes;
    var n := |Pool(cf)|;
    NewEntriesNarrow(n);
    NarrowPool(NewEntries(n));
    SlotsJoin(cf.pool, NewEntries(n));
    Prepended(PoolSlots(cf.pool), PoolSlots(NewEntries(n)));
    OldAndNew(Pool(cf), PoolSlots(NewEntries(n)));
  }

  lemma Prepended(a: Slots, b: Slots)
    ensures [None] + (a + b) == [None] + a + b
  {
  }

  lemma OldAndNew(a: Slots, b: Slots)
    ensures forall i :: 0 <= i < |a| ==> (a + b)[i] == a[i]
    ensures forall i :: 0 <= i < |b| ==> (a + b)[|a| + i] == b[i]
  {
  }

  ghost predicate Extends(pool: Slots, longer: Slots) {
    |pool| <= |longer| && forall i :: 0 <= i < |pool| ==> longer[i] == pool[i]
  }

  lemma TextStable(pool: Slots, longer: Slots)
    requires Extends(pool, longer)
    ensures forall i: nat :: Text(pool, i).Some? ==> Text(longer, i) == Text(pool, i)
    ensures forall i: nat :: ClassName(pool, i).Some? ==> ClassName(longer, i) == ClassName(pool, i)
  {
  }

  /** The text of a slot that holds a Utf8 entry. */
  lemma TextOfUtf8(pool: Slots, index: nat, text: seq<byte>)
    requires |text| < 0x1_0000 && IsUtf8(text) && index < |pool| && pool[index] == Some(Written(Utf8Constant(text)))
    ensures Text(pool, index) == Some(text)
  {
    hide IsUtf8, PackU16, U16;
    var raw := Written(Utf8Constant(text));
    assert raw[1..3] == PackU16(|text|);
    U16OfPack(raw, 1, |text|);
    assert Slice(raw, 3, 3 + |text|) == text;
  }

  lemma NameOfClass(pool: Slots, index: nat, name: nat)
    requires name < 0x1_0000 && index < |pool| && pool[index] == Some(Written(ClassConstant(name)))
    ensures ClassName(pool, index) == Text(pool, name)
  {
    var raw := Written(ClassConstant(name));
    assert raw[1..3] == PackU16(name);
    U16OfPack(raw, 1, name);
  }

  lemma NewSlot(cf: ClassFile, i: nat, e: Constant)
    requires WellFormed(cf) && Bridgeable(cf) && Room(cf) && i < 10 && NewEntries(|Pool(cf)|)[i] == e
    ensures |Pool(Bridged(cf))| == |Pool(cf)| + 10 && Pool(Bridged(cf))[|Pool(cf)| + i] == Some(Written(e))
  {
    hide IsUtf8, Bridged, Pool, WellFormed, Bridgeable, NewEntries;
    BridgedPool(cf);
  }

  lemma BridgeTexts(cf: ClassFile)
    requires WellFormed(cf) && Bridgeable(cf) && Room(cf)
    ensures var n, pool := |Pool(cf)|, Pool(Bridged(cf));
            && Text(pool, n) == Some(TARGET) && Text(pool, n + 1) == Some(RETURNS_STRING)
            && Text(pool, n + 2) == Some(CODE) && Text(pool, n + 3) == Some(RETURNS_OBJECT)
            && ClassName(pool, n + 5) == Some(BAN_ENTRY) && ClassName(pool, n + 7) == Some(STRING)
  {
    hide IsUtf8, Written, Text, ClassName, PackU16, Bridged, Pool, WellFormed, Bridgeable, PoolSlots, PoolBytes;
    var n, pool := |Pool(cf)|, Pool(Bridged(cf));
    NewSlot(cf, 0, Utf8Constant(TARGET));
    NewSlot(cf, 1, Utf8Constant(RETURNS_STRING));
    NewSlot(cf, 2, Utf8Constant(CODE));
    NewSlot(cf, 3, Utf8Constant(RETURNS_OBJECT));
    NewSlot(cf, 4, Utf8Constant(BAN_ENTRY));
    NewSlot(cf, 5, ClassConstant(n + 4));
    NewSlot(cf, 6, Utf8Constant(STRING));
    NewSlot(cf, 7, ClassConstant(n + 6));
    AsciiDecodes("getTarget");
    AsciiDecodes("()Ljava/lang/String;");
    AsciiDecodes("Code");
    AsciiDecodes("()Ljava/lang/Object;");
    AsciiDecodes("org/bukkit/BanEntry");
    AsciiDecodes("java/lang/String");
    TextOfUtf8(pool, n, TARGET);
    TextOfUtf8(pool, n + 1, RETURNS_STRING);
    TextOfUtf8(pool, n + 2, CODE);
    TextOfUtf8(pool, n + 3, RETURNS_OBJECT);
    TextOfUtf8(pool, n + 4, BAN_ENTRY);
    TextOfUtf8(pool, n + 6, STRING);
    NameOfClass(pool, n + 5, n + 4);
    NameOfClass(pool, n + 7, n + 6);
  }

  /** The reference of the bridge's invokeinterface: BanEntry.getTarget()Object. */
  lemma BridgeCalls(cf: ClassFile)
    requires WellFormed(cf) && Bridgeable(cf) && Room(cf)
    ensures var n, pool := |Pool(cf)|, Pool(Bridged(cf));
            && |pool| == n + 10
            && BridgeCode(n)[..2] == [0x2A, 0xB9] && U16(BridgeCode(n), 2) == n + 9
            && BridgeCode(n)[6] == 0xC0 && U16(BridgeCode(n), 7) == n + 7 && BridgeCode(n)[9] == 0xB0
            && pool[n + 9] == Some(Written(InterfaceMethodref(n + 5, n + 8))) && pool[n + 8] == Some(Written(NameAndType(n, n + 3)))
  {
    hide IsUtf8, Written, PackU16, Bridged, Pool, WellFormed, Bridgeable, PoolSlots, PoolBytes, BridgeCode, NewEntries, U16;
    CodeIndices(|Pool(cf)|);
    CalledReference(cf);
  }

  lemma CalledReference(cf: ClassFile)
    requires WellFormed(cf) && Bridgeable(cf) && Room(cf)
    ensures var n, pool := |Pool(cf)|, Pool(Bridged(cf));
            && |pool| == n + 10
            && pool[n + 9] == Some(Written(InterfaceMethodref(n + 5, n + 8))) && pool[n + 8] == Some(Written(NameAndType(n, n + 3)))
  {
    hide IsUtf8, Written, PackU16, Bridged, Pool, WellFormed, Bridgeable, PoolSlots, PoolBytes, BridgeCode;
    var n := |Pool(cf)|;
    NewSlot(cf, 8, NameAndType(n, n + 3));
    NewSlot(cf, 9, InterfaceMethodref(n + 5, n + 8));
  }

  lemma CodeIndices(n: nat)
    requires n + 10 < 0x1_0000
    ensures BridgeCode(n)[..2] == [0x2A, 0xB9] && U16(BridgeCode(n), 2) == n + 9
    ensures BridgeCode(n)[6] == 0xC0 && U16(BridgeCode(n), 7) == n + 7 && BridgeCode(n)[9] == 0xB0
  {
    var c := BridgeCode(n);
    assert c[2..4] == PackU16(n + 9) && c[7..9] == PackU16(n + 7);
    U16OfPack(c, 2, n + 9);
    U16OfPack(c, 7, n + 7);
  }

  lemma BridgeFixed(n: nat)
    requires n + 10 < 0x1_0000
    ensures U16(BridgeMethod(n).fixed, 2) == n && U16(BridgeMethod(n).fixed, 4) == n + 1
  {
    var fixed := BridgeMethod(n).fixed;
    assert fixed[2..4] == PackU16(n) && fixed[4..6] == PackU16(n + 1);
    U16OfPack(fixed, 2, n);
    U16OfPack(fixed, 4, n + 1);
  }

  /** The rewritten class is well formed, and it has the method that makes a second run a no-op. */
  lemma BridgedIsWellFormed(cf: ClassFile)
    requires WellFormed(cf) && Bridgeable(cf) && Room(cf)
    ensures WellFormed(Bridged(cf)) && IsTarget(BridgeMethod(|Pool(cf)|), Pool(Bridged(cf)))
    ensures HasTarget(Bridged(cf).methods, Pool(Bridged(cf)))
    ensures Readable(cf) ==> Readable(Bridged(cf))
  {
    hide IsUtf8, Written, Text, ClassName, PackU16, PoolSlots, NewEntries, PoolBytes, U16, ValidAttributes, BridgeMethod, ReadableMethods;
    var n, after := |Pool(cf)|, Bridged(cf);
    BridgedPool(cf);
    BridgeTexts(cf);
    BridgeFixed(n);
    TextStable(Pool(cf), Pool(after));
    assert BridgeMethod(n) in after.methods;
    if Readable(cf) {
      ReadableWithBridge(cf.methods, BridgeMethod(n), Pool(cf), Pool(after));
    }
  }

  lemma {:induction false} ReadableWithBridge(ms: seq<Member>, bridge: Member, pool: Slots, longer: Slots)
    requires ReadableMethods(ms, pool) && !HasTarget(ms, pool) && IsTarget(bridge, longer) && Extends(pool, longer)
    ensures ReadableMethods(ms + [bridge], longer)
    decreases |ms|
  {
    hide Text, Extends;
    if ms == [] {
      assert ms + [bridge] == [bridge];
    } else {
      assert (ms + [bridge])[1..] == ms[1..] + [bridge];
      assert ms[0] in ms && !IsTarget(ms[0], pool);
      TextStable(pool, longer);
      ReadableWithBridge(ms[1..], bridge, pool, longer);
    }
  }

  /** Running the rewrite twice is running it once. */
  lemma RewriteIsIdempotent(cf: ClassFile)
    requires WellFormed(cf) && (Bridgeable(cf) ==> Room(cf))
    ensures WellFormed(Bridged(cf)) && !Bridgeable(Bridged(cf)) && Bridged(Bridged(cf)) == Bridged(cf)
    ensures Readable(cf) ==> Readable(Bridged(cf))
  {
    hide IsUtf8, WellFormed, Pool, HasTarget;
    if Bridgeable(cf) {
      BridgedIsWellFormed(cf);
    }
  }

  // ------------------------------------------------------------------ the rewrite

  /** Splices the new method and the raised method count into the bytes behind the pool. */
  function Spliced(body: seq<byte>, countAt: nat, insertion: nat, member: seq<byte>): (r: Option<seq<byte>>)
    requires countAt + 2 <= |body| && countAt + 2 <= insertion
  {
    var prefix := Slice(body, 0, insertion);
    var count := U16(prefix, countAt) + 1;
    if count >= 0x1_0000 then None
    else Some(prefix[..countAt] + PackU16(count) + prefix[countAt + 2..] + member + Slice(body, insertion, insertion + |body|))
  }

  ghost function CpAt(cf: ClassFile): nat {
    10 + |PoolBytes(cf.pool)|
  }

  ghost function MethodsAt(cf: ClassFile): nat
    requires WellFormed(cf)
  {
    CpAt(cf) + 10 + |cf.interfaces| + |EncodeMembers(cf.fields)|
  }

  ghost function EndAt(cf: ClassFile): nat
    requires WellFormed(cf)
  {
    MethodsAt(cf) + 2 + |EncodeMembers(cf.methods)|
  }

  /** Where the rewriter's walks arrive in an encoding. */
  lemma EncodingWalks(cf: ClassFile)
    requires WellFormed(cf)
    ensures var data := Encode(cf);
            && |data| >= 10 && U16(data, 8) == |Pool(cf)|
            && Entries(data, 10, 1, |Pool(cf)|) == Some((CpAt(cf), PoolSlots(cf.pool)))
            && CpAt(cf) + 6 <= |data| && U16(data, CpAt(cf) + 2) == U16(cf.head, 2)
            && MethodTable(data, CpAt(cf)) == Some((MethodsAt(cf), EndAt(cf)))
            && U16(data, MethodsAt(cf)) == |cf.methods|
            && Targets(data, MethodsAt(cf) + 2, |cf.methods|, Pool(cf))
               == if ReadableMethods(cf.methods, Pool(cf)) then Some(HasTarget(cf.methods, Pool(cf))) else None
  {
    hide IsUtf8, Encode, EncodeMembers, MethodTable, Targets, PoolSlots, Entries, U16, PackU16, EncodeTable, EncodeFront;
    var cp, fields, methods, end := Lay(cf);
    LaidWalks(Encode(cf), cf, cp, fields, methods, end);
  }

  /** The bytes behind the pool, cut at the method count and at the end of the method table. */
  lemma BodyPieces(cf: ClassFile)
    requires WellFormed(cf)
    ensures var data, cp, at, end := Encode(cf), CpAt(cf), MethodsAt(cf), EndAt(cf);
            && 8 <= cp <= at && at + 2 <= end <= |data|
            && data[..8] == cf.header
            && data[cp..at] == EncodeFront(cf) + (PackU16(|cf.fields|) + EncodeMembers(cf.fields))
            && data[at + 2..end] == EncodeMembers(cf.methods)
            && data[end..] == EncodeTable(cf.attributes)
  {
    hide IsUtf8, Encode, EncodeMembers, PoolSlots, U16, PackU16, EncodeTable, PoolBytes;
    var data := Encode(cf);
    var cp, fields, methods, end := Lay(cf);
    var front, fs := EncodeFront(cf), PackU16(|cf.fields|) + EncodeMembers(cf.fields);
    assert data[..8] == data[0..0 + 8] == cf.header;
    assert fields == cp + |front| && methods == fields + |fs|;
    assert data[cp..fields] == front && data[fields..methods] == fs;
    assert data[cp..methods] == data[cp..fields] + data[fields..methods];
    HoldsParts(data, methods, PackU16(|cf.methods|), EncodeMembers(cf.methods));
  }

  lemma OneMember(m: Member)
    requires ValidMembers([m])
    ensures EncodeMembers([m]) == m.fixed + EncodeTable(m.attributes)
  {
    hide IsUtf8, EncodeTable;
    assert [m][1..] == [];
  }

  /** method_info with one Code attribute: max_stack 1, max_locals 1, ten bytes, no tables. */
  function MethodBytes(name: nat, descriptor: nat, codeName: nat, targetRef: nat, stringClass: nat): seq<byte>
    requires name < 0x1_0000 && descriptor < 0x1_0000 && codeName < 0x1_0000 && targetRef < 0x1_0000 && stringClass < 0x1_0000
  {
    var code := [0x2A, 0xB9] + PackU16(targetRef) + [0x01, 0x00, 0xC0] + PackU16(stringClass) + [0xB0];
    PackU16(1) + PackU16(name) + PackU16(descriptor) + PackU16(1) + PackU16(codeName) + PackU32(22)
    + PackU16(1) + PackU16(1) + PackU32(10) + code + PackU16(0) + PackU16(0)
  }

  function BridgeBytes(n: nat): seq<byte>
    requires n + 10 < 0x1_0000
  {
    MethodBytes(n, n + 1, n + 2, n + 9, n + 7)
  }

  lemma BridgeBytesAreMember(n: nat)
    requires n + 10 < 0x1_0000
    ensures ValidMembers([BridgeMethod(n)]) && EncodeMembers([BridgeMethod(n)]) == BridgeBytes(n)
  {
    hide IsUtf8, PackU16, PackU32;
    var m := BridgeMethod(n);
    OneMember(m);
    var a := m.attributes[0];
    assert m.attributes[1..] == [];
    assert EncodeAttributes([]) == [];
    assert EncodeAttributes(m.attributes) == a.name + PackU32(22) + a.body;
  }

  /** The splice, piece by piece. */
  lemma SpliceOfPieces(data: seq<byte>, cp: nat, at: nat, end: nat, count: nat, member: seq<byte>)
    requires cp <= at && at + 2 <= end <= |data| && U16(data, at) == count
    ensures Spliced(data[cp..], at - cp, end - cp, member)
            == if count + 1 >= 0x1_0000 then None
               else Some(data[cp..at] + PackU16(count + 1) + data[at + 2..end] + member + data[end..])
  {
    hide PackU16, U16, Slice;
    SplicedPrefix(data, cp, at, end);
    SplicedRest(data, cp, end);
  }

  lemma SplicedPrefix(data: seq<byte>, cp: nat, at: nat, end: nat)
    requires cp <= at && at + 2 <= end <= |data|
    ensures var prefix := Slice(data[cp..], 0, end - cp);
            && |prefix| == end - cp && U16(prefix, at - cp) == U16(data, at)
            && prefix[..at - cp] == data[cp..at] && prefix[at - cp + 2..] == data[at + 2..end]
  {
    var prefix := Slice(data[cp..], 0, end - cp);
    assert prefix == data[cp..end];
    assert prefix[at - cp] == data[at] && prefix[at - cp + 1] == data[at + 1];
  }

  lemma SplicedRest(data: seq<byte>, cp: nat, end: nat)
    requires cp <= end <= |data|
    ensures Slice(data[cp..], end - cp, end - cp + |data[cp..]|) == data[end..]
  {
  }

  /** The output of the rewriter, from the walks' results. */
  function Output(data: seq<byte>, cp: nat, at: nat, end: nat, pool: Slots): Option<seq<byte>>
    requires 8 <= cp <= at && at + 2 <= |data| && at + 2 <= end && |pool| + 10 < 0x1_0000 && |pool| > 0
  {
    var longer := pool + PoolSlots(NewEntries(|pool|));
    var body := Spliced(data[cp..], at - cp, end - cp, BridgeBytes(|pool|));
    if body.None? then None else Some(data[..8] + PackU16(|pool| + 10) + Join(longer[1..]) + body.value)
  }

  lemma Reassociate(h: seq<byte>, n: seq<byte>, p: seq<byte>, f: seq<byte>, fs: seq<byte>, c: seq<byte>, ms: seq<byte>, m: seq<byte>, a: seq<byte>)
    ensures h + n + p + (f + fs + c + ms + m + a) == h + n + p + f + fs + (c + (ms + m)) + a
  {
  }

  lemma BridgedPoolBytes(cf: ClassFile)
    requires WellFormed(cf) && Bridgeable(cf) && Room(cf)
    ensures var longer := Pool(cf) + PoolSlots(NewEntries(|Pool(cf)|));
            longer == Pool(Bridged(cf)) && Join(longer[1..]) == PoolBytes(Bridged(cf).pool)
  {
    hide IsUtf8, PoolSlots, NewEntries, PoolBytes, Join, WellFormed, Bridgeable, Room;
    BridgedPool(cf);
    JoinOfPool(Bridged(cf).pool);
    assert Pool(Bridged(cf))[1..] == PoolSlots(Bridged(cf).pool);
  }

  lemma BridgedEncoding(cf: ClassFile)
    requires WellFormed(cf) && Bridgeable(cf) && Room(cf) && WellFormed(Bridged(cf))
    ensures Encode(Bridged(cf)) ==
              cf.header + PackU16(|Pool(cf)| + 10) + PoolBytes(Bridged(cf).pool) + EncodeFront(cf)
              + (PackU16(|cf.fields|) + EncodeMembers(cf.fields))
              + (PackU16(|cf.methods| + 1) + (EncodeMembers(cf.methods) + BridgeBytes(|Pool(cf)|)))
              + EncodeTable(cf.attributes)
  {
    hide IsUtf8, PoolSlots, NewEntries, PoolBytes, Pool, PackU16, BridgeBytes, BridgeMethod, EncodeMembers, EncodeTable, ClassName, HasTarget;
    BridgedPool(cf);
    BridgeBytesAreMember(|Pool(cf)|);
    MembersJoin(cf.methods, [BridgeMethod(|Pool(cf)|)]);
  }

  lemma OutputPieces(cf: ClassFile)
    requires WellFormed(cf) && Bridgeable(cf) && Room(cf) && WellFormed(Bridged(cf))
    requires 8 <= CpAt(cf) <= MethodsAt(cf) && MethodsAt(cf) + 2 <= EndAt(cf) <= |Encode(cf)|
    requires U16(Encode(cf), MethodsAt(cf)) == |cf.methods|
    ensures Output(Encode(cf), CpAt(cf), MethodsAt(cf), EndAt(cf), Pool(cf)) == Some(Encode(Bridged(cf)))
  {
    hide IsUtf8, PoolSlots, NewEntries, PoolBytes, Pool, PackU16, BridgeBytes, EncodeMembers, EncodeTable, EncodeFront, Encode,
         ClassName, Bridgeable, Bridged, CpAt, MethodsAt, EndAt, Spliced, U16, Join;
    var n := |Pool(cf)|;
    BodyPieces(cf);
    SpliceOfPieces(Encode(cf), CpAt(cf), MethodsAt(cf), EndAt(cf), |cf.methods|, BridgeBytes(n));
    BridgedPoolBytes(cf);
    BridgedEncoding(cf);
    Reassociate(cf.header, PackU16(n + 10), PoolBytes(Bridged(cf).pool), EncodeFront(cf),
                PackU16(|cf.fields|) + EncodeMembers(cf.fields), PackU16(|cf.methods| + 1),
                EncodeMembers(cf.methods), BridgeBytes(n), EncodeTable(cf.attributes));
  }

  lemma OutputIsEncoding(cf: ClassFile)
    requires WellFormed(cf) && Bridgeable(cf) && |Pool(cf)| + 10 < 0x1_0000
    ensures 8 <= CpAt(cf) <= MethodsAt(cf) && MethodsAt(cf) + 2 <= EndAt(cf) <= |Encode(cf)|
    ensures var out := Output(Encode(cf), CpAt(cf), MethodsAt(cf), EndAt(cf), Pool(cf));
            if Room(cf) then WellFormed(Bridged(cf)) && out == Some(Encode(Bridged(cf))) else out.None?
  {
    hide IsUtf8, Encode, Bridged, Pool, ClassName, Bridgeable, BridgeBytes, PoolSlots, NewEntries, Join, PackU16, Spliced, CpAt, MethodsAt, EndAt, U16, MethodTable, Targets, Entries;
    var n := |Pool(cf)|;
    BodyPieces(cf);
    EncodingWalks(cf);
    SpliceOfPieces(Encode(cf), CpAt(cf), MethodsAt(cf), EndAt(cf), |cf.methods|, BridgeBytes(n));
    if Room(cf) {
      BridgedIsWellFormed(cf);
      OutputPieces(cf);
    }
  }

  /** What `add_utf8` appends. */
  function Utf8(text: ShortText): (e: seq<byte>)
    ensures e == Written(Utf8Constant(text))
  {
    hide IsUtf8, PackU16;
    [1] + PackU16(|text|) + text
  }

  /** What `add_class` appends. */
  function ClassEntry(name: u2): (e: seq<byte>)
    ensures e == Written(ClassConstant(name))
  {
    hide IsUtf8, PackU16;
    [7] + PackU16(name)
  }

  /** What `add_name_type` appends. */
  function NameTypeEntry(name: u2, descriptor: u2): (e: seq<byte>)
    ensures e == Written(NameAndType(name, descriptor))
  {
    hide IsUtf8, PackU16;
    [12] + PackU16(name) + PackU16(descriptor)
  }

  /** What `add_interface_method` appends. */
  function InterfaceMethodEntry(owner: u2, nameAndType: u2): (e: seq<byte>)
    ensures e == Written(InterfaceMethodref(owner, nameAndType))
  {
    hide IsUtf8, PackU16;
    [11] + PackU16(owner) + PackU16(nameAndType)
  }

  method AddEntry(pool: Slots, e: seq<byte>) returns (longer: Slots, index: nat)
    ensures longer == pool + [Some(e)] && index == |pool|
  {
    index := |pool|;
    longer := pool + [Some(e)];
  }

  /** The ten appends, in order, and the indices the new method uses. */
  method AddBridgeEntries(pool: Slots) returns (longer: Slots, name: nat, descriptor: nat, code: nat, stringClass: nat, targetRef: nat)
    requires |pool| + 10 < 0x1_0000
    ensures longer == pool + PoolSlots(NewEntries(|pool|)) && |longer| == |pool| + 10
    ensures name == |pool| && descriptor == |pool| + 1 && code == |pool| + 2 && stringClass == |pool| + 7 && targetRef == |pool| + 9
  {
    hide IsUtf8, Utf8, ClassEntry, NameTypeEntry, InterfaceMethodEntry, PoolSlots, Written;
    var objectDescriptor, banName, banClass, stringName, nameType;
    longer, name := AddEntry(pool, Utf8(TARGET));
    longer, descriptor := AddEntry(longer, Utf8(RETURNS_STRING));
    longer, code := AddEntry(longer, Utf8(CODE));
    longer, objectDescriptor := AddEntry(longer, Utf8(RETURNS_OBJECT));
    longer, banName := AddEntry(longer, Utf8(BAN_ENTRY));
    longer, banClass := AddEntry(longer, ClassEntry(banName));
    longer, stringName := AddEntry(longer, Utf8(STRING));
    longer, stringClass := AddEntry(longer, ClassEntry(stringName));
    longer, nameType := AddEntry(longer, NameTypeEntry(name, objectDescriptor));
    longer, targetRef := AddEntry(longer, InterfaceMethodEntry(banClass, nameType));
    NewEntriesNarrow(|pool|);
    NarrowPool(NewEntries(|pool|));
  }

  /**
   On the encoding of a class file this returns the encoding of the rewritten class file, and it
   raises exactly when a name it looks at cannot be read, or the pool or the method table of the
   class to rewrite has no room left.
   */
  method Transform(data: seq<byte>, ghost cf: ClassFile) returns (r: Option<seq<byte>>)
    ensures WellFormed(cf) && data == Encode(cf) ==>
              if !Readable(cf) || (Bridgeable(cf) && !Room(cf)) then r.None?
              else WellFormed(Bridged(cf)) && r == Some(Encode(Bridged(cf)))
  {
    hide IsUtf8, Encode, Pool, U16, PackU16, MethodTable, Targets, Entries, Slice, Spliced, HasTarget, ClassName,
         MethodsAt, EndAt, CpAt, PoolSlots, NewEntries, MethodBytes, Join, BridgeBytes;
    ghost var encodes := WellFormed(cf) && data == Encode(cf);
    if encodes {
      EncodingWalks(cf);
      PoolIs(cf);
    }
    var parsed := PoolEnd(data);
    if parsed.None? {
      return None;
    }
    var (count, cpOffset, pool) := parsed.value;
    if cpOffset + 4 > |data| {
      return None;
    }
    var className := ClassName(pool, U16(data, cpOffset + 2));
    if className.None? {
      return None;
    }
    if className.value != BAN_ENTRY {
      return Some(data);
    }
    var present := HasStringTarget(data, cpOffset, pool);
    if present.None? {
      return None;
    }
    if present.value {
      return Some(data);
    }
    // From here on `struct.pack` raises for any index that does not fit sixteen bits.
    if |pool| + 10 >= 0x1_0000 {
      return None;
    }
    var longer, name, descriptor, code, stringClass, targetRef := AddBridgeEntries(pool);
    var table := MethodTableOffset(data, cpOffset);
    var (countAt, end) := table.value;
    var member := MethodBytes(name, descriptor, code, targetRef, stringClass);
    var body := Spliced(data[cpOffset..], countAt - cpOffset, end - cpOffset, member);
    if encodes {
      OutputIsEncoding(cf);
      assert member == BridgeBytes(|pool|) by { BridgeBytesAre(|pool|); }
    }
    if body.None? {
      return None;
    }
    r := Some(data[..8] + PackU16(|longer|) + Join(longer[1..]) + body.value);
  }

  lemma BridgeBytesAre(n: nat)
    requires n + 10 < 0x1_0000
    ensures BridgeBytes(n) == MethodBytes(n, n + 1, n + 2, n + 9, n + 7)
  {
  }

  lemma PoolIs(cf: ClassFile)
    ensures Pool(cf) == [None] + PoolSlots(cf.pool)
  {
  }
}
