/**
 The instruction decoder `code_accesses` of dev/plugin_link_check.py, measured against the
 assembler of section 6.5 of the Java Virtual Machine Specification.
 */
module Bytecode {
  import opened Bytes
  import opened JvmInstructions
  import opened Wrappers

  const TAG_FIELDREF: nat := 9

  /** What a member-reference index of the constant pool stands for. */
  datatype MemberRef = MemberRef(tag: nat, owner: string, name: string, descriptor: string)

  /** The indices `member_ref` resolves; every other index raises. */
  type Pool = map<nat, MemberRef>

  datatype Access = Access(opcode: byte, ref: MemberRef)

  datatype Fault =
    | TruncatedSwitch
    | InvalidSwitchBounds
    | TruncatedWide
    | InvalidWideOpcode
    | ReservedOpcode
    | TruncatedInstruction
    | InvalidReference
    | WrongKind

  predicate IsAccess(op: byte) { 0xb2 <= op <= 0xb9 }

  predicate IsFieldOp(op: byte) { 0xb2 <= op <= 0xb5 }

  predicate OneOperand(op: byte) {
    op == 0x10 || op == 0x12 || op == 0xa9 || op == 0xbc || 0x15 <= op < 0x1a || 0x36 <= op < 0x3b
  }

  predicate TwoOperands(op: byte) {
    || op == 0x11 || op == 0x13 || op == 0x14 || op == 0x84
    || 0x99 <= op < 0xa9 || 0xb2 <= op < 0xb9
    || op == 0xbb || op == 0xbd || op == 0xc0 || op == 0xc1 || op == 0xc6 || op == 0xc7
  }

  predicate FourOperands(op: byte) { op == 0xb9 || op == 0xba || op == 0xc8 || op == 0xc9 }

  predicate Widenable(op: byte) { 0x15 <= op < 0x1a || 0x36 <= op < 0x3b || op == 0xa9 }

  function Padding(offset: nat): nat {
    (4 - offset % 4) % 4
  }

  // ------------------------------------------------------------------ the decoder

  /** Where the instruction at `start` ends, as `code_accesses` measures it. */
  function Extent(code: seq<byte>, start: nat): Result<nat, Fault>
    requires start < |code|
  {
    var op := code[start];
    if op == 0xaa || op == 0xab then
      var o := start + 1 + Padding(start + 1);
      if o + 8 > |code| then Err(TruncatedSwitch)
      else if op == 0xaa then
        if o + 12 > |code| then Err(TruncatedSwitch)
        else
          var count: int := S32(code, o + 8) - S32(code, o + 4) + 1;
          if count < 0 || count > (|code| - o - 12) / 4 then Err(InvalidSwitchBounds) else Ok(o + 12 + count * 4)
      else
        var count: int := S32(code, o + 4);
        if count < 0 || count > (|code| - o - 8) / 8 then Err(InvalidSwitchBounds) else Ok(o + 8 + count * 8)
    else if op == 0xc4 then
      if start + 1 >= |code| then Err(TruncatedWide)
      else
        var widened := code[start + 1];
        if widened != 0x84 && !Widenable(widened) then Err(InvalidWideOpcode)
        else
          var end := if widened == 0x84 then start + 6 else start + 4;
          if end > |code| then Err(TruncatedInstruction) else Ok(end)
    else if op > 0xc9 then Err(ReservedOpcode)
    else
      var end := start + 1 + OperandCount(op);
      if end > |code| then Err(TruncatedInstruction) else Ok(end)
  }

  function OperandCount(op: byte): nat {
    if OneOperand(op) then 1
    else if TwoOperands(op) then 2
    else if op == 0xc5 then 3
    else if FourOperands(op) then 4
    else 0
  }

  /** The member an instruction reaches, checked against the kind its opcode needs. */
  function Reached(op: byte, index: nat, pool: Pool): Result<seq<Access>, Fault> {
    if index !in pool then Err(InvalidReference)
    else if IsFieldOp(op) != (pool[index].tag == TAG_FIELDREF) then Err(WrongKind)
    else Ok([Access(op, pool[index])])
  }

  function AccessAt(code: seq<byte>, pool: Pool, start: nat): Result<seq<Access>, Fault>
    requires start < |code|
  {
    if IsAccess(code[start]) && start + 3 <= |code| then Reached(code[start], U16(code, start + 1), pool) else Ok([])
  }

  /** Everything from `start` on: the first fault, or the accesses in order. */
  function Decoded(code: seq<byte>, pool: Pool, start: nat): (r: Result<seq<Access>, Fault>)
    requires start <= |code|
    decreases |code| - start
  {
    if start == |code| then Ok([])
    else
      var end := Extent(code, start);
      if end.Err? then Err(end.error)
      else
        var here := AccessAt(code, pool, start);
        if here.Err? then here
        else if end.value <= start || end.value > |code| then Err(TruncatedInstruction)
        else
          var rest := Decoded(code, pool, end.value);
          if rest.Err? then rest else Ok(here.value + rest.value)
  }

  lemma ExtentAdvances(code: seq<byte>, start: nat)
    requires start < |code|
    ensures var end := Extent(code, start); end.Ok? ==> start < end.value <= |code|
  {
  }

  /** What `Decoded` does once the extent of the first instruction is known. */
  lemma DecodedStep(code: seq<byte>, pool: Pool, at: nat, end: nat)
    requires at < |code| && Extent(code, at) == Ok(end)
    ensures at < end <= |code|
    ensures Decoded(code, pool, at) ==
              var here := AccessAt(code, pool, at);
              if here.Err? then here
              else
                var rest := Decoded(code, pool, end);
                if rest.Err? then rest else Ok(here.value + rest.value)
  {
    ExtentAdvances(code, at);
  }

  /** The accesses found so far, followed by what is still to decode, are the whole answer. */
  ghost predicate Progress(code: seq<byte>, pool: Pool, accesses: seq<Access>, offset: nat) {
    && offset <= |code|
    && var all, rest := Decoded(code, pool, 0), Decoded(code, pool, offset);
    if rest.Err? then all == rest else all == Ok(accesses + rest.value)
  }

  lemma ProgressStarts(code: seq<byte>, pool: Pool)
    ensures Progress(code, pool, [], 0)
  {
    assert forall rest: seq<Access> :: [] + rest == rest;
  }

  lemma ProgressEnds(code: seq<byte>, pool: Pool, accesses: seq<Access>)
    requires Progress(code, pool, accesses, |code|)
    ensures Decoded(code, pool, 0) == Ok(accesses)
  {
    assert accesses + [] == accesses;
  }

  /** One turn of the loop: a fault is the answer, and an instruction moves the offset on. */
  lemma ProgressStep(code: seq<byte>, pool: Pool, accesses: seq<Access>, start: nat)
    requires Progress(code, pool, accesses, start) && start < |code|
    ensures var end, here := Extent(code, start), AccessAt(code, pool, start);
            if end.Err? then Decoded(code, pool, 0) == Err(end.error)
            else if here.Err? then Decoded(code, pool, 0) == here
            else start < end.value <= |code| && Progress(code, pool, accesses + here.value, end.value)
  {
    var end, here := Extent(code, start), AccessAt(code, pool, start);
    if end.Ok? && here.Ok? {
      DecodedStep(code, pool, start, end.value);
      var rest := Decoded(code, pool, end.value);
      if rest.Ok? {
        assert accesses + (here.value + rest.value) == accesses + here.value + rest.value;
      }
    } else if end.Ok? {
      DecodedStep(code, pool, start, end.value);
    }
  }

  /** One turn of the loop of `code_accesses`, up to the check that the instruction is whole. */
  method InstructionEnd(code: seq<byte>, start: nat) returns (r: Result<nat, Fault>)
    requires start < |code|
    ensures r == Extent(code, start)
  {
    hide S32, U16;
    var opcode := code[start];
    var offset := start + 1;
    if opcode == 0xaa || opcode == 0xab {
      offset := offset + (4 - offset % 4) % 4;
      if offset + 8 > |code| {
        return Err(TruncatedSwitch);
      }
      if opcode == 0xaa {
        if offset + 12 > |code| {
          return Err(TruncatedSwitch);
        }
        var low: int, high: int := S32(code, offset + 4), S32(code, offset + 8);
        var count: int := high - low + 1;
        if count < 0 || count > (|code| - offset - 12) / 4 {
          return Err(InvalidSwitchBounds);
        }
        offset := offset + 12 + count * 4;
      } else {
        var count: int := S32(code, offset + 4);
        if count < 0 || count > (|code| - offset - 8) / 8 {
          return Err(InvalidSwitchBounds);
        }
        offset := offset + 8 + count * 8;
      }
      return Ok(offset);
    }
    if opcode == 0xc4 {
      if offset >= |code| {
        return Err(TruncatedWide);
      }
      var widened := code[offset];
      if widened == 0x84 {
        offset := offset + 5;
      } else if Widenable(widened) {
        offset := offset + 3;
      } else {
        return Err(InvalidWideOpcode);
      }
    } else if OneOperand(opcode) {
      offset := offset + 1;
    } else if TwoOperands(opcode) {
      offset := offset + 2;
    } else if opcode == 0xc5 {
      offset := offset + 3;
    } else if FourOperands(opcode) {
      offset := offset + 4;
    } else if opcode > 0xc9 {
      return Err(ReservedOpcode);
    }
    if offset > |code| {
      return Err(TruncatedInstruction);
    }
    r := Ok(offset);
  }

  method CodeAccesses(code: seq<byte>, pool: Pool) returns (r: Result<seq<Access>, Fault>)
    ensures r == Decoded(code, pool, 0)
  {
    hide Extent, U16, Decoded, Progress;
    var accesses, offset := [], 0;
    ProgressStarts(code, pool);
    while offset < |code|
      invariant offset <= |code| && Progress(code, pool, accesses, offset)
    {
      ProgressStep(code, pool, accesses, offset);
      var (start, opcode) := (offset, code[offset]);
      var end := InstructionEnd(code, start);
      if end.Err? {
        return Err(end.error);
      }
      offset := end.value;
      if IsAccess(opcode) {
        AccessIsWhole(code, start);
        var index := U16(code, start + 1);
        if index !in pool {
          return Err(InvalidReference);
        }
        if IsFieldOp(opcode) != (pool[index].tag == TAG_FIELDREF) {
          return Err(WrongKind);
        }
        accesses := accesses + [Access(opcode, pool[index])];
      } else {
        assert accesses + [] == accesses;
      }
    }
    ProgressEnds(code, pool, accesses);
    r := Ok(accesses);
  }

  lemma AccessIsWhole(code: seq<byte>, start: nat)
    requires start < |code| && IsAccess(code[start]) && Extent(code, start).Ok?
    ensures start + 3 <= |code|
  {
    hide S32;
  }

  // ------------------------------------------------------------- the specification

  /** The member one instruction reaches: field instructions want a field, calls anything else. */
  function Access1(i: Insn, pool: Pool): Result<seq<Access>, Fault> {
    var f := if i.Plain? then FormatOf(i.op) else NoOperands;
    if !(f.FieldReference? || f.MethodReference? || f.InterfaceCall?) || |i.operands| < 2 then Ok([])
    else if PoolIndex(i) !in pool then Err(InvalidReference)
    else if f.FieldReference? != (pool[PoolIndex(i)].tag == TAG_FIELDREF) then Err(WrongKind)
    else Ok([Access(i.op, pool[PoolIndex(i)])])
  }

  function AccessesOf(insns: seq<Insn>, pool: Pool): Result<seq<Access>, Fault> {
    if |insns| == 0 then Ok([])
    else
      var here := Access1(insns[0], pool);
      if here.Err? then here
      else
        var rest := AccessesOf(insns[1..], pool);
        if rest.Err? then rest else Ok(here.value + rest.value)
  }

  // ------------------------------------------- the decoder inverts the assembler

  lemma S32Part(code: seq<byte>, at: nat, before: seq<byte>, n: s32, after: seq<byte>)
    requires at <= |code| && code[at..] == before + PackS32(n) + after
    ensures at + |before| + 4 <= |code| && S32(code, at + |before|) == n
  {
    PartAt(code, at, before, PackS32(n), after);
    S32OfPack(code, at + |before|, n);
  }

  lemma PaddingMatches(offset: nat)
    ensures Padding(offset) == PaddingAt(offset)
  {
  }

  lemma SwitchBounds(code: seq<byte>, start: nat, i: Insn, rest: seq<byte>)
    requires start < |code| && i.TableSwitch? && LaidOut(i, start) && code[start..] == Encode(i) + rest
    ensures var o := start + 1 + Padding(start + 1);
            && o + 12 <= |code| && code[start] == 0xaa
            && S32(code, o + 4) == i.low && S32(code, o + 8) == i.high
  {
    hide S32, PackS32, PaddingAt;
    PaddingMatches(start + 1);
    var head, low, high := [0xaa] + i.pad + i.default, PackS32(i.low), PackS32(i.high);
    Regroup(head, low, high, i.offsets, rest);
    S32Part(code, start, head, i.low, high + (i.offsets + rest));
    S32Part(code, start, head + low, i.high, i.offsets + rest);
    assert code[start] == code[start..][0] == 0xaa;
  }

  lemma Regroup(a: seq<byte>, b: seq<byte>, c: seq<byte>, d: seq<byte>, e: seq<byte>)
    ensures a + b + c + d + e == a + b + (c + (d + e))
    ensures a + b + c + d + e == (a + b) + c + (d + e)
  {
  }

  lemma ExtentOfSwitch(code: seq<byte>, start: nat, i: Insn, rest: seq<byte>)
    requires start < |code| && i.TableSwitch? && LaidOut(i, start) && code[start..] == Encode(i) + rest
    ensures Extent(code, start) == Ok(start + |Encode(i)|)
  {
    hide S32, PackS32, FormatOf, PaddingAt;
    SwitchBounds(code, start, i, rest);
    PaddingMatches(start + 1);
  }

  lemma LookupBounds(code: seq<byte>, start: nat, i: Insn, rest: seq<byte>)
    requires start < |code| && i.LookupSwitch? && LaidOut(i, start) && code[start..] == Encode(i) + rest
    ensures var o := start + 1 + Padding(start + 1);
            && o + 8 <= |code| && code[start] == 0xab && S32(code, o + 4) == i.count
  {
    hide S32, PackS32, PaddingAt;
    PaddingMatches(start + 1);
    var head, count := [0xab] + i.pad + i.default, PackS32(i.count);
    Regroup(head, count, i.pairs, rest, []);
    assert head + count + (i.pairs + (rest + [])) == head + count + (i.pairs + rest);
    assert head + count + i.pairs + rest + [] == head + count + i.pairs + rest;
    S32Part(code, start, head, i.count, i.pairs + rest);
    assert code[start] == code[start..][0] == 0xab;
  }

  lemma ExtentOfLookup(code: seq<byte>, start: nat, i: Insn, rest: seq<byte>)
    requires start < |code| && i.LookupSwitch? && LaidOut(i, start) && code[start..] == Encode(i) + rest
    ensures Extent(code, start) == Ok(start + |Encode(i)|)
  {
    hide S32, PackS32, FormatOf, PaddingAt;
    LookupBounds(code, start, i, rest);
    PaddingMatches(start + 1);
  }

  /** The decoder's four tables give every opcode the operand bytes section 6.5 gives it. */
  lemma TablesMatchFormats(op: byte)
    ensures HasFixedOperands(FormatOf(op)) <==> op <= 0xc9 && op != 0xaa && op != 0xab && op != 0xc4
    ensures HasFixedOperands(FormatOf(op)) ==> OperandCount(op) == OperandBytes(FormatOf(op))
    ensures WidenedBytes(FormatOf(op)) == if op == 0x84 then 4 else if Widenable(op) then 2 else 0
    ensures IsAccess(op) <==> FormatOf(op) in {FieldReference, MethodReference, InterfaceCall}
    ensures IsFieldOp(op) <==> FormatOf(op) == FieldReference
  {
    if HasFixedOperands(FormatOf(op)) {
      WidthsAdded(FormatOf(op));
    }
  }

  lemma WidthsAdded(f: Format)
    requires HasFixedOperands(f)
    ensures OperandBytes(f) ==
            match f
            case NoOperands => 0
            case Immediate8 => 1
            case Constant8 => 1
            case LocalVariable => 1
            case ArrayKind => 1
            case ClassAndDimensions => 3
            case InterfaceCall => 4
            case DynamicCall => 4
            case Branch32 => 4
            case _ => 2
  {
    var w := FieldWidths(f);
    assert Sum([]) == 0;
    if |w| == 3 {
      assert w[1..][1..] == [w[2]] && [w[2]][1..] == [];
    }
  }

  lemma FirstBytes(code: seq<byte>, start: nat, i: Insn, rest: seq<byte>)
    requires start < |code| && code[start..] == Encode(i) + rest
    ensures code[start] == Encode(i)[0] && start + |Encode(i)| <= |code|
    ensures i.Wide? ==> start + 2 <= |code| && code[start + 1] == i.op
    ensures i.Plain? && |i.operands| >= 2 ==> start + 3 <= |code| && U16(code, start + 1) == PoolIndex(i)
  {
    hide PackS32;
    assert code[start] == code[start..][0];
    if i.Wide? {
      assert code[start + 1] == code[start..][1];
    } else if i.Plain? && |i.operands| >= 2 {
      assert code[start + 1] == code[start..][1] && code[start + 2] == code[start..][2];
    }
  }

  lemma ExtentOfFixed(code: seq<byte>, start: nat, i: Insn, rest: seq<byte>)
    requires start < |code| && (i.Plain? || i.Wide?) && LaidOut(i, start) && code[start..] == Encode(i) + rest
    ensures Extent(code, start) == Ok(start + |Encode(i)|)
  {
    hide FormatOf, S32, OperandCount, OperandBytes, WidenedBytes, HasFixedOperands, Widenable, U16;
    FirstBytes(code, start, i, rest);
    TablesMatchFormats(i.op);
  }

  lemma AccessOfEncoding(code: seq<byte>, pool: Pool, start: nat, i: Insn, rest: seq<byte>)
    requires start < |code| && LaidOut(i, start) && code[start..] == Encode(i) + rest
    ensures AccessAt(code, pool, start) == Access1(i, pool)
  {
    hide FormatOf, S32, PackS32, OperandCount, OperandBytes, WidenedBytes, HasFixedOperands, IsAccess, IsFieldOp, Widenable, U16;
    FirstBytes(code, start, i, rest);
    TablesMatchFormats(code[start]);
    AccessesAreWide(code[start]);
    PlainAccesses();
  }

  /** An instruction that reaches a member has a two-byte index. */
  lemma AccessesAreWide(op: byte)
    ensures IsAccess(op) ==> HasFixedOperands(FormatOf(op)) && OperandBytes(FormatOf(op)) >= 2
  {
    TablesMatchFormats(op);
  }

  lemma PlainAccesses()
    ensures !IsAccess(0xaa) && !IsAccess(0xab) && !IsAccess(0xc4)
  {
  }

  lemma ExtentOfEncoding(code: seq<byte>, start: nat, i: Insn, rest: seq<byte>)
    requires start < |code| && LaidOut(i, start) && code[start..] == Encode(i) + rest
    ensures Extent(code, start) == Ok(start + |Encode(i)|)
    ensures forall pool :: AccessAt(code, pool, start) == Access1(i, pool)
  {
    hide Extent, AccessAt, Access1, Encode, LaidOut;
    if i.TableSwitch? {
      ExtentOfSwitch(code, start, i, rest);
    } else if i.LookupSwitch? {
      ExtentOfLookup(code, start, i, rest);
    } else {
      ExtentOfFixed(code, start, i, rest);
    }
    forall pool
      ensures AccessAt(code, pool, start) == Access1(i, pool)
    {
      AccessOfEncoding(code, pool, start, i, rest);
    }
  }

  lemma DecodesOne(code: seq<byte>, pool: Pool, at: nat, i: Insn, tail: seq<byte>)
    requires at < |code| && LaidOut(i, at) && code[at..] == Encode(i) + tail
    ensures var end := at + |Encode(i)|;
            && end <= |code| && code[end..] == tail
            && Decoded(code, pool, at) ==
                 var here := Access1(i, pool);
                 if here.Err? then here
                 else
                   var rest := Decoded(code, pool, end);
                   if rest.Err? then rest else Ok(here.value + rest.value)
  {
    hide Extent, AccessAt, Access1, Encode, LaidOut;
    var end := at + |Encode(i)|;
    ExtentOfEncoding(code, at, i, tail);
    DecodedStep(code, pool, at, end);
    assert code[end..] == code[at..][end - at..] == tail;
  }

  lemma {:induction false} AssembledDecodesFrom(insns: seq<Insn>, code: seq<byte>, pool: Pool, at: nat)
    requires at <= |code| && AllLaidOut(insns, at) && code[at..] == Assemble(insns, at)
    ensures Decoded(code, pool, at) == AccessesOf(insns, pool)
    decreases |insns|
  {
    hide Encode, LaidOut, Access1, Extent, AccessAt;
    if |insns| > 0 {
      var end := at + |Encode(insns[0])|;
      DecodesOne(code, pool, at, insns[0], Assemble(insns[1..], end));
      AssembledDecodesFrom(insns[1..], code, pool, end);
    }
  }

  // ----------------------------------------------- accepted code is an encoding

  /** The instruction whose bytes lie between an accepted start and its extent. */
  function InsnAt(code: seq<byte>, start: nat, end: nat): Insn
    requires start < end <= |code|
    requires code[start] == 0xaa || code[start] == 0xab ==> start + 1 + Padding(start + 1) + 8 <= end
    requires code[start] == 0xaa ==> start + 1 + Padding(start + 1) + 12 <= end
    requires code[start] == 0xc4 ==> start + 2 <= end
  {
    var op := code[start];
    var o := start + 1 + Padding(start + 1);
    if op == 0xaa then
      TableSwitch(code[start + 1..o], code[o..o + 4], S32(code, o + 4), S32(code, o + 8), code[o + 12..end])
    else if op == 0xab then LookupSwitch(code[start + 1..o], code[o..o + 4], S32(code, o + 4), code[o + 8..end])
    else if op == 0xc4 then Wide(code[start + 1], code[start + 2..end])
    else Plain(op, code[start + 1..end])
  }

  lemma Cut2(code: seq<byte>, a: nat, b: nat, c: nat)
    requires a <= b <= c <= |code|
    ensures code[a..c] == code[a..b] + code[b..c]
  {
  }

  lemma Cut(code: seq<byte>, a: nat, b: nat, c: nat, d: nat, e: nat, f: nat)
    requires a <= b <= c <= d <= e <= f <= |code|
    ensures code[a..f] == code[a..b] + code[b..c] + code[c..d] + code[d..e] + code[e..f]
  {
    Cut2(code, a, e, f);
    Cut2(code, a, d, e);
    Cut2(code, a, c, d);
    Cut2(code, a, b, c);
  }

  lemma Cut6(code: seq<byte>, start: nat, o: nat, end: nat)
    requires start < o && o + 12 <= end <= |code|
    ensures code[start..end] == [code[start]] + code[start + 1..o] + code[o..o + 4] + code[o + 4..o + 8] + code[o + 8..o + 12] + code[o + 12..end]
  {
    Cut(code, start, start + 1, o, o + 4, o + 8, end);
    var a := code[start..start + 1] + code[start + 1..o] + code[o..o + 4] + code[o + 4..o + 8];
    var b, c := code[o + 8..o + 12], code[o + 12..end];
    Cut2(code, o + 8, o + 12, end);
    assert a + (b + c) == a + b + c;
  }

  lemma SwitchIsEncoding(code: seq<byte>, start: nat, end: nat)
    requires start < |code| && Extent(code, start) == Ok(end) && code[start] == 0xaa
    ensures start + 1 + Padding(start + 1) + 12 <= end <= |code|
    ensures var i := InsnAt(code, start, end); LaidOut(i, start) && Encode(i) == code[start..end]
  {
    hide S32, PackS32, OperandCount, Widenable, FormatOf, PaddingAt;
    var o := start + 1 + Padding(start + 1);
    PaddingMatches(start + 1);
    PackOfS32(code, o + 4);
    PackOfS32(code, o + 8);
    Cut6(code, start, o, end);
  }

  lemma LookupSize(code: seq<byte>, start: nat, end: nat)
    requires start < |code| && Extent(code, start) == Ok(end) && code[start] == 0xab
    ensures var o := start + 1 + Padding(start + 1);
            o + 8 <= end <= |code| && S32(code, o + 4) >= 0 && end - (o + 8) == 8 * S32(code, o + 4)
  {
    hide S32;
  }

  lemma LookupIsEncoding(code: seq<byte>, start: nat, end: nat)
    requires start < |code| && Extent(code, start) == Ok(end) && code[start] == 0xab
    ensures start + 1 + Padding(start + 1) + 8 <= end <= |code|
    ensures var i := InsnAt(code, start, end); LaidOut(i, start) && Encode(i) == code[start..end]
  {
    hide S32, PackS32, FormatOf, PaddingAt, Padding, Extent, Encode;
    var o := start + 1 + Padding(start + 1);
    LookupSize(code, start, end);
    PaddingMatches(start + 1);
    PackOfS32(code, o + 4);
    Cut(code, start, start + 1, o, o + 4, o + 8, end);
    LookupParts(code, start, o, end);
  }

  lemma LookupParts(code: seq<byte>, start: nat, o: nat, end: nat)
    requires start < o && o + 8 <= end <= |code| && code[start] == 0xab && PackS32(S32(code, o + 4)) == code[o + 4..o + 8]
    ensures Encode(LookupSwitch(code[start + 1..o], code[o..o + 4], S32(code, o + 4), code[o + 8..end]))
         == code[start..start + 1] + code[start + 1..o] + code[o..o + 4] + code[o + 4..o + 8] + code[o + 8..end]
  {
    hide S32, PackS32;
    assert code[start..start + 1] == [0xab];
  }

  lemma FixedIsEncoding(code: seq<byte>, start: nat, end: nat)
    requires start < |code| && Extent(code, start) == Ok(end) && code[start] != 0xaa && code[start] != 0xab
    ensures start < end <= |code| && (code[start] == 0xc4 ==> start + 2 <= end)
    ensures var i := InsnAt(code, start, end); LaidOut(i, start) && Encode(i) == code[start..end]
  {
    hide FormatOf, S32, OperandCount, OperandBytes, WidenedBytes, HasFixedOperands, Widenable;
    TablesMatchFormats(code[start]);
    if code[start] == 0xc4 {
      TablesMatchFormats(code[start + 1]);
    }
  }

  lemma ExtentIsEncoding(code: seq<byte>, start: nat, end: nat) returns (i: Insn)
    requires start < |code| && Extent(code, start) == Ok(end)
    ensures start < end <= |code|
    ensures LaidOut(i, start) && Encode(i) == code[start..end]
  {
    hide Extent, LaidOut, Encode;
    if code[start] == 0xaa {
      SwitchIsEncoding(code, start, end);
    } else if code[start] == 0xab {
      LookupIsEncoding(code, start, end);
    } else {
      FixedIsEncoding(code, start, end);
    }
    i := InsnAt(code, start, end);
  }

  lemma ConsAssembles(i: Insn, rest: seq<Insn>, at: nat)
    requires LaidOut(i, at) && AllLaidOut(rest, at + |Encode(i)|)
    ensures AllLaidOut([i] + rest, at)
    ensures Assemble([i] + rest, at) == Encode(i) + Assemble(rest, at + |Encode(i)|)
  {
    hide Encode, LaidOut;
    assert ([i] + rest)[1..] == rest;
  }

  lemma {:induction false} AcceptedIsAssembled(code: seq<byte>, pool: Pool, at: nat) returns (insns: seq<Insn>)
    requires at <= |code| && Decoded(code, pool, at).Ok?
    ensures AllLaidOut(insns, at) && Assemble(insns, at) == code[at..]
    decreases |code| - at
  {
    hide Extent, AccessAt, Encode, LaidOut;
    if at == |code| {
      insns := [];
    } else {
      var end := Extent(code, at).value;
      DecodedStep(code, pool, at, end);
      var i := ExtentIsEncoding(code, at, end);
      var rest := AcceptedIsAssembled(code, pool, end);
      insns := [i] + rest;
      ConsAssembles(i, rest, at);
      assert code[at..] == code[at..end] + code[end..];
    }
  }

  /**
   `code_accesses` accepts exactly the encodings of instruction lists whose member references
   resolve to the right kind, and returns exactly their accesses in order.
   */
  lemma AcceptsExactlyEncodings(code: seq<byte>, pool: Pool, accesses: seq<Access>)
    ensures Decoded(code, pool, 0) == Ok(accesses)
            <==> exists insns :: AllLaidOut(insns, 0) && Assemble(insns, 0) == code && AccessesOf(insns, pool) == Ok(accesses)
  {
    assert code[0..] == code;
    if Decoded(code, pool, 0) == Ok(accesses) {
      var insns := AcceptedIsAssembled(code, pool, 0);
      AssembledDecodesFrom(insns, code, pool, 0);
    }
    if insns :| AllLaidOut(insns, 0) && Assemble(insns, 0) == code && AccessesOf(insns, pool) == Ok(accesses) {
      AssembledDecodesFrom(insns, code, pool, 0);
    }
  }

  // ------------------------------------------------------------- one reading only

  lemma SameConstructor(i: Insn, j: Insn, at: nat)
    requires LaidOut(i, at) && LaidOut(j, at) && Encode(i)[0] == Encode(j)[0]
    ensures (i.Plain? <==> j.Plain?) && (i.Wide? <==> j.Wide?) && (i.TableSwitch? <==> j.TableSwitch?)
    ensures i.Plain? ==> i.op == j.op
  {
    hide PackS32, OperandBytes, WidenedBytes;
  }

  lemma FixedIsRead(at: nat, i: Insn, j: Insn)
    requires LaidOut(i, at) && LaidOut(j, at) && Encode(i) == Encode(j)
    requires (i.Plain? && j.Plain?) || (i.Wide? && j.Wide?)
    ensures i == j
  {
    hide FormatOf, OperandBytes, WidenedBytes;
    if i.Plain? {
      assert Encode(i)[1..] == i.operands && Encode(j)[1..] == j.operands;
      assert Encode(i)[0] == i.op && Encode(j)[0] == j.op;
    } else {
      assert Encode(i)[2..] == i.operands && Encode(j)[2..] == j.operands;
      assert Encode(i)[1] == i.op && Encode(j)[1] == j.op;
    }
  }

  lemma Fields(head: seq<byte>, pad: seq<byte>, default: seq<byte>, numbers: seq<byte>, rest: seq<byte>)
    ensures var (d, n) := (head + pad + default + numbers + rest, |head| + |pad|);
            && d[|head|..n] == pad && d[n..n + |default|] == default && d[n + |default| + |numbers|..] == rest
  {
    var front := head + pad + default;
    assert front[|head|..|head| + |pad|] == pad && front[|head| + |pad|..] == default;
  }

  lemma SwitchFields(i: Insn, at: nat)
    requires LaidOut(i, at) && i.TableSwitch?
    ensures var (d, n) := (Encode(i), 1 + PaddingAt(at + 1));
            |d| >= n + 12 && d[1..n] == i.pad && d[n..n + 4] == i.default && d[n + 12..] == i.offsets
  {
    hide PackS32, PaddingAt;
    Fields([0xaa], i.pad, i.default, PackS32(i.low) + PackS32(i.high), i.offsets);
    assert Encode(i) == [0xaa] + i.pad + i.default + (PackS32(i.low) + PackS32(i.high)) + i.offsets;
  }

  lemma LookupFields(i: Insn, at: nat)
    requires LaidOut(i, at) && i.LookupSwitch?
    ensures var (d, n) := (Encode(i), 1 + PaddingAt(at + 1));
            |d| >= n + 8 && d[1..n] == i.pad && d[n..n + 4] == i.default && d[n + 8..] == i.pairs
  {
    hide PackS32, PaddingAt;
    Fields([0xab], i.pad, i.default, PackS32(i.count), i.pairs);
  }

  lemma SwitchIsRead(code: seq<byte>, at: nat, i: Insn, j: Insn, rest: seq<byte>)
    requires at < |code| && LaidOut(i, at) && LaidOut(j, at) && i.TableSwitch? && j.TableSwitch?
    requires Encode(i) == Encode(j) && code[at..] == Encode(i) + rest
    ensures i == j
  {
    hide S32, PaddingAt, Encode, LaidOut;
    SwitchBounds(code, at, i, rest);
    SwitchBounds(code, at, j, rest);
    SwitchFields(i, at);
    SwitchFields(j, at);
  }

  lemma LookupIsRead(code: seq<byte>, at: nat, i: Insn, j: Insn, rest: seq<byte>)
    requires at < |code| && LaidOut(i, at) && LaidOut(j, at) && i.LookupSwitch? && j.LookupSwitch?
    requires Encode(i) == Encode(j) && code[at..] == Encode(i) + rest
    ensures i == j
  {
    hide S32, PaddingAt, Encode, LaidOut;
    LookupBounds(code, at, i, rest);
    LookupBounds(code, at, j, rest);
    LookupFields(i, at);
    LookupFields(j, at);
  }

  lemma InsnIsRead(code: seq<byte>, at: nat, i: Insn, j: Insn, rest: seq<byte>)
    requires at < |code| && LaidOut(i, at) && LaidOut(j, at) && Encode(i) == Encode(j) && code[at..] == Encode(i) + rest
    ensures i == j
  {
    hide LaidOut, Encode;
    SameConstructor(i, j, at);
    if i.TableSwitch? {
      SwitchIsRead(code, at, i, j, rest);
    } else if i.LookupSwitch? {
      LookupIsRead(code, at, i, j, rest);
    } else {
      FixedIsRead(at, i, j);
    }
  }

  /** Code is the assembly of one instruction list at most. */
  lemma {:induction false} OnlyOneReading(insns: seq<Insn>, others: seq<Insn>, code: seq<byte>, at: nat)
    requires at <= |code| && AllLaidOut(insns, at) && AllLaidOut(others, at)
    requires code[at..] == Assemble(insns, at) == Assemble(others, at)
    ensures insns == others
    decreases |insns|
  {
    hide Encode, LaidOut, Extent;
    if insns != [] && others != [] {
      var (i, j) := (insns[0], others[0]);
      var end := at + |Encode(i)|;
      ExtentOfEncoding(code, at, i, Assemble(insns[1..], end));
      ExtentOfEncoding(code, at, j, Assemble(others[1..], at + |Encode(j)|));
      assert Encode(i) == code[at..][..end - at] == Encode(j);
      InsnIsRead(code, at, i, j, Assemble(insns[1..], end));
      assert code[end..] == code[at..][end - at..];
      OnlyOneReading(insns[1..], others[1..], code, end);
    }
  }

  /** The number of pair `k` of a lookupswitch whose pairs start at `o`. */
  function MatchAt(code: seq<byte>, o: nat, k: nat): s32
    requires o + 8 * k + 4 <= |code|
  {
    S32(code, o + 8 * k)
  }

  predicate Ascending(code: seq<byte>, o: nat, count: s32)
    requires o + 8 * count <= |code|
  {
    forall j: nat, k: nat :: j < k < count ==> MatchAt(code, o, j) < MatchAt(code, o, k)
  }

  /** The bytes that section 6.5 constrains, read at the start of an accepted instruction. */
  predicate LawfulAt(code: seq<byte>, start: nat)
    requires start < |code| && Extent(code, start).Ok?
  {
    var (op, o) := (code[start], start + 1 + Padding(start + 1));
    if op == 0xb9 then code[start + 3] > 0 && code[start + 4] == 0
    else if op == 0xba then code[start + 3] == 0 && code[start + 4] == 0
    else if op == 0xc5 then code[start + 3] > 0
    else if op == 0xbc then 4 <= code[start + 1] <= 11
    else if op == 0xaa then S32(code, o + 4) <= S32(code, o + 8)
    else if op == 0xab then Ascending(code, o + 8, S32(code, o + 4))
    else true
  }

  /** A check of the bytes at every boundary from here on. */
  predicate LawfulFrom(code: seq<byte>, start: nat)
    requires start <= |code|
    decreases |code| - start
  {
    start == |code|
    || (Extent(code, start).Ok? && LawfulAt(code, start)
        && var end := Extent(code, start).value; start < end <= |code| && LawfulFrom(code, end))
  }

  lemma FixedLaw(code: seq<byte>, start: nat, i: Insn, rest: seq<byte>)
    requires start < |code| && LaidOut(i, start) && code[start..] == Encode(i) + rest && (i.Plain? || i.Wide?)
    requires Extent(code, start).Ok?
    ensures LawfulAt(code, start) <==> Lawful(i, start)
  {
    hide S32, PackS32, OperandCount, Widenable;
    FirstBytes(code, start, i, rest);
    if i.Plain? {
      forall k: nat | k < |i.operands|
        ensures code[start + 1 + k] == i.operands[k]
      {
        assert code[start..][1 + k] == code[start + 1 + k];
      }
    }
  }

  lemma SwitchLaw(code: seq<byte>, start: nat, i: Insn, rest: seq<byte>)
    requires start < |code| && LaidOut(i, start) && code[start..] == Encode(i) + rest && i.TableSwitch?
    requires Extent(code, start).Ok?
    ensures LawfulAt(code, start) <==> Lawful(i, start)
  {
    hide S32, PackS32, Padding, PaddingAt, OperandCount, Encode;
    SwitchBounds(code, start, i, rest);
  }

  lemma PairInPlace(code: seq<byte>, start: nat, i: Insn, rest: seq<byte>, k: nat)
    requires start < |code| && LaidOut(i, start) && code[start..] == Encode(i) + rest && i.LookupSwitch? && k < i.count
    ensures var o := start + 1 + Padding(start + 1);
            o + 8 + 8 * k + 4 <= |code| && MatchAt(code, o + 8, k) == Match(i.pairs, k)
  {
    hide PackS32, Padding, PaddingAt, Encode;
    var n := 1 + PaddingAt(start + 1);
    PaddingMatches(start + 1);
    LookupFields(i, start);
    LookupLength(i, start);
    var d := Encode(i);
    SamePart(code, start, d, rest, n + 8, i.pairs, 8 * k);
  }

  /** Four bytes of the part of `d` from `from` on, seen in the code that `d` stands in. */
  lemma SamePart(code: seq<byte>, start: nat, d: seq<byte>, rest: seq<byte>, from: nat, part: seq<byte>, k: nat)
    requires start <= |code| && code[start..] == d + rest && from <= |d| && d[from..] == part && k + 4 <= |part|
    ensures start + from + k + 4 <= |code| && S32(code, start + from + k) == S32(part, k)
  {
    var at := start + from + k;
    assert code[at..at + 4] == (d + rest)[from + k..from + k + 4] == d[from + k..from + k + 4] == part[k..k + 4];
    assert code[at..at + 4][0] == part[k..k + 4][0] && code[at..at + 4][1] == part[k..k + 4][1];
    assert code[at..at + 4][2] == part[k..k + 4][2] && code[at..at + 4][3] == part[k..k + 4][3];
  }

  lemma LookupLength(i: Insn, at: nat)
    requires LaidOut(i, at) && i.LookupSwitch?
    ensures |Encode(i)| == 1 + PaddingAt(at + 1) + 8 + 8 * i.count
  {
    hide PaddingAt, FormatOf;
  }

  lemma LookupLaw(code: seq<byte>, start: nat, i: Insn, rest: seq<byte>)
    requires start < |code| && LaidOut(i, start) && code[start..] == Encode(i) + rest && i.LookupSwitch?
    requires Extent(code, start).Ok?
    ensures LawfulAt(code, start) <==> Lawful(i, start)
  {
    hide S32, PackS32, Padding, PaddingAt, OperandCount, Encode, Match, MatchAt;
    var o := start + 1 + Padding(start + 1) + 8;
    LookupBounds(code, start, i, rest);
    forall k: nat | k < i.count
      ensures o + 8 * k + 4 <= |code| && MatchAt(code, o, k) == Match(i.pairs, k)
    {
      PairInPlace(code, start, i, rest, k);
    }
    assert Ascending(code, o, i.count) <==> Lawful(i, start);
  }

  lemma {:induction false} LawfulOfReading(insns: seq<Insn>, code: seq<byte>, at: nat)
    requires at <= |code| && AllLaidOut(insns, at) && code[at..] == Assemble(insns, at)
    ensures LawfulFrom(code, at) <==> AllLawful(insns, at)
    decreases |insns|
  {
    hide Encode, LaidOut, Extent, Lawful, LawfulAt;
    if insns != [] {
      var i := insns[0];
      var end := at + |Encode(i)|;
      var tail := Assemble(insns[1..], end);
      ExtentOfEncoding(code, at, i, tail);
      if i.TableSwitch? {
        SwitchLaw(code, at, i, tail);
      } else if i.LookupSwitch? {
        LookupLaw(code, at, i, tail);
      } else {
        FixedLaw(code, at, i, tail);
      }
      assert code[end..] == code[at..][end - at..];
      LawfulOfReading(insns[1..], code, end);
    }
  }

  /**
   Code is the assembly of instructions that obey section 6.5 in their operands' values as well if and
   only if it is accepted and a check of the bytes at its boundaries succeeds; the decoder itself
   makes no such check.
   */
  lemma LawfulExactly(code: seq<byte>)
    ensures (exists insns :: AllLaidOut(insns, 0) && AllLawful(insns, 0) && Assemble(insns, 0) == code) <==> LawfulFrom(code, 0)
  {
    hide AllLaidOut, AllLawful, Assemble, LawfulFrom;
    assert code[0..] == code;
    if insns :| AllLaidOut(insns, 0) && AllLawful(insns, 0) && Assemble(insns, 0) == code {
      LawfulOfReading(insns, code, 0);
    }
    if LawfulFrom(code, 0) {
      var insns := LawfulIsTiled(code, 0);
      LawfulOfReading(insns, code, 0);
    }
  }

  lemma {:induction false} LawfulIsTiled(code: seq<byte>, at: nat) returns (insns: seq<Insn>)
    requires at <= |code| && LawfulFrom(code, at)
    ensures AllLaidOut(insns, at) && Assemble(insns, at) == code[at..]
    decreases |code| - at
  {
    hide Encode, LaidOut, Extent, LawfulAt;
    if at == |code| {
      insns := [];
    } else {
      var end := Extent(code, at).value;
      var i := ExtentIsEncoding(code, at, end);
      var others := LawfulIsTiled(code, end);
      insns := [i] + others;
      ConsAssembles(i, others, at);
      assert code[at..] == code[at..end] + code[end..];
    }
  }

  const EMPTY_TABLE: seq<byte> := [0xaa, 0, 0, 0, 0, 0, 0, 0, 0, 0, 0, 1, 0, 0, 0, 0]

  lemma EmptyTableIsLaidOut(insns: seq<Insn>)
    requires insns == [TableSwitch([0, 0, 0], [0, 0, 0, 0], 1, 0, [])]
    ensures AllLaidOut(insns, 0) && Assemble(insns, 0) == EMPTY_TABLE && !AllLawful(insns, 0)
  {
    hide S32;
    assert PackS32(1) == [0, 0, 0, 1] && PackS32(0) == [0, 0, 0, 0];
    assert Encode(insns[0]) == EMPTY_TABLE;
    assert insns[1..] == [] && Assemble(insns[1..], 16) == [];
  }

  lemma NoAccesses(i: Insn, pool: Pool)
    requires !i.Plain?
    ensures AccessesOf([i], pool) == Ok([])
  {
    var none: seq<Access> := [];
    assert none + none == none && AccessesOf([], pool) == Ok(none) && Access1(i, pool) == Ok(none);
    assert [i][1..] == [];
  }

  /** A `tableswitch` from 1 to 0 is accepted, and it is not lawful. */
  lemma AcceptsEmptyTable(pool: Pool) returns (insns: seq<Insn>)
    ensures Decoded(EMPTY_TABLE, pool, 0) == Ok([])
    ensures AllLaidOut(insns, 0) && Assemble(insns, 0) == EMPTY_TABLE && !AllLawful(insns, 0)
  {
    hide AllLaidOut, AllLawful, Assemble, Decoded, AccessesOf;
    insns := [TableSwitch([0, 0, 0], [0, 0, 0, 0], 1, 0, [])];
    EmptyTableIsLaidOut(insns);
    NoAccesses(insns[0], pool);
    assert EMPTY_TABLE[0..] == EMPTY_TABLE;
    AssembledDecodesFrom(insns, EMPTY_TABLE, pool, 0);
  }

  /** The code is a row of instructions with no gap, no overlap and no rest. */
  ghost predicate Tiled(code: seq<byte>, start: nat)
    requires start <= |code|
    decreases |code| - start
  {
    start == |code|
    || (Extent(code, start).Ok? && var end := Extent(code, start).value; start < end <= |code| && Tiled(code, end))
  }

  lemma {:induction false} AcceptedIsTiled(code: seq<byte>, pool: Pool, start: nat)
    requires start <= |code| && Decoded(code, pool, start).Ok?
    ensures Tiled(code, start)
    decreases |code| - start
  {
    hide Extent, AccessAt;
    if start < |code| {
      DecodedStep(code, pool, start, Extent(code, start).value);
      AcceptedIsTiled(code, pool, Extent(code, start).value);
    }
  }

  // -------------------------------------------------------------- what is refused

  /** Which instruction is refused as what, by the format of its opcode. */
  lemma FaultsExactly(code: seq<byte>, start: nat)
    requires start < |code|
    ensures var f, r, left := FormatOf(code[start]), Extent(code, start), |code| - start;
            && (r == Err(ReservedOpcode) <==> f.Reserved?)
            && (r == Err(TruncatedWide) <==> f.Widened? && left == 1)
            && (r == Err(InvalidWideOpcode) <==> f.Widened? && left > 1 && WidenedBytes(FormatOf(code[start + 1])) == 0)
            && (r == Err(TruncatedInstruction) <==>
                  || (HasFixedOperands(f) && left < 1 + OperandBytes(f))
                  || (f.Widened? && left > 1 && 0 < WidenedBytes(FormatOf(code[start + 1])) && left < 2 + WidenedBytes(FormatOf(code[start + 1]))))
            && (r == Err(TruncatedSwitch) <==>
                  || (f.TableJump? && left < 1 + PaddingAt(start + 1) + 12)
                  || (f.LookupJump? && left < 1 + PaddingAt(start + 1) + 8))
  {
    hide S32;
    if HasFixedOperands(FormatOf(code[start])) {
      TablesMatchFormats(code[start]);
    }
    if start + 1 < |code| {
      WideMatchesFormats(code[start + 1]);
    }
    PaddingMatches(start + 1);
  }

  lemma WideMatchesFormats(op: byte)
    ensures WidenedBytes(FormatOf(op)) == if op == 0x84 then 4 else if Widenable(op) then 2 else 0
  {
  }
}
