/**
 The instruction set of the Java virtual machine as section 6.5 of its specification lays it out:
 the operands of every opcode by kind, and an assembler for instruction lists. Nothing here knows
 of the decoders that are measured against it.
 */
module JvmInstructions {
  import opened Bytes

  /** What follows an opcode. */
  datatype Format =
    | NoOperands
    | Immediate8
    | Immediate16
    | Constant8
    | Constant16
    | LocalVariable
    | Increment
    | ArrayKind
    | ClassReference
    | FieldReference
    | MethodReference
    | InterfaceCall
    | DynamicCall
    | ClassAndDimensions
    | Branch16
    | Branch32
    | TableJump
    | LookupJump
    | Widened
    | Reserved

  /** The opcodes in order, from `nop` to the reserved ones behind `jsr_w`. */
  function FormatOf(op: byte): Format {
    if op <= 0x0f then NoOperands               // nop, constants
    else if op == 0x10 then Immediate8          // bipush
    else if op == 0x11 then Immediate16         // sipush
    else if op == 0x12 then Constant8           // ldc
    else if op <= 0x14 then Constant16          // ldc_w, ldc2_w
    else if op <= 0x19 then LocalVariable       // iload .. aload
    else if op <= 0x35 then NoOperands          // iload_0 .. saload
    else if op <= 0x3a then LocalVariable       // istore .. astore
    else if op <= 0x83 then NoOperands          // istore_0 .. lxor
    else if op == 0x84 then Increment           // iinc
    else if op <= 0x98 then NoOperands          // i2l .. dcmpg
    else if op <= 0xa8 then Branch16            // ifeq .. jsr
    else if op == 0xa9 then LocalVariable       // ret
    else if op == 0xaa then TableJump           // tableswitch
    else if op == 0xab then LookupJump          // lookupswitch
    else if op <= 0xb1 then NoOperands          // ireturn .. return
    else if op <= 0xb5 then FieldReference      // getstatic .. putfield
    else if op <= 0xb8 then MethodReference     // invokevirtual .. invokestatic
    else if op == 0xb9 then InterfaceCall       // invokeinterface
    else if op == 0xba then DynamicCall         // invokedynamic
    else if op == 0xbb then ClassReference      // new
    else if op == 0xbc then ArrayKind           // newarray
    else if op == 0xbd then ClassReference      // anewarray
    else if op <= 0xbf then NoOperands          // arraylength, athrow
    else if op <= 0xc1 then ClassReference      // checkcast, instanceof
    else if op <= 0xc3 then NoOperands          // monitorenter, monitorexit
    else if op == 0xc4 then Widened             // wide
    else if op == 0xc5 then ClassAndDimensions  // multianewarray
    else if op <= 0xc7 then Branch16            // ifnull, ifnonnull
    else if op <= 0xc9 then Branch32            // goto_w, jsr_w
    else Reserved
  }

  predicate HasFixedOperands(f: Format) {
    !f.TableJump? && !f.LookupJump? && !f.Widened? && !f.Reserved?
  }

  /** The operands of one format, field by field. */
  function FieldWidths(f: Format): seq<nat>
    requires HasFixedOperands(f)
  {
    match f
    case NoOperands => []
    case Immediate8 => [1]
    case Immediate16 => [2]
    case Constant8 => [1]
    case Constant16 => [2]
    case LocalVariable => [1]
    case Increment => [1, 1]
    case ArrayKind => [1]
    case ClassReference => [2]
    case FieldReference => [2]
    case MethodReference => [2]
    case InterfaceCall => [2, 1, 1]
    case DynamicCall => [2, 1, 1]
    case ClassAndDimensions => [2, 1]
    case Branch16 => [2]
    case Branch32 => [4]
  }

  function Sum(widths: seq<nat>): nat {
    if widths == [] then 0 else widths[0] + Sum(widths[1..])
  }

  function OperandBytes(f: Format): nat
    requires HasFixedOperands(f)
  {
    Sum(FieldWidths(f))
  }

  /** `wide` doubles the index of a local variable and, for `iinc`, the constant too. */
  function WidenedBytes(f: Format): nat {
    match f
    case LocalVariable => 2
    case Increment => 2 + 2
    case _ => 0
  }

  /** A switch starts its numbers at the next multiple of four from the start of the code. */
  function PaddingAt(offset: nat): nat {
    if offset % 4 == 0 then 0 else 4 - offset % 4
  }

  // ---------------------------------------------------------------- the assembler

  /** One instruction; a switch keeps its padding and its jump table as bytes. */
  datatype Insn =
    | Plain(op: byte, operands: seq<byte>)
    | Wide(op: byte, operands: seq<byte>)
    | TableSwitch(pad: seq<byte>, default: seq<byte>, low: s32, high: s32, offsets: seq<byte>)
    | LookupSwitch(pad: seq<byte>, default: seq<byte>, count: s32, pairs: seq<byte>)

  /** Whether the instruction's fields have the sizes of its format at offset `at`. */
  predicate LaidOut(i: Insn, at: nat) {
    match i
    case Plain(op, operands) => HasFixedOperands(FormatOf(op)) && |operands| == OperandBytes(FormatOf(op))
    case Wide(op, operands) => WidenedBytes(FormatOf(op)) > 0 && |operands| == WidenedBytes(FormatOf(op))
    case TableSwitch(pad, default, low, high, offsets) =>
      |pad| == PaddingAt(at + 1) && |default| == 4 && high - low + 1 >= 0
      && |offsets| == 4 * (high - low + 1)
    case LookupSwitch(pad, default, count, pairs) =>
      |pad| == PaddingAt(at + 1) && |default| == 4 && count >= 0 && |pairs| == 8 * count
  }

  /** The number matched by pair `k` of a lookupswitch. */
  function Match(pairs: seq<byte>, k: nat): s32
    requires 8 * k + 4 <= |pairs|
  {
    S32(pairs, 8 * k)
  }

  /** What section 6.5 asks of the operands' values, apart from indices and branch targets. */
  predicate Lawful(i: Insn, at: nat)
    requires LaidOut(i, at)
  {
    match i
    case Plain(op, operands) =>
      (match FormatOf(op)
       case InterfaceCall => operands[2] > 0 && operands[3] == 0
       case DynamicCall => operands[2] == 0 && operands[3] == 0
       case ClassAndDimensions => operands[2] > 0
       case ArrayKind => 4 <= operands[0] <= 11
       case _ => true)
    case Wide(_, _) => true
    case TableSwitch(_, _, low, high, _) => low <= high
    case LookupSwitch(_, _, count, pairs) => forall j: nat, k: nat :: j < k < count ==> Match(pairs, j) < Match(pairs, k)
  }

  function Encode(i: Insn): (d: seq<byte>)
    ensures |d| > 0
  {
    match i
    case Plain(op, operands) => [op] + operands
    case Wide(op, operands) => [0xc4, op] + operands
    case TableSwitch(pad, default, low, high, offsets) =>
      [0xaa] + pad + default + PackS32(low) + PackS32(high) + offsets
    case LookupSwitch(pad, default, count, pairs) => [0xab] + pad + default + PackS32(count) + pairs
  }

  ghost predicate AllLaidOut(insns: seq<Insn>, at: nat) {
    |insns| > 0 ==> LaidOut(insns[0], at) && AllLaidOut(insns[1..], at + |Encode(insns[0])|)
  }

  ghost predicate AllLawful(insns: seq<Insn>, at: nat)
    requires AllLaidOut(insns, at)
  {
    |insns| > 0 ==> Lawful(insns[0], at) && AllLawful(insns[1..], at + |Encode(insns[0])|)
  }

  /** The code array of an instruction list that starts at offset `at`. */
  ghost function Assemble(insns: seq<Insn>, at: nat): (d: seq<byte>)
    requires AllLaidOut(insns, at)
  {
    if |insns| == 0 then [] else Encode(insns[0]) + Assemble(insns[1..], at + |Encode(insns[0])|)
  }

  /** The constant-pool index an instruction carries, for the formats that have a two-byte one. */
  function PoolIndex(i: Insn): (index: nat)
    requires i.Plain? && |i.operands| >= 2
  {
    U16(i.operands, 0)
  }
}
