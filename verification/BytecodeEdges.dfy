/**
 The second instruction decoder, `_code_edges` of dev/plugin_api_usage.py, with its own operand
 tables. It checks no bound itself: Python raises where it reads past the end, counts a negative
 offset from the end, and lets a switch with strange bounds move it anywhere.
 */
module BytecodeEdges {
  import opened Bytes
  import opened JvmInstructions
  import opened Wrappers
  import Bytecode

  type Triple = (string, string, string)

  type Found = (set<string>, set<Triple>)

  /** What `_code_edges` looks up: method references, created event types, invokedynamic targets. */
  datatype EdgePool = EdgePool(
    refs: Bytecode.Pool,
    events: map<nat, string>,
    dynamicCalls: map<nat, set<Triple>>,
    dynamicEvents: map<nat, set<string>>)

  /** `one_byte`. */
  predicate OneByte(op: byte) {
    op == 0x10 || op == 0x12 || 0x15 <= op < 0x1a || 0x36 <= op < 0x3b || op == 0xa9 || op == 0xbc
  }

  /** `two_bytes`. */
  predicate TwoBytes(op: byte) {
    || op == 0x11 || op == 0x13 || op == 0x14 || op == 0x84
    || 0x99 <= op < 0xa9
    || 0xb2 <= op < 0xb9
    || op == 0xbb || op == 0xbd || op == 0xc0 || op == 0xc1 || op == 0xc6 || op == 0xc7
  }

  /** Where Python reads `width` bytes at an offset, if they are all there. */
  function Position(code: seq<byte>, offset: int, width: nat): (at: Option<nat>)
    ensures at.Some? ==> at.value + width <= |code|
    ensures 0 <= offset ==> at == if offset + width <= |code| then Some(offset) else None
  {
    var at := if offset < 0 then offset + |code| else offset;
    if 0 <= at && at + width <= |code| then Some(at) else None
  }

  function ToFour(offset: int): nat {
    (-offset) % 4
  }

  /** Where the loop moves on to, or nothing where it raises. */
  function MovesOn(code: seq<byte>, start: int): Option<int> {
    var at := Position(code, start, 1);
    var o := start + 1;
    if at.None? then None
    else
      var op := code[at.value];
      if 0xb6 <= op <= 0xbb && Position(code, o, 2).None? then None
      else if op == 0xaa then
        var p := Position(code, o + ToFour(o), 12);
        if p.None? then None
        else Some(o + ToFour(o) + 12 + 4 * (S32(code, p.value + 8) - S32(code, p.value + 4) + 1))
      else if op == 0xab then
        var p := Position(code, o + ToFour(o), 8);
        if p.None? then None else Some(o + ToFour(o) + 8 + 8 * S32(code, p.value + 4))
      else if op == 0xc4 then
        var w := Position(code, o, 1);
        if w.None? then None else Some(if code[w.value] == 0x84 then o + 5 else o + 3)
      else if op == 0xb9 || op == 0xba then Some(o + 4)
      else if op == 0xc5 then Some(o + 3)
      else if op == 0xc8 || op == 0xc9 then Some(o + 4)
      else if OneByte(op) then Some(o + 1)
      else if TwoBytes(op) then Some(o + 2)
      else Some(o)
  }

  function AsTriple(ref: Bytecode.MemberRef): Triple {
    (ref.owner, ref.name, ref.descriptor)
  }

  function CallOf(pool: EdgePool, index: nat): set<Triple> {
    if index in pool.refs && pool.refs[index].tag != Bytecode.TAG_FIELDREF then {AsTriple(pool.refs[index])} else {}
  }

  function EventOf(pool: EdgePool, index: nat): set<string> {
    if index in pool.events then {pool.events[index]} else {}
  }

  function DynamicOf(pool: EdgePool, index: nat): Found {
    (if index in pool.dynamicEvents then pool.dynamicEvents[index] else {},
     if index in pool.dynamicCalls then pool.dynamicCalls[index] else {})
  }

  /** What the instruction read at `start` adds. */
  function FoundAt(code: seq<byte>, pool: EdgePool, start: int): Found {
    var (at, arg) := (Position(code, start, 1), Position(code, start + 1, 2));
    if at.None? || arg.None? then ({}, {})
    else
      var (op, index) := (code[at.value], U16(code, arg.value));
      if 0xb6 <= op <= 0xb9 then ({}, CallOf(pool, index))
      else if op == 0xbb then (EventOf(pool, index), {})
      else if op == 0xba then DynamicOf(pool, index)
      else ({}, {})
  }

  /** From this offset the loop stops, or raises, within so many turns. */
  predicate Ends(code: seq<byte>, offset: int, turns: nat)
    decreases turns
  {
    offset >= |code|
    || (turns > 0 && (MovesOn(code, offset).None? || Ends(code, MovesOn(code, offset).value, turns - 1)))
  }

  /** An offset the loop reads from lies in `[-|code|, |code|)`, so so many turns are enough. */
  function TurnLimit(code: seq<byte>): nat {
    2 * |code| + 1
  }

  function Union(a: Found, b: Found): Found {
    (a.0 + b.0, a.1 + b.1)
  }

  /** Everything found from this offset on; nothing where the loop raises. */
  ghost function Edges(code: seq<byte>, pool: EdgePool, offset: int, turns: nat): Option<Found>
    requires Ends(code, offset, turns)
    decreases turns
  {
    if offset >= |code| then Some(({}, {}))
    else if MovesOn(code, offset).None? then None
    else
      var others := Edges(code, pool, MovesOn(code, offset).value, turns - 1);
      if others.None? then None else Some(Union(FoundAt(code, pool, offset), others.value))
  }

  // -------------------------------------------------------------------- the loop

  /** What is found so far, with what is still to be found, is the whole answer. */
  ghost predicate Progress(code: seq<byte>, pool: EdgePool, all: Option<Found>, found: Found, offset: int, turns: nat) {
    && Ends(code, offset, turns)
    && var others := Edges(code, pool, offset, turns);
    all == if others.None? then None else Some(Union(found, others.value))
  }

  lemma ProgressStarts(code: seq<byte>, pool: EdgePool, turns: nat)
    requires Ends(code, 0, turns)
    ensures Progress(code, pool, Edges(code, pool, 0, turns), ({}, {}), 0, turns)
  {
    var all := Edges(code, pool, 0, turns);
    if all.Some? {
      assert {} + all.value.0 == all.value.0 && {} + all.value.1 == all.value.1;
    }
  }

  lemma ProgressMoves(code: seq<byte>, pool: EdgePool, all: Option<Found>, found: Found, offset: int, turns: nat)
    requires Progress(code, pool, all, found, offset, turns) && offset < |code|
    ensures turns > 0
    ensures if MovesOn(code, offset).None? then all == None
            else Progress(code, pool, all, Union(found, FoundAt(code, pool, offset)), MovesOn(code, offset).value, turns - 1)
  {
    hide FoundAt, MovesOn;
    if MovesOn(code, offset).Some? {
      var others := Edges(code, pool, MovesOn(code, offset).value, turns - 1);
      if others.Some? {
        UnionJoins(found, FoundAt(code, pool, offset), others.value);
      }
    }
  }

  lemma UnionJoins(a: Found, b: Found, c: Found)
    ensures Union(a, Union(b, c)) == Union(Union(a, b), c)
    ensures Union(a, ({}, {})) == a
  {
    assert a.0 + (b.0 + c.0) == a.0 + b.0 + c.0 && a.1 + (b.1 + c.1) == a.1 + b.1 + c.1;
    assert a.0 + {} == a.0 && a.1 + {} == a.1;
  }

  lemma ProgressEnds(code: seq<byte>, pool: EdgePool, all: Option<Found>, found: Found, offset: int, turns: nat)
    requires Progress(code, pool, all, found, offset, turns) && offset >= |code|
    ensures all == Some(found)
  {
    UnionJoins(found, found, found);
  }

  /** `_code_edges`, on any code for which it ends; `None` where it raises. */
  method CodeEdges(pool: EdgePool, code: seq<byte>) returns (r: Option<Found>)
    requires Ends(code, 0, TurnLimit(code))
    ensures r == Edges(code, pool, 0, TurnLimit(code))
  {
    hide FoundAt, MovesOn, Progress, Edges, Ends, TurnLimit;
    ghost var turns := TurnLimit(code);
    var calls: set<Triple>, events: set<string>, offset: int := {}, {}, 0;
    ghost var left := turns;
    ghost var all := Edges(code, pool, 0, turns);
    ProgressStarts(code, pool, turns);
    while offset < |code|
      invariant Progress(code, pool, all, (events, calls), offset, left)
      decreases left
    {
      ProgressMoves(code, pool, all, (events, calls), offset, left);
      var step := OneTurn(code, pool, offset);
      if step.None? {
        return None;
      }
      events, calls, offset := events + step.value.0.0, calls + step.value.0.1, step.value.1;
      left := left - 1;
    }
    ProgressEnds(code, pool, all, (events, calls), offset, left);
    r := Some((events, calls));
  }

  /** One turn of the loop: what it adds, and the next offset. */
  method OneTurn(code: seq<byte>, pool: EdgePool, start: int) returns (r: Option<(Found, int)>)
    ensures r == if MovesOn(code, start).None? then None else Some((FoundAt(code, pool, start), MovesOn(code, start).value))
  {
    hide S32, U16, CallOf, EventOf, DynamicOf;
    var at := Position(code, start, 1);
    if at.None? {
      return None;
    }
    var opcode := code[at.value];
    var offset := start + 1;
    var found: Found := ({}, {});
    if 0xb6 <= opcode <= 0xb9 || opcode == 0xbb || opcode == 0xba {
      var p := Position(code, offset, 2);
      if p.None? {
        return None;
      }
      var index := U16(code, p.value);
      found := if opcode == 0xbb then (EventOf(pool, index), {}) else if opcode == 0xba then DynamicOf(pool, index) else ({}, CallOf(pool, index));
    }
    var next := AfterOperands(code, offset, opcode);
    if next.None? {
      return None;
    }
    r := Some((found, next.value));
  }

  /** The tail of the loop body, from the byte after the opcode. */
  method AfterOperands(code: seq<byte>, start: int, opcode: byte) returns (next: Option<int>)
    requires Position(code, start - 1, 1).Some? && code[Position(code, start - 1, 1).value] == opcode
    requires 0xb6 <= opcode <= 0xbb ==> Position(code, start, 2).Some?
    ensures next == MovesOn(code, start - 1)
  {
    hide S32;
    var offset := start;
    if opcode == 0xaa {
      offset := offset + (-offset) % 4;
      var p := Position(code, offset, 12);
      if p.None? {
        return None;
      }
      offset := offset + 12 + 4 * (S32(code, p.value + 8) - S32(code, p.value + 4) + 1);
    } else if opcode == 0xab {
      offset := offset + (-offset) % 4;
      var p := Position(code, offset, 8);
      if p.None? {
        return None;
      }
      offset := offset + 8 + 8 * S32(code, p.value + 4);
    } else if opcode == 0xc4 {
      var p := Position(code, offset, 1);
      if p.None? {
        return None;
      }
      offset := offset + if code[p.value] == 0x84 then 5 else 3;
    } else if opcode == 0xb9 || opcode == 0xba {
      offset := offset + 4;
    } else if opcode == 0xc5 {
      offset := offset + 3;
    } else if opcode == 0xc8 || opcode == 0xc9 {
      offset := offset + 4;
    } else if OneByte(opcode) {
      offset := offset + 1;
    } else if TwoBytes(opcode) {
      offset := offset + 2;
    }
    next := Some(offset);
  }

  // ------------------------------------------------------------ when the loop ends

  /** The offset after so many turns from `offset`, unless the loop has stopped or raised before. */
  function OffsetAfter(code: seq<byte>, offset: int, turns: nat): Option<int>
    decreases turns
  {
    if turns == 0 then Some(offset)
    else if offset >= |code| || MovesOn(code, offset).None? then None
    else OffsetAfter(code, MovesOn(code, offset).value, turns - 1)
  }

  /** Some offset is read from twice. */
  ghost predicate Revisits(code: seq<byte>) {
    exists i: nat, j: nat :: i < j && OffsetAfter(code, 0, j).Some? && OffsetAfter(code, 0, i) == OffsetAfter(code, 0, j)
  }

  lemma {:induction false} EndsByOffset(code: seq<byte>, offset: int, turns: nat)
    ensures !Ends(code, offset, turns) <==> OffsetAfter(code, offset, turns).Some? && OffsetAfter(code, offset, turns).value < |code|
    decreases turns
  {
    hide MovesOn;
    if turns > 0 && offset < |code| && MovesOn(code, offset).Some? {
      EndsByOffset(code, MovesOn(code, offset).value, turns - 1);
    }
  }

  lemma {:induction false} OffsetsCompose(code: seq<byte>, offset: int, a: nat, b: nat)
    ensures OffsetAfter(code, offset, a + b)
         == if OffsetAfter(code, offset, a).None? then None else OffsetAfter(code, OffsetAfter(code, offset, a).value, b)
    decreases a
  {
    hide MovesOn;
    if a > 0 && offset < |code| && MovesOn(code, offset).Some? {
      OffsetsCompose(code, MovesOn(code, offset).value, a - 1, b);
    }
  }

  lemma {:induction false} EndsWithMore(code: seq<byte>, pool: EdgePool, offset: int, turns: nat, more: nat)
    requires Ends(code, offset, turns) && turns <= more
    ensures Ends(code, offset, more) && Edges(code, pool, offset, more) == Edges(code, pool, offset, turns)
    decreases turns
  {
    hide MovesOn, FoundAt;
    if offset < |code| && MovesOn(code, offset).Some? {
      EndsWithMore(code, pool, MovesOn(code, offset).value, turns - 1, more - 1);
    }
  }

  /** A walk that comes back to an offset goes round for ever. */
  lemma {:induction false} GoesRound(code: seq<byte>, offset: int, period: nat, turns: nat)
    requires period > 0 && OffsetAfter(code, offset, period) == Some(offset)
    ensures OffsetAfter(code, offset, turns).Some?
    decreases turns
  {
    if turns < period {
      OffsetsCompose(code, offset, turns, period - turns);
    } else {
      OffsetsCompose(code, offset, period, turns - period);
      GoesRound(code, offset, period, turns - period);
    }
  }

  lemma RevisitsForever(code: seq<byte>, turns: nat)
    requires Revisits(code)
    ensures !Ends(code, 0, turns)
  {
    hide OffsetAfter;
    var i: nat, j: nat :| i < j && OffsetAfter(code, 0, j).Some? && OffsetAfter(code, 0, i) == OffsetAfter(code, 0, j);
    var at := OffsetAfter(code, 0, i).value;
    OffsetsCompose(code, 0, i, j - i);
    GoesRound(code, at, j - i, turns + 1);
    OffsetsCompose(code, 0, i, turns + 1);
    StillGoing(code, 0, turns, i + 1);
  }

  lemma StillGoing(code: seq<byte>, offset: int, turns: nat, more: nat)
    requires more > 0 && OffsetAfter(code, offset, turns + more).Some?
    ensures !Ends(code, offset, turns)
    ensures OffsetAfter(code, offset, turns).Some? && -|code| <= OffsetAfter(code, offset, turns).value < |code|
  {
    hide MovesOn;
    OffsetsCompose(code, offset, turns, more);
    EndsByOffset(code, offset, turns);
    MovesFromInside(code, OffsetAfter(code, offset, turns).value);
  }

  lemma MovesFromInside(code: seq<byte>, offset: int)
    ensures MovesOn(code, offset).Some? ==> -|code| <= offset
  {
    hide S32;
  }

  /** The offsets of the first turns. */
  ghost function Offsets(code: seq<byte>, turns: nat): set<int> {
    set i | 0 <= i < turns && OffsetAfter(code, 0, i).Some? :: OffsetAfter(code, 0, i).value
  }

  lemma {:induction false} DistinctOffsets(code: seq<byte>, turns: nat)
    requires !Revisits(code) && OffsetAfter(code, 0, turns).Some?
    ensures |Offsets(code, turns)| == turns
    ensures forall o :: o in Offsets(code, turns) ==> -|code| <= o < |code|
    decreases turns
  {
    hide OffsetAfter;
    if turns > 0 {
      StillGoing(code, 0, turns - 1, 1);
      DistinctOffsets(code, turns - 1);
      var last := OffsetAfter(code, 0, turns - 1).value;
      assert Offsets(code, turns) == Offsets(code, turns - 1) + {last};
    }
  }

  lemma {:induction false} AtMostInRange(s: set<int>, low: int, high: int)
    requires low <= high && forall x :: x in s ==> low <= x < high
    ensures |s| <= high - low
    decreases high - low
  {
    if low < high {
      AtMostInRange(s - {low}, low + 1, high);
    } else {
      assert s == {};
    }
  }

  /**
   The loop never ends if and only if it reads from some offset twice, and that shows within as many
   turns as there are offsets to read from.
   */
  lemma LoopsForeverExactly(code: seq<byte>)
    ensures (forall turns: nat :: !Ends(code, 0, turns)) <==> Revisits(code)
    ensures !Ends(code, 0, TurnLimit(code)) <==> Revisits(code)
  {
    hide OffsetAfter, Revisits, Ends;
    if Revisits(code) {
      forall turns: nat
        ensures !Ends(code, 0, turns)
      {
        RevisitsForever(code, turns);
      }
    } else {
      EndsByOffset(code, 0, TurnLimit(code));
      if OffsetAfter(code, 0, TurnLimit(code)).Some? {
        DistinctOffsets(code, TurnLimit(code));
        AtMostInRange(Offsets(code, TurnLimit(code)), -|code|, |code|);
      }
    }
  }

  /** Within the limit the loop finds what it finds in any number of turns that is enough. */
  lemma AtTheLimit(code: seq<byte>, pool: EdgePool, turns: nat)
    requires Ends(code, 0, turns)
    ensures Ends(code, 0, TurnLimit(code)) && Edges(code, pool, 0, TurnLimit(code)) == Edges(code, pool, 0, turns)
  {
    hide Ends, Edges, Revisits, TurnLimit;
    LoopsForeverExactly(code);
    if turns <= TurnLimit(code) {
      EndsWithMore(code, pool, 0, turns, TurnLimit(code));
    } else {
      EndsWithMore(code, pool, 0, TurnLimit(code), turns);
    }
  }

  /** A switch whose number of jump targets is read as negative: the only way to go back or stay. */
  predicate NegativeSwitchAt(code: seq<byte>, start: nat) {
    && start < |code|
    && var o := start + 1 + ToFour(start + 1);
    || (code[start] == 0xaa && o + 12 <= |code| && S32(code, o + 8) - S32(code, o + 4) + 1 < 0)
    || (code[start] == 0xab && o + 8 <= |code| && S32(code, o + 4) < 0)
  }

  lemma ForwardUnlessNegative(code: seq<byte>, start: nat)
    requires start < |code| && !NegativeSwitchAt(code, start) && MovesOn(code, start).Some?
    ensures MovesOn(code, start).value > start
  {
    hide S32;
  }

  /** None of the offsets the loop visits in its first turns, one for each byte, has a negative switch. */
  predicate MeetsNoNegativeSwitch(code: seq<byte>) {
    forall n: nat :: n < |code| ==> ForwardAt(code, OffsetAfter(code, 0, n))
  }

  predicate ForwardAt(code: seq<byte>, offset: Option<int>) {
    offset.Some? && offset.value >= 0 ==> !NegativeSwitchAt(code, offset.value)
  }

  lemma {:induction false} StaysAhead(code: seq<byte>, turns: nat)
    requires MeetsNoNegativeSwitch(code) && turns <= |code|
    ensures OffsetAfter(code, 0, turns).Some? ==> OffsetAfter(code, 0, turns).value >= turns
    decreases turns
  {
    hide MovesOn, NegativeSwitchAt;
    if turns > 0 {
      StaysAhead(code, turns - 1);
      OffsetsCompose(code, 0, turns - 1, 1);
      var before := OffsetAfter(code, 0, turns - 1);
      assert ForwardAt(code, before);
      if before.Some? && before.value < |code| && MovesOn(code, before.value).Some? {
        ForwardUnlessNegative(code, before.value);
        assert OffsetAfter(code, before.value, 1) == OffsetAfter(code, MovesOn(code, before.value).value, 0);
      }
    }
  }

  /** Code on whose boundaries no negative switch stands is done with in as many turns as it has bytes. */
  lemma EndsWithoutNegativeSwitch(code: seq<byte>)
    requires MeetsNoNegativeSwitch(code)
    ensures Ends(code, 0, |code|) && Ends(code, 0, TurnLimit(code)) && !Revisits(code)
  {
    hide Ends, NegativeSwitchAt, Revisits, OffsetAfter, MeetsNoNegativeSwitch;
    StaysAhead(code, |code|);
    EndsByOffset(code, 0, |code|);
    EndsWithMore(code, EdgePool(map[], map[], map[], map[]), 0, |code|, TurnLimit(code));
    LoopsForeverExactly(code);
  }

  /** A `tableswitch` from 0 to -5 leads back to itself, and the loop does not end. */
  lemma StandsStill(code: seq<byte>)
    requires code == [0xaa, 0, 0, 0, 0, 0, 0, 0, 0, 0, 0, 0, 0xff, 0xff, 0xff, 0xfb]
    ensures MovesOn(code, 0) == Some(0) && Revisits(code) && forall turns: nat :: !Ends(code, 0, turns)
  {
    assert S32(code, 8) == 0 && S32(code, 12) == -5;
    assert MovesOn(code, 0) == Some(0);
    assert OffsetAfter(code, 0, 1) == Some(0) && OffsetAfter(code, 0, 0) == Some(0);
    LoopsForeverExactly(code);
  }

  // --------------------------------------------------- measured against section 6.5

  /** What one instruction stands for. */
  function FoundIn(i: Insn, pool: EdgePool): Found {
    if !i.Plain? || |i.operands| < 2 then ({}, {})
    else
      match FormatOf(i.op)
      case MethodReference => ({}, CallOf(pool, PoolIndex(i)))
      case InterfaceCall => ({}, CallOf(pool, PoolIndex(i)))
      case DynamicCall => DynamicOf(pool, PoolIndex(i))
      case ClassReference => if i.op == 0xbb then (EventOf(pool, PoolIndex(i)), {}) else ({}, {})
      case _ => ({}, {})
  }

  function FoundInAll(insns: seq<Insn>, pool: EdgePool): Found {
    if insns == [] then ({}, {}) else Union(FoundIn(insns[0], pool), FoundInAll(insns[1..], pool))
  }

  /** How far the second decoder's own tables send it past a fixed-length instruction. */
  lemma TablesMatchFormats(op: byte)
    ensures HasFixedOperands(FormatOf(op)) ==>
              OperandBytes(FormatOf(op)) ==
              if op == 0xb9 || op == 0xba || op == 0xc8 || op == 0xc9 then 4
              else if op == 0xc5 then 3
              else if OneByte(op) then 1
              else if TwoBytes(op) then 2
              else 0
    ensures HasFixedOperands(FormatOf(op)) <==> op <= 0xc9 && op != 0xaa && op != 0xab && op != 0xc4
    ensures WidenedBytes(FormatOf(op)) > 0 ==> WidenedBytes(FormatOf(op)) == if op == 0x84 then 4 else 2
  {
    if HasFixedOperands(FormatOf(op)) {
      Bytecode.WidthsAdded(FormatOf(op));
    }
  }

  lemma MovesPastFixed(code: seq<byte>, start: nat, i: Insn, rest: seq<byte>)
    requires start < |code| && (i.Plain? || i.Wide?) && LaidOut(i, start) && code[start..] == Encode(i) + rest
    ensures MovesOn(code, start) == Some(start + |Encode(i)|)
  {
    hide FormatOf, S32, OperandBytes, WidenedBytes, HasFixedOperands, U16, OneByte, TwoBytes;
    Bytecode.FirstBytes(code, start, i, rest);
    TablesMatchFormats(i.op);
    if i.Plain? && 0xb6 <= i.op <= 0xbb {
      TwoByteIndex(i.op);
    }
  }

  lemma TwoByteIndex(op: byte)
    requires 0xb6 <= op <= 0xbb
    ensures HasFixedOperands(FormatOf(op)) && OperandBytes(FormatOf(op)) >= 2
  {
    TablesMatchFormats(op);
  }

  lemma PaddingMatches(offset: nat)
    ensures ToFour(offset) == PaddingAt(offset)
  {
  }

  /** Where a switch moves to, by its numbers. */
  lemma MovesOnSwitch(code: seq<byte>, start: nat)
    requires start < |code|
    ensures var o := start + 1 + ToFour(start + 1);
            && (code[start] == 0xaa && o + 12 <= |code| ==>
                  MovesOn(code, start) == Some(o + 12 + 4 * (S32(code, o + 8) - S32(code, o + 4) + 1)))
            && (code[start] == 0xab && o + 8 <= |code| ==> MovesOn(code, start) == Some(o + 8 + 8 * S32(code, o + 4)))
  {
    hide S32;
  }

  lemma SwitchLength(i: Insn, start: nat)
    requires LaidOut(i, start)
    ensures i.TableSwitch? ==> |Encode(i)| == 1 + PaddingAt(start + 1) + 12 + 4 * (i.high - i.low + 1)
    ensures i.LookupSwitch? ==> |Encode(i)| == 1 + PaddingAt(start + 1) + 8 + 8 * i.count
  {
    hide PaddingAt, FormatOf;
  }

  lemma MovesPastSwitch(code: seq<byte>, start: nat, i: Insn, rest: seq<byte>)
    requires start < |code| && (i.TableSwitch? || i.LookupSwitch?) && LaidOut(i, start) && code[start..] == Encode(i) + rest
    ensures MovesOn(code, start) == Some(start + |Encode(i)|)
  {
    hide S32, PaddingAt, ToFour, MovesOn, Encode, LaidOut, Bytecode.Padding;
    if i.TableSwitch? {
      Bytecode.SwitchBounds(code, start, i, rest);
    } else {
      Bytecode.LookupBounds(code, start, i, rest);
    }
    Bytecode.PaddingMatches(start + 1);
    PaddingMatches(start + 1);
    MovesOnSwitch(code, start);
    SwitchLength(i, start);
  }

  /** The second decoder steps over every instruction of section 6.5 by exactly its length. */
  lemma MovesPastEncoding(code: seq<byte>, start: nat, i: Insn, rest: seq<byte>)
    requires start < |code| && LaidOut(i, start) && code[start..] == Encode(i) + rest
    ensures MovesOn(code, start) == Some(start + |Encode(i)|)
  {
    hide MovesOn, Encode, LaidOut;
    if i.TableSwitch? || i.LookupSwitch? {
      MovesPastSwitch(code, start, i, rest);
    } else {
      MovesPastFixed(code, start, i, rest);
    }
  }

  lemma FindsInEncoding(code: seq<byte>, pool: EdgePool, start: nat, i: Insn, rest: seq<byte>)
    requires start < |code| && LaidOut(i, start) && code[start..] == Encode(i) + rest
    ensures FoundAt(code, pool, start) == FoundIn(i, pool)
  {
    hide S32, PackS32, OperandBytes, WidenedBytes, U16, CallOf, EventOf, DynamicOf, PaddingAt, HasFixedOperands;
    Bytecode.FirstBytes(code, start, i, rest);
    if i.Plain? && 0xb6 <= i.op <= 0xbb {
      TwoByteIndex(i.op);
    }
  }

  /** Both decoders stop at the same boundaries of every instruction list. */
  lemma SameBoundaries(code: seq<byte>, start: nat)
    requires start < |code| && Bytecode.Extent(code, start).Ok?
    ensures MovesOn(code, start) == Some(Bytecode.Extent(code, start).value)
  {
    hide MovesOn, Bytecode.Extent, Encode, LaidOut;
    var end := Bytecode.Extent(code, start).value;
    var i := Bytecode.ExtentIsEncoding(code, start, end);
    assert code[start..] == code[start..end] + code[end..];
    MovesPastEncoding(code, start, i, code[end..]);
  }

  /**
   On the assembly of any instruction list `_code_edges` ends without raising, and finds exactly
   what the instructions stand for.
   */
  lemma {:induction false} FindsExactlyTheInstructions(insns: seq<Insn>, code: seq<byte>, pool: EdgePool, at: nat)
    requires at <= |code| && AllLaidOut(insns, at) && code[at..] == Assemble(insns, at)
    ensures Ends(code, at, |insns|) && Edges(code, pool, at, |insns|) == Some(FoundInAll(insns, pool))
    decreases |insns|
  {
    hide MovesOn, FoundAt, FoundIn, Encode, LaidOut;
    if |insns| > 0 {
      var end := at + |Encode(insns[0])|;
      var tail := Assemble(insns[1..], end);
      MovesPastEncoding(code, at, insns[0], tail);
      FindsInEncoding(code, pool, at, insns[0], tail);
      assert code[end..] == code[at..][end - at..] == tail;
      FindsExactlyTheInstructions(insns[1..], code, pool, end);
    }
  }

  // ------------------------------------------------------- the two decoders agree

  /** The methods among the accesses of the first decoder. */
  ghost predicate Invokes(accesses: seq<Bytecode.Access>, call: Triple) {
    exists i :: 0 <= i < |accesses| && !FormatOf(accesses[i].opcode).FieldReference? && AsTriple(accesses[i].ref) == call
  }

  /** A call that only an invokedynamic of the list brings in. */
  ghost predicate CallsDynamically(insns: seq<Insn>, pool: EdgePool, call: Triple) {
    exists i :: 0 <= i < |insns| && DynamicAt(insns[i], pool, call)
  }

  predicate DynamicAt(i: Insn, pool: EdgePool, call: Triple) {
    i.Plain? && FormatOf(i.op).DynamicCall? && |i.operands| >= 2 && call in DynamicOf(pool, PoolIndex(i)).1
  }

  lemma InvokesJoins(a: seq<Bytecode.Access>, b: seq<Bytecode.Access>, call: Triple)
    ensures Invokes(a + b, call) <==> Invokes(a, call) || Invokes(b, call)
  {
    hide FormatOf;
    if Invokes(a, call) {
      var i :| 0 <= i < |a| && !FormatOf(a[i].opcode).FieldReference? && AsTriple(a[i].ref) == call;
      assert (a + b)[i] == a[i];
    }
    if Invokes(b, call) {
      var i :| 0 <= i < |b| && !FormatOf(b[i].opcode).FieldReference? && AsTriple(b[i].ref) == call;
      assert (a + b)[|a| + i] == b[i];
    }
  }

  lemma OneInstruction(i: Insn, pool: EdgePool, call: Triple)
    requires Bytecode.Access1(i, pool.refs).Ok?
    ensures call in FoundIn(i, pool).1 <==> Invokes(Bytecode.Access1(i, pool.refs).value, call) || DynamicAt(i, pool, call)
  {
    hide FormatOf, U16;
    var here := Bytecode.Access1(i, pool.refs).value;
    if |here| > 0 {
      assert here[0] == Bytecode.Access(i.op, pool.refs[PoolIndex(i)]);
    }
  }

  lemma DynamicJoins(insns: seq<Insn>, pool: EdgePool, call: Triple)
    requires insns != []
    ensures CallsDynamically(insns, pool, call) <==> DynamicAt(insns[0], pool, call) || CallsDynamically(insns[1..], pool, call)
  {
    hide DynamicAt;
    if DynamicAt(insns[0], pool, call) {
      assert CallsDynamically(insns, pool, call);
    }
    if CallsDynamically(insns[1..], pool, call) {
      var i :| 0 <= i < |insns[1..]| && DynamicAt(insns[1..][i], pool, call);
      assert insns[i + 1] == insns[1..][i];
    }
    if CallsDynamically(insns, pool, call) {
      var i :| 0 <= i < |insns| && DynamicAt(insns[i], pool, call);
      assert i == 0 || insns[1..][i - 1] == insns[i];
    }
  }

  /**
   On code `code_accesses` accepts, `_code_edges` calls exactly the members the former sees invoked
   and those its invokedynamic instructions bring in.
   */
  lemma {:induction false} EdgesAreAccesses(insns: seq<Insn>, pool: EdgePool, call: Triple)
    requires Bytecode.AccessesOf(insns, pool.refs).Ok?
    ensures call in FoundInAll(insns, pool).1
       <==> Invokes(Bytecode.AccessesOf(insns, pool.refs).value, call) || CallsDynamically(insns, pool, call)
    decreases |insns|
  {
    hide FoundIn, Bytecode.Access1, DynamicAt;
    if insns != [] {
      OneInstruction(insns[0], pool, call);
      EdgesAreAccesses(insns[1..], pool, call);
      DynamicJoins(insns, pool, call);
      InvokesJoins(Bytecode.Access1(insns[0], pool.refs).value, Bytecode.AccessesOf(insns[1..], pool.refs).value, call);
    }
  }

  /** The two decoders side by side on the same code. */
  lemma AcceptedByBoth(code: seq<byte>, pool: EdgePool) returns (insns: seq<Insn>)
    requires Bytecode.Decoded(code, pool.refs, 0).Ok?
    ensures AllLaidOut(insns, 0) && Assemble(insns, 0) == code
    ensures Bytecode.AccessesOf(insns, pool.refs) == Bytecode.Decoded(code, pool.refs, 0)
    ensures Ends(code, 0, TurnLimit(code)) && Edges(code, pool, 0, TurnLimit(code)).Some?
    ensures forall call :: call in Edges(code, pool, 0, TurnLimit(code)).value.1
                      <==> Invokes(Bytecode.Decoded(code, pool.refs, 0).value, call) || CallsDynamically(insns, pool, call)
  {
    hide Bytecode.Decoded, Edges, Ends, TurnLimit, Invokes, CallsDynamically, Bytecode.AccessesOf;
    assert code[0..] == code;
    insns := Bytecode.AcceptedIsAssembled(code, pool.refs, 0);
    Bytecode.AssembledDecodesFrom(insns, code, pool.refs, 0);
    FindsExactlyTheInstructions(insns, code, pool, 0);
    AtTheLimit(code, pool, |insns|);
    forall call
      ensures call in Edges(code, pool, 0, TurnLimit(code)).value.1
         <==> Invokes(Bytecode.Decoded(code, pool.refs, 0).value, call) || CallsDynamically(insns, pool, call)
    {
      EdgesAreAccesses(insns, pool, call);
    }
  }

  // ------------------------------------------------------------------- the events

  /** An event this instruction constructs, or that its invokedynamic implements. */
  predicate Constructs(i: Insn, pool: EdgePool, event: string) {
    && i.Plain? && |i.operands| >= 2
    && var index := U16(i.operands, 0);
    || (i.op == 0xbb && index in pool.events && pool.events[index] == event)
    || (i.op == 0xba && index in pool.dynamicEvents && event in pool.dynamicEvents[index])
  }

  /** The events found are those of the `new` and `invokedynamic` instructions, and no others. */
  lemma {:induction false} EventsExactly(insns: seq<Insn>, pool: EdgePool, event: string)
    ensures event in FoundInAll(insns, pool).0 <==> exists k :: 0 <= k < |insns| && Constructs(insns[k], pool, event)
    decreases |insns|
  {
    hide FoundIn, Constructs;
    if insns != [] {
      var rest := insns[1..];
      assert forall k :: 0 <= k < |rest| ==> rest[k] == insns[k + 1];
      assert forall k :: 0 < k < |insns| ==> insns[k] == rest[k - 1];
      EventsExactly(rest, pool, event);
      EventsOfOne(insns[0], pool, event);
    }
  }

  lemma EventsOfOne(i: Insn, pool: EdgePool, event: string)
    ensures event in FoundIn(i, pool).0 <==> Constructs(i, pool, event)
  {
  }

  /** The calls an instruction stands for: the member of an invocation, or what an invokedynamic links to. */
  lemma CallsOfOne(i: Insn, pool: EdgePool, call: Triple)
    ensures call in FoundIn(i, pool).1 <==>
              && i.Plain? && |i.operands| >= 2
              && var index := U16(i.operands, 0);
              || (0xb6 <= i.op <= 0xb9 && index in pool.refs && pool.refs[index].tag != 9
                  && call == (pool.refs[index].owner, pool.refs[index].name, pool.refs[index].descriptor))
              || (i.op == 0xba && index in pool.dynamicCalls && call in pool.dynamicCalls[index])
  {
  }

  // ----------------------------------------------------------------- what raises

  /** From an offset inside the code the second decoder raises exactly where the bytes it reads are not all there. */
  lemma RaisesExactly(code: seq<byte>, start: nat)
    requires start < |code|
    ensures var f, left := FormatOf(code[start]), |code| - start;
            MovesOn(code, start) == None <==>
              || ((f.MethodReference? || f.InterfaceCall? || f.DynamicCall? || code[start] == 0xbb) && left < 3)
              || (f.TableJump? && left < 1 + PaddingAt(start + 1) + 12)
              || (f.LookupJump? && left < 1 + PaddingAt(start + 1) + 8)
              || (f.Widened? && left < 2)
  {
    hide S32;
    PaddingMatches(start + 1);
  }

  /** A negative offset counts from the end of the code, as far as it goes. */
  lemma NegativeOffsets(code: seq<byte>, offset: int, width: nat)
    requires offset < 0
    ensures Position(code, offset, width) == Some(|code| + offset) <==> -|code| <= offset && offset + width <= 0
    ensures Position(code, offset, width) != None ==> Position(code, offset, width) == Some(|code| + offset)
  {
  }
}
