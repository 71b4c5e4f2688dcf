/**
 Samples of what dev/check-arm64-got-relax.py takes instructions for, and a listing it must report.
 */
module GotRelaxSamples {
  import opened Decimals
  import opened GotRelax
  import opened GotRelaxScan
  import opened Wrappers

  // ------------------------------------------------------ samples of the instruction set

  function Plain(op: string, operands: seq<string>): Insn {
    Insn(0, op, operands, None, None, false, "")
  }

  function Indexed64(op: string, operands: seq<string>, base: nat, writeback: bool): Insn {
    Insn(0, op, operands, None, Some(base), writeback, "")
  }

  lemma RegisterNames()
    ensures Register("x0") == Some(0) && Register("w3") == Some(3) && Register("x30") == Some(30)
    ensures Register("sp") == None && Register("x") == None && Register("xzr") == None && Register("#1") == None
  {
    assert DigitsValue("") == 0 && "0"[..0] == "" && "3"[..0] == "" && DigitsValue("0") == 0 && DigitsValue("3") == 3;
    assert "30"[..1] == "3" && DigitsValue("30") == 30;
    assert "x0"[1..] == "0" && "w3"[1..] == "3" && "x30"[1..] == "30" && "xzr"[1..] == "zr" && "zr"[0] == 'z';
  }

  /** A call may change what the procedure call standard lets it change: x0 to x18 and x30. */
  lemma CallsWrite(reg: nat, indirect: bool)
    ensures Writes(Plain(if indirect then "blr" else "bl", []), reg) <==> reg <= 18 || reg == 30
  {
  }

  /** Ordinary instructions write their first operand. */
  lemma DestinationsWrite(reg: nat)
    ensures Writes(Plain("adrp", ["x0", "1000"]), reg) <==> reg == 0
    ensures Writes(Plain("add", ["x0", "x3", "#1"]), reg) <==> reg == 0
  {
    hide Register;
    RegisterNames();
    assert "adrp"[0] == 'a' && "add"[0] == 'a';
  }

  /** So does a load, and a load of a pair writes the second as well. */
  lemma LoadsWrite(reg: nat)
    ensures Writes(Plain("ldr", ["w3", "x0"]), reg) <==> reg == 3
    ensures Writes(Plain("ldp", ["x0", "w3", "x30"]), reg) <==> reg == 0 || reg == 3
  {
    hide Register;
    RegisterNames();
    assert "ldr"[0] == 'l' && "ldp"[0] == 'l' && "ldp"[..2] == "ld" && "ldr"[..2] == "ld";
    assert "ldr"[2..] == "r" && "ldp"[2..] == "p" && 'p' in "p" && 'p' !in "r";
  }

  /** Comparisons and branches write nothing. */
  lemma BranchesWriteNothing(reg: nat)
    ensures !Writes(Plain("cmp", ["x0", "x3"]), reg) && !Writes(Plain("cbz", ["x0", "1000"]), reg)
    ensures !Writes(Plain("b.eq", ["x0"]), reg) && !Writes(Plain("ret", ["x30"]), reg)
  {
    hide Register;
    assert "b." <= "b.eq" && "b.eq"[0] == 'b' && "ret"[0] == 'r' && "cmp"[0] == 'c' && "cbz"[0] == 'c';
    assert "stxr"[0] == "stlxr"[0] == "stxp"[0] == "stlxp"[0] == 's';
  }

  /** Stores write nothing either, but for the status of an exclusive one. */
  lemma StoresWriteNothing(reg: nat)
    ensures !Writes(Plain("str", ["x0", "x3"]), reg)
    ensures Writes(Plain("stxr", ["w3", "x0", "x30"]), reg) <==> reg == 3
  {
    hide Register;
    RegisterNames();
    assert "st" <= "str" && "st" <= "stxr" && |"str"| == 3 && "stxr" <= "stxr";
  }

  /** A base that is written back changes, whatever else the instruction does. */
  lemma WritebackWrites(reg: nat)
    ensures Writes(Indexed64("str", ["x0", "[x3", "#16]!"], 3, true), reg) <==> reg == 3
    ensures !Writes(Indexed64("str", ["x0", "[x3]"], 3, false), reg)
    ensures Writes(Indexed64("ldr", ["x0", "[x3]", "#8"], 3, true), reg) <==> reg == 0 || reg == 3
  {
    hide Register;
    RegisterNames();
    assert "st" <= "str" && |"str"| == 3 && "ldr"[0] == 'l' && "ldr"[2..] == "r" && 'p' !in "r";
  }

  // ------------------------------------------------------------- a pair that is reported

  /** An instruction, a function label, and three more instructions. */
  lemma LabelAfterFirst(a: Insn, b: Insn, c: Insn, d: Insn, p: Program)
    requires Listing([Code(a), Label, Code(b), Code(c), Code(d)], p)
    ensures p == Program([a, b, c, d], {a.address})
  {
    hide Listing;
    var lines := [Code(a), Label, Code(b), Code(c), Code(d)];
    EmptyListing();
    CodeRead([], Program([], {}), a);
    assert [] + [Code(a)] == [Code(a)] && [] + [a] == [a];
    LabelRead([Code(a)], Program([a], {}));
    assert [Code(a)] + [Label] == [Code(a), Label] && {} + {a.address} == {a.address};
    CodeRead([Code(a), Label], Program([a], {a.address}), b);
    assert [Code(a), Label] + [Code(b)] == [Code(a), Label, Code(b)] && [a] + [b] == [a, b];
    CodeRead([Code(a), Label, Code(b)], Program([a, b], {a.address}), c);
    assert [Code(a), Label, Code(b)] + [Code(c)] == [Code(a), Label, Code(b), Code(c)] && [a, b] + [c] == [a, b, c];
    CodeRead([Code(a), Label, Code(b), Code(c)], Program([a, b, c], {a.address}), d);
    assert [Code(a), Label, Code(b), Code(c)] + [Code(d)] == lines && [a, b, c] + [d] == [a, b, c, d];
    ListingIsUnique(lines, p, Program([a, b, c, d], {a.address}));
  }

  /** `adrp x0, page` and `add x0, x0, #1` at 8 and 12, and a branch to the latter at 4, where a function begins. */
  predicate StalePair(a: Insn, b: Insn, c: Insn, d: Insn) {
    && a == Insn(0, "adrp", ["x0", "1000"], Some(0x1000), None, false, "first")
    && b == Insn(4, "b", ["c"], Some(12), None, false, "branch")
    && c == Insn(8, "adrp", ["x0", "1000"], Some(0x1000), None, false, "page")
    && d == Insn(12, "add", ["x0", "x0", "#1"], None, None, false, "pair")
  }

  lemma StaleOperations(a: Insn, b: Insn, c: Insn, d: Insn)
    requires StalePair(a, b, c, d)
    ensures a.address == 0 && b.address == 4 && c.address == 8 && d.address == 12
    ensures !Branches(a) && Branches(b) && !Branches(c) && !Branches(d)
    ensures !Writes(b, 0) && b.target == Some(12) && c.target == Some(0x1000) && b.op in NO_FALLTHROUGH
  {
    hide Register;
    assert "adrp"[0] == 'a' && "add"[0] == 'a' && |"b"| == 1;
  }

  lemma StaleIsPair(a: Insn, b: Insn, c: Insn, d: Insn, p: Program)
    requires StalePair(a, b, c, d) && p == Program([a, b, c, d], {0})
    ensures IsPair(p, 3) && PairRegister(p, 3) == 0
  {
    hide Register;
    RegisterNames();
  }

  lemma NothingLeadsToBranch(a: Insn, b: Insn, c: Insn, d: Insn, p: Program)
    requires StalePair(a, b, c, d) && p == Program([a, b, c, d], {0})
    ensures Entry(p, 1)
  {
    hide Branches;
    StaleOperations(a, b, c, d);
    forall k | 0 <= k < |p.code|
      ensures !Edge(p, k, 1)
    {
      assert p.code[0].address in p.barriers;
      assert k == 0 || k == 1 || k == 2 || k == 3;
    }
  }

  /**
   A branch at the start of a function leads into the middle of a pair: its register may hold
   anything, whatever an instruction before the function's label has put there, and the pair is a hit.
   */
  lemma StalePageIsReported(a: Insn, b: Insn, c: Insn, d: Insn, p: Program)
    requires StalePair(a, b, c, d) && Listing([Code(a), Label, Code(b), Code(c), Code(d)], p)
    ensures UniqueAddresses(p) && IsPair(p, 3) && Flagged(p, 3)
  {
    hide Listing, Branches, Writes, IsPair, Entry, StalePair;
    LabelAfterFirst(a, b, c, d, p);
    StaleOperations(a, b, c, d);
    StaleIsPair(a, b, c, d, p);
    NothingLeadsToBranch(a, b, c, d, p);
    OneStepViolates(p, 1, 0, Some(0x1000));
    assert BranchInto(p, 1, 3);
  }

  lemma OneStepViolates(p: Program, q: nat, reg: nat, page: Option<Address>)
    requires q < |p.code| && Entry(p, q) && !Writes(p.code[q], reg)
    ensures !Safe(p, q, reg, page)
  {
    hide Writes, Entry, Edge;
    var path := [q];
    assert Path(p, path);
    assert Violates(p, path, reg, page);
  }

  // ------------------------------------------------------------------ what a pair is

  /** `adrp r, ...` and right behind it `add r, r, ...` for the same named register. */
  lemma PairExactly(p: Program, q: nat)
    ensures IsPair(p, q) <==>
              && 1 <= q < |p.code|
              && p.code[q - 1].op == "adrp" && p.code[q].op == "add" && p.code[q].address - p.code[q - 1].address == 4
              && exists r, others :: others != [] && p.code[q].operands == [r, r] + others
                                     && p.code[q - 1].operands != [] && p.code[q - 1].operands[0] == r && Register(r) != None
  {
    hide Register;
    NoRegister();
    if IsPair(p, q) {
      var o := p.code[q].operands;
      assert o == [o[0], o[0]] + o[2..] && o[2..] != [];
    }
  }

  lemma NoRegister()
    ensures Register("") == None
  {
  }
}
