/**
 dev/check-arm64-got-relax.py: no branch may enter the `add` of an `adrp`/`add` pair with another
 page in the register. The scan walks backwards over the direct-branch control-flow graph of a
 disassembly; here the disassembly is already decoded, and paths, cycles included, are the
 specification the walk is proved against.
 */
module GotRelax {
  import opened Decimals
  import opened Wrappers

  type Address = nat

  /** `target` is the branch or page operand; `base`/`writeback` describe a `[xN]` operand. */
  datatype Insn = Insn(
    address: Address,
    op: string,
    operands: seq<string>,
    target: Option<Address>,
    base: Option<nat>,
    writeback: bool,
    text: string)

  /** What one objdump line is to the scan. */
  datatype Line = Label | Code(insn: Insn) | Other

  /** The instructions in order, and the addresses a function label follows. */
  datatype Program = Program(code: seq<Insn>, barriers: set<Address>)

  const SEARCH_LIMIT: nat := 4096
  const DIRECT_BRANCHES: set<string> := {"b", "cbz", "cbnz", "tbz", "tbnz"}
  const NO_FALLTHROUGH: set<string> := {"b", "br", "ret", "braa", "brab", "retaa", "retab", "eret"}
  const READS_FIRST: set<string> :=
    {"cmp", "cmn", "tst", "ccmp", "ccmn", "cbz", "cbnz", "tbz", "tbnz", "prfm", "br"}

  // ------------------------------------------------------- one instruction

  predicate StartsWith(s: string, prefix: string) {
    prefix <= s
  }

  function Register(operand: string): Option<nat> {
    if |operand| > 1 && (operand[0] == 'x' || operand[0] == 'w') && AllDigits(operand[1..])
    then Some(DigitsValue(operand[1..]))
    else None
  }

  function Operand(i: Insn, n: nat): string {
    if n < |i.operands| then i.operands[n] else ""
  }

  /** Whether the instruction may change the register. */
  predicate Writes(i: Insn, reg: nat) {
    if i.op == "bl" || i.op == "blr" then reg <= 18 || reg == 30
    else if i.base == Some(reg) && i.writeback then true
    else if StartsWith(i.op, "st") || StartsWith(i.op, "b.") || i.op in READS_FIRST || i.op in NO_FALLTHROUGH then
      (StartsWith(i.op, "stxr") || StartsWith(i.op, "stlxr") || StartsWith(i.op, "stxp") || StartsWith(i.op, "stlxp"))
      && Register(Operand(i, 0)) == Some(reg)
    else
      || Register(Operand(i, 0)) == Some(reg)
      || (StartsWith(i.op, "ld") && 'p' in i.op[2..] && Register(Operand(i, 1)) == Some(reg))
  }

  predicate Branches(i: Insn) {
    i.op in DIRECT_BRANCHES || StartsWith(i.op, "b.")
  }

  /** The write the pair relies on: an `adrp` of the register with that page. */
  predicate SetsPage(i: Insn, reg: nat, page: Option<Address>) {
    Writes(i, reg) && i.op == "adrp" && i.target == page
  }

  // ----------------------------------------------------- the graph and its paths

  /** The instructions stand on these lines, in order, and on no others. */
  ghost predicate InOrder(lines: seq<Line>, code: seq<Insn>, at: seq<nat>) {
    && |at| == |code|
    && (forall i :: 0 <= i < |at| ==> at[i] < |lines| && lines[at[i]] == Code(code[i]))
    && (forall i, j :: 0 <= i < j < |at| ==> at[i] < at[j])
    && (forall k: nat :: k < |lines| && lines[k].Code? ==> k in at)
  }

  /** A label stands behind an instruction at this address, before any other instruction. */
  ghost predicate LabelBehind(lines: seq<Line>, address: Address) {
    exists k: nat, m: nat :: k < m && InstructionBefore(lines, k, m) && lines[k].insn.address == address && lines[m].Label?
  }

  /** Line `k` is the last instruction before line `m`. */
  ghost predicate InstructionBefore(lines: seq<Line>, k: nat, m: nat) {
    k < m < |lines| && lines[k].Code? && forall j :: k < j < m ==> !lines[j].Code?
  }

  /** What the scan reads out of a listing. */
  ghost predicate Listing(lines: seq<Line>, p: Program) {
    && (exists at: seq<nat> :: InOrder(lines, p.code, at))
    && (forall a :: a in p.barriers <==> LabelBehind(lines, a))
  }

  predicate FallsThrough(p: Program, a: nat)
    requires a < |p.code|
  {
    && p.code[a].op !in NO_FALLTHROUGH
    && p.code[a].address !in p.barriers
    && a + 1 < |p.code| && p.code[a + 1].address == p.code[a].address + 4
  }

  /** Control may pass from instruction `a` to instruction `b`. */
  predicate Edge(p: Program, a: nat, b: nat) {
    && a < |p.code| && b < |p.code|
    && ((Branches(p.code[a]) && p.code[a].target == Some(p.code[b].address))
        || (a + 1 == b && FallsThrough(p, a)))
  }

  ghost predicate Path(p: Program, path: seq<nat>) {
    && |path| > 0
    && (forall i :: 0 <= i < |path| ==> path[i] < |p.code|)
    && (forall i :: 0 <= i < |path| - 1 ==> Edge(p, path[i], path[i + 1]))
  }

  ghost predicate Entry(p: Program, b: nat) {
    forall a :: 0 <= a < |p.code| ==> !Edge(p, a, b)
  }

  ghost predicate WritesAt(p: Program, path: seq<nat>, i: nat, reg: nat) {
    i < |path| && path[i] < |p.code| && Writes(p.code[path[i]], reg)
  }

  ghost predicate LastWrite(p: Program, path: seq<nat>, i: nat, reg: nat) {
    WritesAt(p, path, i, reg) && forall j :: i < j < |path| ==> !WritesAt(p, path, j, reg)
  }

  /** The path's last write of the register is an `adrp` of the page. */
  ghost predicate EndsOnPage(p: Program, path: seq<nat>, reg: nat, page: Option<Address>) {
    exists i :: 0 <= i < |path| && LastWrite(p, path, i, reg) && SetsPage(p.code[path[i]], reg, page)
  }

  /** The register leaves the path with something else: a wrong last write, or none since an entry. */
  ghost predicate Violates(p: Program, path: seq<nat>, reg: nat, page: Option<Address>) {
    && Path(p, path)
    && !EndsOnPage(p, path, reg, page)
    && (Entry(p, path[0]) || exists i :: 0 <= i < |path| && WritesAt(p, path, i, reg))
  }

  ghost predicate Safe(p: Program, start: nat, reg: nat, page: Option<Address>) {
    forall path :: Path(p, path) && path[|path| - 1] == start ==> !Violates(p, path, reg, page)
  }

  /** No instruction after the first one of the path writes the register. */
  ghost predicate CleanPath(p: Program, path: seq<nat>, from: nat, start: nat, reg: nat) {
    && Path(p, path) && path[0] == from && path[|path| - 1] == start
    && forall i :: 1 <= i < |path| ==> !WritesAt(p, path, i, reg)
  }

  ghost predicate Cleanly(p: Program, from: nat, start: nat, reg: nat) {
    exists path :: CleanPath(p, path, from, start, reg)
  }

  /** Everything the backward search can visit. */
  ghost function CleanReach(p: Program, start: nat, reg: nat): set<nat> {
    set a | 0 <= a < |p.code| && Cleanly(p, a, start, reg)
  }

  /** Where the search gives up: a wrong write, or an entry that wrote nothing. */
  ghost predicate Bad(p: Program, a: nat, reg: nat, page: Option<Address>)
    requires a < |p.code|
  {
    if Writes(p.code[a], reg) then !SetsPage(p.code[a], reg, page) else Entry(p, a)
  }

  ghost predicate UniqueAddresses(p: Program) {
    forall i, j :: 0 <= i < j < |p.code| ==> p.code[i].address != p.code[j].address
  }

  lemma {:induction false} LastWriteExists(p: Program, path: seq<nat>, reg: nat, n: nat) returns (i: nat)
    requires n < |path| && WritesAt(p, path, n, reg)
    ensures i < |path| && LastWrite(p, path, i, reg)
    decreases |path| - n
  {
    i := n;
    if !LastWrite(p, path, n, reg) {
      var j :| n < j < |path| && WritesAt(p, path, j, reg);
      i := LastWriteExists(p, path, reg, j);
    }
  }

  /** All violating paths are found at the clean frontier, and nothing else is there. */
  lemma SafeIffNothingBad(p: Program, start: nat, reg: nat, page: Option<Address>)
    ensures Safe(p, start, reg, page) <==> forall a :: a in CleanReach(p, start, reg) ==> !Bad(p, a, reg, page)
  {
    if exists a :: a in CleanReach(p, start, reg) && Bad(p, a, reg, page) {
      var a :| a in CleanReach(p, start, reg) && Bad(p, a, reg, page);
      var path :| CleanPath(p, path, a, start, reg);
      BadPathViolates(p, path, a, start, reg, page);
    }
    if !Safe(p, start, reg, page) {
      var path :| Path(p, path) && path[|path| - 1] == start && Violates(p, path, reg, page);
      var a := ViolationIsBad(p, path, start, reg, page);
    }
  }

  lemma BadPathViolates(p: Program, path: seq<nat>, a: nat, start: nat, reg: nat, page: Option<Address>)
    requires CleanPath(p, path, a, start, reg) && Bad(p, a, reg, page)
    ensures Violates(p, path, reg, page)
  {
    if Writes(p.code[a], reg) {
      assert WritesAt(p, path, 0, reg);
    }
    forall i | 1 <= i < |path|
      ensures !LastWrite(p, path, i, reg)
    {
      assert !WritesAt(p, path, i, reg);
    }
  }

  lemma TailIsPath(p: Program, path: seq<nat>, from: nat)
    requires Path(p, path) && from < |path|
    ensures Path(p, path[from..])
  {
    var tail := path[from..];
    forall i | 0 <= i < |tail| - 1
      ensures Edge(p, tail[i], tail[i + 1])
    {
      assert Edge(p, path[from + i], path[from + i + 1]);
    }
  }

  lemma TailIsClean(p: Program, path: seq<nat>, from: nat, start: nat, reg: nat)
    requires Path(p, path) && from < |path| && path[|path| - 1] == start
    requires forall i :: from < i < |path| ==> !WritesAt(p, path, i, reg)
    ensures path[from] in CleanReach(p, start, reg)
  {
    var tail := path[from..];
    TailIsPath(p, path, from);
    forall i | 1 <= i < |tail|
      ensures !WritesAt(p, tail, i, reg)
    {
      assert !WritesAt(p, path, from + i, reg);
    }
    assert CleanPath(p, tail, path[from], start, reg);
  }

  lemma ViolationIsBad(p: Program, path: seq<nat>, start: nat, reg: nat, page: Option<Address>) returns (a: nat)
    requires Violates(p, path, reg, page) && path[|path| - 1] == start
    ensures a in CleanReach(p, start, reg) && Bad(p, a, reg, page)
  {
    if n :| 0 <= n < |path| && WritesAt(p, path, n, reg) {
      var from := LastWriteExists(p, path, reg, n);
      TailIsClean(p, path, from, start, reg);
      a := path[from];
    } else {
      TailIsClean(p, path, 0, start, reg);
      a := path[0];
      assert !WritesAt(p, path, 0, reg);
    }
  }

  // ------------------------------------------------------------------- the pairs

  ghost predicate SourceAt(p: Program, i: nat, target: Address, source: Address) {
    i < |p.code| && Branches(p.code[i]) && p.code[i].target == Some(target) && p.code[i].address == source
  }

  /** `adrp xN` immediately followed by `add xN, xN, #imm`. */
  predicate IsPair(p: Program, q: nat) {
    && 0 < q < |p.code|
    && p.code[q].op == "add" && p.code[q - 1].op == "adrp"
    && p.code[q].address == p.code[q - 1].address + 4
    && |p.code[q].operands| >= 3
    && p.code[q].operands[0] == p.code[q].operands[1] == Operand(p.code[q - 1], 0)
    && Register(Operand(p.code[q - 1], 0)).Some?
  }

  function PairRegister(p: Program, q: nat): nat
    requires IsPair(p, q)
  {
    Register(Operand(p.code[q - 1], 0)).value
  }

  /** A branch at `s` enters the pair, and the walk from it settles on the pair's page. */
  ghost predicate Settles(p: Program, q: nat, s: nat)
    requires IsPair(p, q)
  {
    && p.code[q - 1].target.Some?
    && Safe(p, s, PairRegister(p, q), p.code[q - 1].target)
    && |CleanReach(p, s, PairRegister(p, q))| <= SEARCH_LIMIT
  }

  ghost predicate BranchInto(p: Program, s: nat, q: nat) {
    q < |p.code| && s < |p.code| && SourceAt(p, s, p.code[q].address, p.code[s].address)
  }

  ghost predicate Flagged(p: Program, q: nat) {
    IsPair(p, q) && exists s :: BranchInto(p, s, q) && !Settles(p, q, s)
  }

  // ----------------------------------------------------------- what an answer means

  lemma AdrpWrites(p: Program, q: nat)
    requires IsPair(p, q)
    ensures SetsPage(p.code[q - 1], PairRegister(p, q), p.code[q - 1].target)
  {
    var adrp := p.code[q - 1];
    assert |adrp.op| == 4 && adrp.op[0] == 'a' && adrp.op[1] == 'd';
    assert !StartsWith(adrp.op, "st") && !StartsWith(adrp.op, "b.");
    assert adrp.op !in READS_FIRST && adrp.op !in NO_FALLTHROUGH;
  }

  lemma PrefixIsPath(p: Program, path: seq<nat>, n: nat)
    requires Path(p, path) && 0 < n <= |path|
    ensures Path(p, path[..n])
  {
    var front := path[..n];
    assert forall i :: 0 <= i < |front| - 1 ==> Edge(p, path[i], path[i + 1]);
  }

  /**
   No hit for a pair: on every path from an entry of the graph into its `add`, however often it
   runs through loops, the register was last written by an `adrp` of the pair's page.
   */
  lemma UnflaggedPairIsSound(p: Program, q: nat, path: seq<nat>)
    requires IsPair(p, q) && !Flagged(p, q)
    requires Path(p, path) && |path| > 1 && path[|path| - 1] == q && Entry(p, path[0])
    ensures EndsOnPage(p, path[..|path| - 1], PairRegister(p, q), p.code[q - 1].target)
  {
    var n := |path| - 1;
    var front := path[..n];
    var s := path[n - 1];
    PrefixIsPath(p, path, n);
    assert Edge(p, s, q);
    if Branches(p.code[s]) && p.code[s].target == Some(p.code[q].address) {
      assert BranchInto(p, s, q);
      assert !Violates(p, front, PairRegister(p, q), p.code[q - 1].target);
    } else {
      AdrpWrites(p, q);
      assert WritesAt(p, front, n - 1, PairRegister(p, q));
      assert LastWrite(p, front, n - 1, PairRegister(p, q));
    }
  }

  /** On every path from an entry of the graph into the `add`, the register was last given the pair's page. */
  ghost predicate SoundPair(p: Program, q: nat)
    requires IsPair(p, q)
  {
    forall path :: Path(p, path) && |path| > 1 && path[|path| - 1] == q && Entry(p, path[0]) ==>
      EndsOnPage(p, path[..|path| - 1], PairRegister(p, q), p.code[q - 1].target)
  }

  /** A path that enters the pair by the branch at `s` with something else in the register. */
  ghost predicate EntersWrongly(p: Program, q: nat, s: nat, path: seq<nat>)
    requires IsPair(p, q)
  {
    && |path| > 0 && path[|path| - 1] == s
    && Path(p, path) && Violates(p, path, PairRegister(p, q), p.code[q - 1].target)
  }

  /** Why a branch into the pair is reported. */
  ghost predicate Reportable(p: Program, q: nat, s: nat)
    requires IsPair(p, q)
  {
    || p.code[q - 1].target.None?
    || |CleanReach(p, s, PairRegister(p, q))| > SEARCH_LIMIT
    || exists path :: EntersWrongly(p, q, s, path)
  }

  /**
   A pair is hit exactly when some branch into it has a violating path, or too long a search, or the
   pair's page cannot be read.
   */
  lemma FlaggedExactly(p: Program, q: nat)
    requires IsPair(p, q)
    ensures Flagged(p, q) <==> exists s :: BranchInto(p, s, q) && Reportable(p, q, s)
  {
    hide IsPair, BranchInto, CleanReach, Path, Violates;
    forall s: nat
      ensures !Settles(p, q, s) <==> Reportable(p, q, s)
    {
      SettlesUnlessReportable(p, q, s);
    }
  }

  lemma SettlesUnlessReportable(p: Program, q: nat, s: nat)
    requires IsPair(p, q)
    ensures !Settles(p, q, s) <==> Reportable(p, q, s)
  {
    hide CleanReach, Violates;
    var (reg, page) := (PairRegister(p, q), p.code[q - 1].target);
    if !Safe(p, s, reg, page) {
      var path :| Path(p, path) && path[|path| - 1] == s && Violates(p, path, reg, page);
      assert EntersWrongly(p, q, s, path);
    }
    if path :| EntersWrongly(p, q, s, path) {
      assert Path(p, path) && path[|path| - 1] == s;
    }
  }
}
