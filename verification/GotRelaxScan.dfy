/**
 The scan of dev/check-arm64-got-relax.py: decode, index, and judge every pair by the worklist.
 */
module GotRelaxScan {
  import opened GotRelax
  import opened GotRelaxSearch

  ghost function HitTexts(p: Program, n: nat): seq<string>
    requires n <= |p.code|
  {
    if n == 0 then []
    else HitTexts(p, n - 1) + if Flagged(p, n - 1) then [p.code[n - 1].text] else []
  }

  function PairCount(p: Program, n: nat): nat
    requires n <= |p.code|
  {
    if n == 0 then 0 else PairCount(p, n - 1) + if IsPair(p, n - 1) then 1 else 0
  }

  /** The branch sources of the first `n` instructions, and nothing else. */
  ghost predicate SourcesOf(p: Program, sources: map<Address, seq<Address>>, n: nat) {
    && (forall t, s :: t in sources && s in sources[t] ==> exists j: nat :: SourceAt(p, j, t, s))
    && (forall j, t :: 0 <= j < n && j < |p.code| && SourceAt(p, j, t, p.code[j].address) ==>
          t in sources && p.code[j].address in sources[t])
  }

  function AddSource(sources: map<Address, seq<Address>>, insn: Insn): map<Address, seq<Address>> {
    if Branches(insn) && insn.target.Some?
    then sources[insn.target.value := Sources(sources, insn.target.value) + [insn.address]]
    else sources
  }

  lemma SourcesGrow(p: Program, sources: map<Address, seq<Address>>, n: nat)
    requires n < |p.code| && SourcesOf(p, sources, n)
    ensures SourcesOf(p, AddSource(sources, p.code[n]), n + 1)
  {
    hide Branches;
    var (insn, more) := (p.code[n], AddSource(sources, p.code[n]));
    if Branches(insn) && insn.target.Some? {
      assert SourceAt(p, n, insn.target.value, insn.address);
    }
    forall t, s | t in more && s in more[t]
      ensures exists j: nat :: SourceAt(p, j, t, s)
    {
      assert (t in sources && s in sources[t]) || SourceAt(p, n, t, s);
    }
  }

  method BuildIndex(p: Program) returns (index: map<Address, nat>, sources: map<Address, seq<Address>>)
    ensures Indexed(p, index, sources)
  {
    hide SourceAt, Branches;
    index, sources := map[], map[];
    for i := 0 to |p.code|
      invariant forall a :: a in index ==> index[a] < i && p.code[index[a]].address == a
      invariant forall j :: 0 <= j < i ==> p.code[j].address in index
    {
      index := index[p.code[i].address := i];
    }
    for i := 0 to |p.code|
      invariant SourcesOf(p, sources, i)
    {
      SourcesGrow(p, sources, i);
      var insn := p.code[i];
      if Branches(insn) && insn.target.Some? {
        sources := sources[insn.target.value := Sources(sources, insn.target.value) + [insn.address]];
      }
    }
  }

  lemma EmptyListing()
    ensures Listing([], Program([], {}))
  {
    assert InOrder([], [], []);
  }

  /** One more line leaves the labels found before it where they are. */
  lemma LabelsBefore(lines: seq<Line>, line: Line, a: Address)
    ensures LabelBehind(lines, a) ==> LabelBehind(lines + [line], a)
    ensures LabelBehind(lines + [line], a) && !line.Label? ==> LabelBehind(lines, a)
    ensures LabelBehind(lines + [line], a) ==> LabelBehind(lines, a) || LabelJustBehind(lines, a)
    ensures line.Label? && LabelJustBehind(lines, a) ==> LabelBehind(lines + [line], a)
  {
    var more := lines + [line];
    if LabelBehind(lines, a) {
      var k: nat, m: nat :| k < m && InstructionBefore(lines, k, m) && lines[k].insn.address == a && lines[m].Label?;
      assert InstructionBefore(more, k, m);
    }
    if LabelBehind(more, a) {
      var k: nat, m: nat :| k < m && InstructionBefore(more, k, m) && more[k].insn.address == a && more[m].Label?;
      assert forall j :: k <= j < |lines| ==> lines[j] == more[j];
      if m < |lines| {
        assert InstructionBefore(lines, k, m);
      } else {
        assert LastInstruction(lines, k);
      }
    }
    if line.Label? && LabelJustBehind(lines, a) {
      var k: nat :| LastInstruction(lines, k) && lines[k].insn.address == a;
      assert InstructionBefore(more, k, |lines|);
    }
  }

  ghost predicate LastInstruction(lines: seq<Line>, k: nat) {
    k < |lines| && lines[k].Code? && forall j :: k < j < |lines| ==> !lines[j].Code?
  }

  ghost predicate LabelJustBehind(lines: seq<Line>, a: Address) {
    exists k: nat :: LastInstruction(lines, k) && lines[k].insn.address == a
  }

  /** The last instruction read is on the last line that has one. */
  lemma LastRead(lines: seq<Line>, code: seq<Insn>, at: seq<nat>, a: Address)
    requires InOrder(lines, code, at)
    ensures LabelJustBehind(lines, a) <==> |code| > 0 && a == code[|code| - 1].address
  {
    if |code| > 0 {
      assert lines[at[|at| - 1]] == Code(code[|code| - 1]);
    }
    if |code| > 0 && a == code[|code| - 1].address {
      LastIsLast(lines, code, at);
      assert LastInstruction(lines, at[|at| - 1]);
    }
    if LabelJustBehind(lines, a) {
      var k: nat :| LastInstruction(lines, k) && lines[k].insn.address == a;
      LastIsAt(lines, code, at, k);
    }
  }

  lemma LastIsLast(lines: seq<Line>, code: seq<Insn>, at: seq<nat>)
    requires InOrder(lines, code, at) && |code| > 0
    ensures LastInstruction(lines, at[|at| - 1])
  {
    forall j | at[|at| - 1] < j < |lines|
      ensures !lines[j].Code?
    {
      if lines[j].Code? {
        var i := IndexOf(lines, code, at, j);
      }
    }
  }

  lemma LastIsAt(lines: seq<Line>, code: seq<Insn>, at: seq<nat>, k: nat)
    requires InOrder(lines, code, at) && LastInstruction(lines, k)
    ensures |at| > 0 && k == at[|at| - 1]
  {
    var i := IndexOf(lines, code, at, k);
    var last := at[|at| - 1];
    assert lines[last].Code? && k <= last;
  }

  lemma IndexOf(lines: seq<Line>, code: seq<Insn>, at: seq<nat>, k: nat) returns (i: nat)
    requires InOrder(lines, code, at) && k < |lines| && lines[k].Code?
    ensures i < |at| && at[i] == k
  {
    assert k in at;
    i :| 0 <= i < |at| && at[i] == k;
  }

  lemma LabelRead(lines: seq<Line>, p: Program)
    requires Listing(lines, p)
    ensures Listing(lines + [Label], if |p.code| > 0 then p.(barriers := p.barriers + {p.code[|p.code| - 1].address}) else p)
  {
    hide LabelBehind, LabelJustBehind, InOrder;
    var at: seq<nat> :| InOrder(lines, p.code, at);
    NothingRead(lines, p.code, at, Label);
    forall a
      ensures LabelBehind(lines + [Label], a) <==> LabelBehind(lines, a) || (|p.code| > 0 && a == p.code[|p.code| - 1].address)
    {
      LabelsBefore(lines, Label, a);
      LastRead(lines, p.code, at, a);
    }
  }

  lemma NothingRead(lines: seq<Line>, code: seq<Insn>, at: seq<nat>, line: Line)
    requires InOrder(lines, code, at) && !line.Code?
    ensures InOrder(lines + [line], code, at)
  {
  }

  lemma CodeRead(lines: seq<Line>, p: Program, insn: Insn)
    requires Listing(lines, p)
    ensures Listing(lines + [Code(insn)], p.(code := p.code + [insn]))
  {
    hide LabelBehind, InOrder;
    var at: seq<nat> :| InOrder(lines, p.code, at);
    OneRead(lines, p.code, at, insn);
    forall a
      ensures LabelBehind(lines + [Code(insn)], a) <==> LabelBehind(lines, a)
    {
      LabelsBefore(lines, Code(insn), a);
    }
  }

  lemma OneRead(lines: seq<Line>, code: seq<Insn>, at: seq<nat>, insn: Insn)
    requires InOrder(lines, code, at)
    ensures exists to: seq<nat> :: InOrder(lines + [Code(insn)], code + [insn], to)
  {
    var here: nat := |lines|;
    var to: seq<nat> := at + [here];
    forall k: nat | k < |lines + [Code(insn)]| && (lines + [Code(insn)])[k].Code?
      ensures k in to
    {
      if k < here {
        assert k in at;
      } else {
        assert to[|at|] == here;
      }
    }
    assert InOrder(lines + [Code(insn)], code + [insn], to);
  }

  lemma OtherRead(lines: seq<Line>, p: Program)
    requires Listing(lines, p)
    ensures Listing(lines + [Other], p)
  {
    hide LabelBehind, InOrder;
    var at: seq<nat> :| InOrder(lines, p.code, at);
    NothingRead(lines, p.code, at, Other);
    forall a
      ensures LabelBehind(lines + [Other], a) <==> LabelBehind(lines, a)
    {
      LabelsBefore(lines, Other, a);
    }
  }

  method Decode(lines: seq<Line>) returns (p: Program)
    ensures Listing(lines, p)
  {
    hide Listing;
    var code, barriers := [], {};
    EmptyListing();
    for i := 0 to |lines|
      invariant Listing(lines[..i], Program(code, barriers))
    {
      assert lines[..i + 1] == lines[..i] + [lines[i]];
      match lines[i] {
        case Label =>
          LabelRead(lines[..i], Program(code, barriers));
          if code != [] {
            barriers := barriers + {code[|code| - 1].address};
          }
        case Code(insn) =>
          CodeRead(lines[..i], Program(code, barriers), insn);
          code := code + [insn];
        case Other =>
          OtherRead(lines[..i], Program(code, barriers));
      }
    }
    assert lines[..|lines|] == lines;
    p := Program(code, barriers);
  }

  lemma {:induction false} OneOrder(lines: seq<Line>, a: seq<Insn>, b: seq<Insn>, p: seq<nat>, q: seq<nat>)
    requires InOrder(lines, a, p) && InOrder(lines, b, q)
    ensures a == b
    decreases |lines|
  {
    if lines != [] {
      var last := |lines| - 1;
      var rest := lines[..last];
      if lines[last].Code? {
        LastPlace(lines, a, p);
        LastPlace(lines, b, q);
        OneOrder(rest, a[..|a| - 1], b[..|b| - 1], p[..|p| - 1], q[..|q| - 1]);
        assert a == a[..|a| - 1] + [a[|a| - 1]] && b == b[..|b| - 1] + [b[|b| - 1]];
      } else {
        LastPlace(lines, a, p);
        LastPlace(lines, b, q);
        OneOrder(rest, a, b, p, q);
      }
    }
  }

  /** The last line either holds the last instruction or none. */
  lemma LastPlace(lines: seq<Line>, code: seq<Insn>, at: seq<nat>)
    requires InOrder(lines, code, at) && lines != []
    ensures var rest := lines[..|lines| - 1];
            if lines[|lines| - 1].Code? then
              && |code| > 0 && at[|at| - 1] == |lines| - 1
              && InOrder(rest, code[..|code| - 1], at[..|at| - 1])
            else InOrder(rest, code, at)
  {
    var last := |lines| - 1;
    if lines[last].Code? {
      assert last in at;
      assert at[|at| - 1] == last;
      assert forall k: nat :: k < last && lines[k].Code? ==> k in at[..|at| - 1];
    } else {
      assert forall i :: 0 <= i < |at| ==> at[i] != last;
    }
  }

  /** A listing is read in one way only. */
  lemma ListingIsUnique(lines: seq<Line>, p: Program, q: Program)
    requires Listing(lines, p) && Listing(lines, q)
    ensures p == q
  {
    hide LabelBehind;
    var at: seq<nat> :| InOrder(lines, p.code, at);
    var to: seq<nat> :| InOrder(lines, q.code, to);
    OneOrder(lines, p.code, q.code, at, to);
    assert p.barriers == q.barriers;
  }

  /** With one instruction per address, control falls through a line end exactly where no label intervenes. */
  lemma FallsUnlessLabelled(lines: seq<Line>, p: Program, at: seq<nat>, a: nat)
    requires Listing(lines, p) && UniqueAddresses(p) && InOrder(lines, p.code, at) && a + 1 < |p.code|
    ensures |at| == |p.code| && at[a] < at[a + 1] < |lines|
    ensures FallsThrough(p, a) <==>
              && p.code[a].op !in {"b", "br", "ret", "braa", "brab", "retaa", "retab", "eret"}
              && p.code[a + 1].address == p.code[a].address + 4
              && forall m :: at[a] < m < at[a + 1] ==> !lines[m].Label?
  {
    hide InOrder, LabelBehind;
    BehindExactly(lines, p, at, a);
  }

  lemma BehindExactly(lines: seq<Line>, p: Program, at: seq<nat>, a: nat)
    requires UniqueAddresses(p) && InOrder(lines, p.code, at) && a + 1 < |p.code|
    ensures |at| == |p.code| && at[a] < at[a + 1] < |lines|
    ensures LabelBehind(lines, p.code[a].address) <==> exists m :: at[a] < m < at[a + 1] && lines[m].Label?
  {
    NothingBetween(lines, p.code, at, a);
    if m :| at[a] < m < at[a + 1] && lines[m].Label? {
      assert InstructionBefore(lines, at[a], m);
    }
    if LabelBehind(lines, p.code[a].address) {
      var k: nat, m: nat :| k < m && InstructionBefore(lines, k, m) && lines[k].insn.address == p.code[a].address && lines[m].Label?;
      var i := IndexOf(lines, p.code, at, k);
      assert lines[at[i]] == Code(p.code[i]);
      assert i == a;
      assert lines[at[a + 1]].Code?;
      assert at[a] < m < at[a + 1];
    }
  }

  lemma NothingBetween(lines: seq<Line>, code: seq<Insn>, at: seq<nat>, a: nat)
    requires InOrder(lines, code, at) && a + 1 < |at|
    ensures at[a] < at[a + 1] < |lines|
    ensures forall j :: at[a] < j < at[a + 1] ==> !lines[j].Code?
  {
    forall j: nat | j < |lines| && lines[j].Code?
      ensures j <= at[a] || at[a + 1] <= j
    {
      var i := IndexOf(lines, code, at, j);
      assert i < a ==> at[i] < at[a];
      assert i > a + 1 ==> at[a + 1] < at[i];
    }
  }

  /** The branches recorded for the `add` are the branches into it. */
  lemma EnteringBranch(p: Program, index: map<Address, nat>, sources: map<Address, seq<Address>>, q: nat, source: Address)
    requires Indexed(p, index, sources) && q < |p.code| && source in Sources(sources, p.code[q].address)
    ensures source in index && (UniqueAddresses(p) ==> BranchInto(p, index[source], q))
  {
    var s: nat :| SourceAt(p, s, p.code[q].address, source);
    assert p.code[s].address in index;
  }

  ghost predicate FirstSettle(p: Program, index: map<Address, nat>, q: nat, entering: seq<Address>, n: nat) {
    UniqueAddresses(p) && IsPair(p, q) ==>
      forall j :: 0 <= j < n && j < |entering| ==> entering[j] in index && Settles(p, q, index[entering[j]])
  }

  lemma OneMoreSettles(p: Program, index: map<Address, nat>, q: nat, entering: seq<Address>, n: nat)
    requires FirstSettle(p, index, q, entering, n) && n < |entering| && IsPair(p, q) && entering[n] in index
    requires UniqueAddresses(p) ==> Settles(p, q, index[entering[n]])
    ensures FirstSettle(p, index, q, entering, n + 1)
  {
  }

  lemma AllBranchesEnter(p: Program, index: map<Address, nat>, sources: map<Address, seq<Address>>, q: nat, entering: seq<Address>)
    requires Indexed(p, index, sources) && IsPair(p, q) && entering == Sources(sources, p.code[q].address)
    requires FirstSettle(p, index, q, entering, |entering|)
    ensures UniqueAddresses(p) ==> !Flagged(p, q)
  {
    if UniqueAddresses(p) {
      forall s: nat | BranchInto(p, s, q)
        ensures Settles(p, q, s)
      {
        assert p.code[s].address in entering;
        assert index[p.code[s].address] == s;
      }
    }
  }

  /** One branch into the pair, judged by the walk or by the lack of a page. */
  lemma BranchJudged(p: Program, index: map<Address, nat>, sources: map<Address, seq<Address>>, q: nat, source: Address, ok: bool)
    requires Indexed(p, index, sources) && IsPair(p, q) && source in Sources(sources, p.code[q].address)
    requires source in index
    requires if p.code[q - 1].target.None? then !ok
             else Answers(p, ok, index[source], PairRegister(p, q), p.code[q - 1].target)
    ensures UniqueAddresses(p) ==> if ok then Settles(p, q, index[source]) else Flagged(p, q)
  {
    EnteringBranch(p, index, sources, q, source);
  }

  /**
   Whether some branch into the `add` at `q` has a violating path, or too long a search, or the
   pair's page cannot be read.
   */
  method EnteredOtherwise(p: Program, index: map<Address, nat>, sources: map<Address, seq<Address>>, q: nat) returns (hit: bool)
    requires Indexed(p, index, sources) && IsPair(p, q)
    ensures UniqueAddresses(p) ==> (hit <==> Flagged(p, q))
    ensures UniqueAddresses(p) ==> (hit <==> exists s :: BranchInto(p, s, q) && Reportable(p, q, s))
  {
    hide Reportable;
    FlaggedExactly(p, q);
    var entering := Sources(sources, p.code[q].address);
    var expected := p.code[q - 1].target;
    for i := 0 to |entering|
      invariant FirstSettle(p, index, q, entering, i)
    {
      EnteringBranch(p, index, sources, q, entering[i]);
      var ok := false;
      if expected.Some? {
        ghost var visited;
        ok, visited := ReachesWithPage(p, index, sources, entering[i], PairRegister(p, q), expected.value);
      }
      BranchJudged(p, index, sources, q, entering[i], ok);
      if !ok {
        return true;
      }
      OneMoreSettles(p, index, q, entering, i);
    }
    AllBranchesEnter(p, index, sources, q, entering);
    hit := false;
  }

  /** The instruction count, the pair count, and the text of every flagged pair in order. */
  method Scan(lines: seq<Line>) returns (count: nat, pairs: nat, hits: seq<string>, ghost p: Program)
    ensures Listing(lines, p)
    ensures count == |p.code| && pairs == PairCount(p, |p.code|)
    ensures UniqueAddresses(p) ==> hits == HitTexts(p, |p.code|)
    ensures UniqueAddresses(p) && hits == [] ==> forall q: nat :: IsPair(p, q) ==> SoundPair(p, q)
  {
    hide SoundPair, Listing;
    var decoded := Decode(lines);
    p := decoded;
    var index, sources := BuildIndex(decoded);
    count, pairs, hits := |decoded.code|, 0, [];
    for q := 0 to |decoded.code|
      invariant pairs == PairCount(p, q)
      invariant UniqueAddresses(p) ==> hits == HitTexts(p, q)
    {
      if IsPair(decoded, q) {
        pairs := pairs + 1;
        var hit := EnteredOtherwise(decoded, index, sources, q);
        if hit {
          hits := hits + [decoded.code[q].text];
        }
      }
    }
    if UniqueAddresses(p) && hits == [] {
      NoHitIsSound(p);
    }
  }

  lemma {:induction false} NoHitNoFlag(p: Program, n: nat, q: nat)
    requires q < n <= |p.code| && HitTexts(p, n) == []
    ensures !Flagged(p, q)
    decreases n
  {
    hide Flagged;
    if q < n - 1 {
      NoHitNoFlag(p, n - 1, q);
    }
  }

  /** A listing without a hit has the right page at every pair on every path, loops included. */
  lemma NoHitIsSound(p: Program)
    requires HitTexts(p, |p.code|) == []
    ensures forall q: nat :: IsPair(p, q) ==> SoundPair(p, q)
  {
    hide Path, Entry, EndsOnPage;
    forall q: nat | IsPair(p, q)
      ensures SoundPair(p, q)
    {
      NoHitNoFlag(p, |p.code|, q);
      forall path | Path(p, path) && |path| > 1 && path[|path| - 1] == q && Entry(p, path[0])
        ensures EndsOnPage(p, path[..|path| - 1], PairRegister(p, q), p.code[q - 1].target)
      {
        UnflaggedPairIsSound(p, q, path);
      }
    }
  }
}
