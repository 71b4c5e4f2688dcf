/**
 The backward worklist of dev/check-arm64-got-relax.py over the index of a disassembly, proved to
 decide whether every path into an instruction leaves the register on a page.
 */
module GotRelaxSearch {
  import opened GotRelax
  import opened Wrappers

  lemma StartIsReached(p: Program, start: nat, reg: nat)
    requires start < |p.code|
    ensures start in CleanReach(p, start, reg)
  {
    assert CleanPath(p, [start], start, start, reg);
  }

  lemma ReachGrows(p: Program, a: nat, b: nat, start: nat, reg: nat)
    requires b in CleanReach(p, start, reg) && !Writes(p.code[b], reg) && Edge(p, a, b)
    ensures a in CleanReach(p, start, reg)
  {
    var path :| CleanPath(p, path, b, start, reg);
    var longer := [a] + path;
    forall i | 1 <= i < |longer|
      ensures !WritesAt(p, longer, i, reg)
    {
      assert longer[i] == path[i - 1];
      assert i > 1 ==> !WritesAt(p, path, i - 1, reg);
    }
    assert forall i :: 0 <= i < |longer| - 1 ==> i > 0 ==> Edge(p, path[i - 1], path[i]);
    assert CleanPath(p, longer, a, start, reg);
  }

  ghost predicate Closed(p: Program, s: set<nat>, reg: nat) {
    forall a, b :: b in s && Edge(p, a, b) && !Writes(p.code[b], reg) ==> a in s
  }

  lemma {:induction false} ClosedHoldsPath(p: Program, s: set<nat>, path: seq<nat>, from: nat, start: nat, reg: nat, i: nat)
    requires Closed(p, s, reg) && start in s && CleanPath(p, path, from, start, reg) && i < |path|
    ensures path[i] in s
    decreases |path| - i
  {
    if i < |path| - 1 {
      ClosedHoldsPath(p, s, path, from, start, reg, i + 1);
      assert !WritesAt(p, path, i + 1, reg) && Edge(p, path[i], path[i + 1]);
    }
  }

  lemma ClosedHoldsReach(p: Program, s: set<nat>, start: nat, reg: nat)
    requires Closed(p, s, reg) && start in s
    ensures CleanReach(p, start, reg) <= s
  {
    forall a | a in CleanReach(p, start, reg)
      ensures a in s
    {
      var path :| CleanPath(p, path, a, start, reg);
      ClosedHoldsPath(p, s, path, a, start, reg, 0);
    }
  }

  /** `index` and `sources` as `scan` builds them. */
  ghost predicate Indexed(p: Program, index: map<Address, nat>, sources: map<Address, seq<Address>>) {
    && (forall a :: a in index ==> index[a] < |p.code| && p.code[index[a]].address == a)
    && (forall i :: 0 <= i < |p.code| ==> p.code[i].address in index)
    && (forall t, s :: t in sources && s in sources[t] ==> exists i: nat :: SourceAt(p, i, t, s))
    && (forall i, t :: 0 <= i < |p.code| && SourceAt(p, i, t, p.code[i].address) ==> t in sources && p.code[i].address in sources[t])
  }

  function Sources(sources: map<Address, seq<Address>>, target: Address): seq<Address> {
    if target in sources then sources[target] else []
  }

  function Predecessors(p: Program, sources: map<Address, seq<Address>>, position: nat): seq<Address>
    requires position < |p.code|
  {
    Sources(sources, p.code[position].address)
    + (if position > 0 && FallsThrough(p, position - 1) then [p.code[position - 1].address] else [])
  }

  /** With one instruction per address, the addresses found are those of the graph's predecessors. */
  lemma PredecessorsAreEdges(p: Program, index: map<Address, nat>, sources: map<Address, seq<Address>>, b: nat)
    requires Indexed(p, index, sources) && b < |p.code|
    ensures forall a :: a in Predecessors(p, sources, b) ==> a in index
    ensures UniqueAddresses(p) ==> forall a :: a in Predecessors(p, sources, b) ==> Edge(p, index[a], b)
    ensures forall a :: 0 <= a < |p.code| && Edge(p, a, b) ==> p.code[a].address in Predecessors(p, sources, b)
  {
    forall a | a in Predecessors(p, sources, b)
      ensures a in index && (UniqueAddresses(p) ==> Edge(p, index[a], b))
    {
      if a in Sources(sources, p.code[b].address) {
        var i :| SourceAt(p, i, p.code[b].address, a);
        assert UniqueAddresses(p) ==> index[a] == i;
      } else {
        assert UniqueAddresses(p) ==> index[a] == b - 1;
      }
    }
    forall a | 0 <= a < |p.code| && Edge(p, a, b)
      ensures p.code[a].address in Predecessors(p, sources, b)
    {
      if Branches(p.code[a]) && p.code[a].target == Some(p.code[b].address) {
        assert SourceAt(p, a, p.code[b].address, p.code[a].address);
      }
    }
  }

  ghost function Positions(index: map<Address, nat>, addresses: set<Address>): set<nat> {
    set a | a in addresses && a in index :: index[a]
  }

  /** Distinct addresses have distinct positions. */
  lemma {:induction false} PositionsCount(p: Program, index: map<Address, nat>, addresses: set<Address>)
    requires addresses <= index.Keys
    requires forall a :: a in index ==> index[a] < |p.code| && p.code[index[a]].address == a
    ensures |Positions(index, addresses)| == |addresses|
    decreases |addresses|
  {
    if addresses != {} {
      var a :| a in addresses;
      PositionsCount(p, index, addresses - {a});
      assert Positions(index, addresses) == Positions(index, addresses - {a}) + {index[a]};
    }
  }

  /** Every address seen or stacked is one the walk can reach, and nothing seen ended it badly. */
  ghost predicate VisitsReach(p: Program, index: map<Address, nat>, stack: seq<Address>, seen: set<Address>, start: nat, reg: nat, page: Option<Address>) {
    && (forall i :: 0 <= i < |stack| ==> stack[i] in index && index[stack[i]] in CleanReach(p, start, reg))
    && (forall a :: a in seen ==> a in index && index[a] in CleanReach(p, start, reg) && !Bad(p, index[a], reg, page))
  }

  ghost predicate Pending(p: Program, stack: seq<Address>, seen: set<Address>, q: nat)
    requires q < |p.code|
  {
    p.code[q].address in seen || p.code[q].address in stack
  }

  /** Nothing the walk has to look at is lost. */
  ghost predicate Frontier(p: Program, index: map<Address, nat>, stack: seq<Address>, seen: set<Address>, start: nat, reg: nat) {
    && (forall q: nat, a :: a in seen && a in index && Edge(p, q, index[a]) && !Writes(p.code[index[a]], reg) ==>
          Pending(p, stack, seen, q))
    && start < |p.code| && Pending(p, stack, seen, start)
  }

  /** What the worklist loop keeps. */
  ghost predicate SearchInv(p: Program, index: map<Address, nat>, stack: seq<Address>, seen: set<Address>, start: nat, reg: nat, page: Option<Address>) {
    VisitsReach(p, index, stack, seen, start, reg, page) && Frontier(p, index, stack, seen, start, reg)
  }

  lemma SearchDone(p: Program, index: map<Address, nat>, seen: set<Address>, start: nat, reg: nat, page: Option<Address>)
    requires UniqueAddresses(p) && SearchInv(p, index, [], seen, start, reg, page)
    requires forall a :: a in index ==> index[a] < |p.code| && p.code[index[a]].address == a
    requires forall i :: 0 <= i < |p.code| ==> p.code[i].address in index
    ensures Safe(p, start, reg, page)
    ensures |CleanReach(p, start, reg)| == |seen|
  {
    var s := Positions(index, seen);
    SearchClosed(p, index, seen, start, reg, page);
    ClosedHoldsReach(p, s, start, reg);
    assert s == CleanReach(p, start, reg);
    PositionsCount(p, index, seen);
    SafeIffNothingBad(p, start, reg, page);
  }

  lemma SearchClosed(p: Program, index: map<Address, nat>, seen: set<Address>, start: nat, reg: nat, page: Option<Address>)
    requires UniqueAddresses(p) && SearchInv(p, index, [], seen, start, reg, page)
    requires forall a :: a in index ==> index[a] < |p.code| && p.code[index[a]].address == a
    requires forall i :: 0 <= i < |p.code| ==> p.code[i].address in index
    ensures Closed(p, Positions(index, seen), reg) && start in Positions(index, seen)
  {
    assert start == index[p.code[start].address];
    forall q: nat, b | b in Positions(index, seen) && Edge(p, q, b) && !Writes(p.code[b], reg)
      ensures q in Positions(index, seen)
    {
      var a :| a in seen && a in index && index[a] == b;
      assert Pending(p, [], seen, q);
      assert q == index[p.code[q].address];
    }
  }

  lemma SearchOverflows(p: Program, index: map<Address, nat>, stack: seq<Address>, seen: set<Address>, start: nat, reg: nat, page: Option<Address>, address: Address)
    requires SearchInv(p, index, stack + [address], seen, start, reg, page) && |seen + {address}| > SEARCH_LIMIT
    requires forall a :: a in index ==> index[a] < |p.code| && p.code[index[a]].address == a
    ensures |CleanReach(p, start, reg)| > SEARCH_LIMIT
  {
    var popped := stack + [address];
    assert popped[|stack|] == address;
    PositionsCount(p, index, seen + {address});
    assert Positions(index, seen + {address}) <= CleanReach(p, start, reg);
    SubsetSize(Positions(index, seen + {address}), CleanReach(p, start, reg));
  }

  lemma SubsetSize(a: set<nat>, b: set<nat>)
    requires a <= b
    ensures |a| <= |b|
  {
    assert b == a + (b - a);
  }

  /** A page write ends the walk there. */
  lemma SearchStops(p: Program, index: map<Address, nat>, stack: seq<Address>, seen: set<Address>, start: nat, reg: nat, page: Option<Address>, address: Address)
    requires SearchInv(p, index, stack + [address], seen, start, reg, page) && address in index
    requires index[address] < |p.code| && SetsPage(p.code[index[address]], reg, page)
    ensures SearchInv(p, index, stack, seen + {address}, start, reg, page)
  {
    var popped := stack + [address];
    assert popped[|stack|] == address;
    assert forall i :: 0 <= i < |stack| ==> stack[i] == popped[i];
    forall q: nat | q < |p.code| && Pending(p, popped, seen, q)
      ensures Pending(p, stack, seen + {address}, q)
    {
    }
  }

  lemma PendingMoves(p: Program, found: seq<Address>, stack: seq<Address>, seen: set<Address>, address: Address, q: nat)
    requires q < |p.code| && Pending(p, stack + [address], seen, q)
    ensures Pending(p, stack + found, seen + {address}, q)
  {
  }

  lemma PushesReach(p: Program, index: map<Address, nat>, found: seq<Address>, stack: seq<Address>, seen: set<Address>, start: nat, reg: nat, page: Option<Address>, address: Address)
    requires VisitsReach(p, index, stack + [address], seen, start, reg, page) && address in index
    requires index[address] < |p.code| && !Writes(p.code[index[address]], reg) && !Entry(p, index[address])
    requires forall i :: 0 <= i < |found| ==> found[i] in index && Edge(p, index[found[i]], index[address])
    ensures VisitsReach(p, index, stack + found, seen + {address}, start, reg, page)
  {
    var popped := stack + [address];
    assert popped[|stack|] == address;
    forall i | 0 <= i < |stack + found|
      ensures (stack + found)[i] in index && index[(stack + found)[i]] in CleanReach(p, start, reg)
    {
      if i < |stack| {
        assert popped[i] == stack[i];
      } else {
        ReachGrows(p, index[found[i - |stack|]], index[address], start, reg);
      }
    }
  }

  /** Otherwise every predecessor is pushed. */
  lemma SearchContinues(p: Program, index: map<Address, nat>, found: seq<Address>, stack: seq<Address>, seen: set<Address>, start: nat, reg: nat, page: Option<Address>, address: Address)
    requires SearchInv(p, index, stack + [address], seen, start, reg, page) && address in index
    requires index[address] < |p.code| && !Writes(p.code[index[address]], reg) && !Entry(p, index[address])
    requires forall i :: 0 <= i < |found| ==> found[i] in index && Edge(p, index[found[i]], index[address])
    requires forall a :: 0 <= a < |p.code| && Edge(p, a, index[address]) ==> p.code[a].address in found
    ensures SearchInv(p, index, stack + found, seen + {address}, start, reg, page)
  {
    PushesReach(p, index, found, stack, seen, start, reg, page, address);
    PendingMoves(p, found, stack, seen, address, start);
    forall q: nat, a | a in seen + {address} && a in index && Edge(p, q, index[a]) && !Writes(p.code[index[a]], reg)
      ensures Pending(p, stack + found, seen + {address}, q)
    {
      if a != address {
        PendingMoves(p, found, stack, seen, address, q);
      }
    }
  }

  lemma SearchSkips(p: Program, index: map<Address, nat>, stack: seq<Address>, seen: set<Address>, start: nat, reg: nat, page: Option<Address>, address: Address)
    requires SearchInv(p, index, stack + [address], seen, start, reg, page) && address in seen
    ensures SearchInv(p, index, stack, seen, start, reg, page)
  {
    var popped := stack + [address];
    assert forall i :: 0 <= i < |stack| ==> stack[i] == popped[i];
    forall q: nat | q < |p.code| && Pending(p, popped, seen, q)
      ensures Pending(p, stack, seen, q)
    {
    }
  }

  /** The loop's invariant; it needs one instruction per address. */
  ghost predicate LoopInv(p: Program, index: map<Address, nat>, stack: seq<Address>, seen: set<Address>, start: nat, reg: nat, page: Option<Address>) {
    && seen <= index.Keys
    && (forall i :: 0 <= i < |stack| ==> stack[i] in index)
    && (UniqueAddresses(p) ==> SearchInv(p, index, stack, seen, start, reg, page))
  }

  /** What the walk's answer means. */
  ghost predicate Answers(p: Program, ok: bool, start: nat, reg: nat, page: Option<Address>) {
    UniqueAddresses(p) ==> (ok <==> Safe(p, start, reg, page) && |CleanReach(p, start, reg)| <= SEARCH_LIMIT)
  }

  /** With one instruction per address, everything visited is within clean reach of the start. */
  ghost predicate Visited(p: Program, index: map<Address, nat>, visited: set<Address>, start: nat, reg: nat) {
    visited <= index.Keys && (UniqueAddresses(p) ==> Positions(index, visited) <= CleanReach(p, start, reg))
  }

  lemma LoopStarts(p: Program, index: map<Address, nat>, sources: map<Address, seq<Address>>, start: Address, reg: nat, page: Option<Address>)
    requires Indexed(p, index, sources) && start in index
    ensures LoopInv(p, index, [start], {}, index[start], reg, page)
  {
    StartIsReached(p, index[start], reg);
  }

  lemma LoopEnds(p: Program, index: map<Address, nat>, sources: map<Address, seq<Address>>, seen: set<Address>, start: nat, reg: nat, page: Option<Address>)
    requires Indexed(p, index, sources) && LoopInv(p, index, [], seen, start, reg, page) && |seen| <= SEARCH_LIMIT
    ensures Answers(p, true, start, reg, page) && Visited(p, index, seen, start, reg)
    ensures UniqueAddresses(p) ==> Safe(p, start, reg, page)
  {
    if UniqueAddresses(p) {
      SearchDone(p, index, seen, start, reg, page);
    }
  }

  lemma LoopSkips(p: Program, index: map<Address, nat>, stack: seq<Address>, seen: set<Address>, start: nat, reg: nat, page: Option<Address>, address: Address)
    requires LoopInv(p, index, stack + [address], seen, start, reg, page) && address in seen
    ensures LoopInv(p, index, stack, seen, start, reg, page)
  {
    assert forall i :: 0 <= i < |stack| ==> stack[i] == (stack + [address])[i];
    if UniqueAddresses(p) {
      SearchSkips(p, index, stack, seen, start, reg, page, address);
    }
  }

  lemma LoopOverflows(p: Program, index: map<Address, nat>, sources: map<Address, seq<Address>>, stack: seq<Address>, seen: set<Address>, start: nat, reg: nat, page: Option<Address>, address: Address)
    requires Indexed(p, index, sources) && LoopInv(p, index, stack + [address], seen, start, reg, page)
    ensures address in index && Visited(p, index, seen + {address}, start, reg)
    ensures |seen + {address}| > SEARCH_LIMIT ==> Answers(p, false, start, reg, page)
  {
    assert (stack + [address])[|stack|] == address;
    if UniqueAddresses(p) && |seen + {address}| > SEARCH_LIMIT {
      SearchOverflows(p, index, stack, seen, start, reg, page, address);
    }
  }

  lemma LoopFails(p: Program, index: map<Address, nat>, stack: seq<Address>, seen: set<Address>, start: nat, reg: nat, page: Option<Address>, address: Address)
    requires LoopInv(p, index, stack + [address], seen, start, reg, page) && address in index
    requires index[address] < |p.code| && Bad(p, index[address], reg, page)
    ensures Answers(p, false, start, reg, page) && (UniqueAddresses(p) ==> !Safe(p, start, reg, page))
  {
    assert (stack + [address])[|stack|] == address;
    SafeIffNothingBad(p, start, reg, page);
  }

  lemma LoopStops(p: Program, index: map<Address, nat>, stack: seq<Address>, seen: set<Address>, start: nat, reg: nat, page: Option<Address>, address: Address)
    requires LoopInv(p, index, stack + [address], seen, start, reg, page) && address in index
    requires index[address] < |p.code| && SetsPage(p.code[index[address]], reg, page)
    ensures LoopInv(p, index, stack, seen + {address}, start, reg, page)
  {
    assert forall i :: 0 <= i < |stack| ==> stack[i] == (stack + [address])[i];
    if UniqueAddresses(p) {
      SearchStops(p, index, stack, seen, start, reg, page, address);
    }
  }

  lemma LoopContinues(p: Program, index: map<Address, nat>, sources: map<Address, seq<Address>>, stack: seq<Address>, seen: set<Address>, start: nat, reg: nat, page: Option<Address>, address: Address)
    requires Indexed(p, index, sources) && LoopInv(p, index, stack + [address], seen, start, reg, page) && address in index
    requires index[address] < |p.code| && !Writes(p.code[index[address]], reg)
    ensures var found := Predecessors(p, sources, index[address]);
            if found == [] then Answers(p, false, start, reg, page) && (UniqueAddresses(p) ==> !Safe(p, start, reg, page))
            else LoopInv(p, index, stack + found, seen + {address}, start, reg, page)
  {
    var b := index[address];
    var found := Predecessors(p, sources, b);
    assert forall i :: 0 <= i < |stack| ==> stack[i] == (stack + [address])[i];
    PredecessorsAreEdges(p, index, sources, b);
    if found == [] {
      LoopFails(p, index, stack, seen, start, reg, page, address);
    } else if UniqueAddresses(p) {
      assert Edge(p, index[found[0]], b);
      SearchContinues(p, index, found, stack, seen, start, reg, page, address);
    }
  }

  /**
   The worklist answers yes exactly when every path into the branch last wrote the register with
   that page, unless it would have to look at more than SEARCH_LIMIT instructions. As long as it has
   visited no more than that, a no means that some path did not.
   */
  method ReachesWithPage(p: Program, index: map<Address, nat>, sources: map<Address, seq<Address>>, start: Address, reg: nat, expected: Address)
    returns (ok: bool, ghost visited: set<Address>)
    requires Indexed(p, index, sources) && start in index
    ensures Answers(p, ok, index[start], reg, Some(expected))
    ensures Visited(p, index, visited, index[start], reg)
    ensures UniqueAddresses(p) && |visited| <= SEARCH_LIMIT ==> (ok <==> Safe(p, index[start], reg, Some(expected)))
  {
    var stack, seen := [start], {};
    ghost var from, page := index[start], Some(expected);
    LoopStarts(p, index, sources, start, reg, page);
    while stack != []
      invariant LoopInv(p, index, stack, seen, from, reg, page)
      invariant |seen| <= SEARCH_LIMIT
      decreases index.Keys - seen, |stack|
    {
      var address := stack[|stack| - 1];
      assert stack == stack[..|stack| - 1] + [address];
      stack := stack[..|stack| - 1];
      if address in seen {
        LoopSkips(p, index, stack, seen, from, reg, page, address);
        continue;
      }
      LoopOverflows(p, index, sources, stack, seen, from, reg, page, address);
      ghost var before := seen;
      seen := seen + {address};
      if |seen| > SEARCH_LIMIT || address !in index {
        return false, seen;
      }
      var position := index[address];
      var insn := p.code[position];
      if Writes(insn, reg) {
        if insn.op != "adrp" || insn.target != Some(expected) {
          LoopFails(p, index, stack, before, from, reg, page, address);
          return false, seen;
        }
        LoopStops(p, index, stack, before, from, reg, page, address);
        continue;
      }
      var previous := Predecessors(p, sources, position);
      LoopContinues(p, index, sources, stack, before, from, reg, page, address);
      if previous == [] {
        return false, seen;
      }
      stack := stack + previous;
    }
    LoopEnds(p, index, sources, seen, from, reg, page);
    ok, visited := true, seen;
  }
}
