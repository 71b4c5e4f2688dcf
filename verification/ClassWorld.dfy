/**
 Member lookup of dev/plugin_link_check.py: five depth-first searches over a class table, each of
 which shares one visited set among all its recursive calls. Class tables may be cyclic.
 */
module ClassWorld {
  import opened Wrappers

  type Name = string
  type Signature = string

  datatype ClassInfo = ClassInfo(super: Option<Name>, interfaces: seq<Name>, isInterface: bool, members: map<Signature, bv16>)

  type Table = map<Name, ClassInfo>

  const OBJECT: Name := "java/lang/Object"
  const ACC_PRIVATE: bv16 := 0x0002
  const ACC_STATIC: bv16 := 0x0008
  const ACC_ABSTRACT: bv16 := 0x0400

  /** Python's `if parent` skips an empty name as it skips a missing one. */
  function Super(info: ClassInfo): seq<Name> {
    if info.super.Some? && info.super.value != "" then [info.super.value] else []
  }

  function NonEmpty(names: seq<Name>): (r: seq<Name>)
    ensures forall n :: n in r <==> n in names && n != ""
  {
    if names == [] then []
    else (if names[0] == "" then [] else [names[0]]) + NonEmpty(names[1..])
  }

  function SuperFirst(info: ClassInfo): seq<Name> {
    Super(info) + NonEmpty(info.interfaces)
  }

  function InterfacesFirst(info: ClassInfo): seq<Name> {
    NonEmpty(info.interfaces) + Super(info)
  }

  /** The parents `method` looks at, among which an interface may have an empty name. */
  function MethodParents(info: ClassInfo): seq<Name> {
    var parents := Super(info) + info.interfaces;
    parents + if info.isInterface && OBJECT !in parents then [OBJECT] else []
  }

  function Lookup(t: Table, name: Name, signature: Signature): Option<bv16> {
    if name in t && signature in t[name].members then Some(t[name].members[signature]) else None
  }

  // ------------------------------------------------------------- reachability

  type Graph = map<Name, set<Name>>

  ghost function Succ(g: Graph, a: Name): set<Name> {
    if a in g then g[a] else {}
  }

  ghost predicate Walk(g: Graph, path: seq<Name>) {
    |path| > 0 && forall i :: 0 <= i < |path| - 1 ==> path[i + 1] in Succ(g, path[i])
  }

  ghost predicate Reaches(g: Graph, a: Name, b: Name) {
    exists path :: Walk(g, path) && path[0] == a && path[|path| - 1] == b
  }

  lemma ReachesItself(g: Graph, a: Name)
    ensures Reaches(g, a, a)
  {
    assert Walk(g, [a]) && [a][0] == a;
  }

  lemma ReachesVia(g: Graph, a: Name, b: Name, c: Name)
    requires b in Succ(g, a) && Reaches(g, b, c)
    ensures Reaches(g, a, c)
  {
    var path :| Walk(g, path) && path[0] == b && path[|path| - 1] == c;
    var longer := [a] + path;
    forall i | 0 <= i < |longer| - 1
      ensures longer[i + 1] in Succ(g, longer[i])
    {
      assert i > 0 ==> path[i - 1 + 1] in Succ(g, path[i - 1]);
    }
    assert Walk(g, longer) && longer[0] == a && longer[|longer| - 1] == c;
  }

  ghost predicate Closed(g: Graph, s: set<Name>) {
    forall a :: a in s ==> Succ(g, a) <= s
  }

  lemma {:induction false} ClosedHoldsWalk(g: Graph, s: set<Name>, path: seq<Name>, i: nat)
    requires Closed(g, s) && Walk(g, path) && path[0] in s && i < |path|
    ensures path[i] in s
    decreases i
  {
    if i > 0 {
      ClosedHoldsWalk(g, s, path, i - 1);
      assert path[i - 1 + 1] in Succ(g, path[i - 1]);
    }
  }

  lemma ClosedHoldsReach(g: Graph, s: set<Name>, a: Name, b: Name)
    requires Closed(g, s) && a in s && Reaches(g, a, b)
    ensures b in s
  {
    var path :| Walk(g, path) && path[0] == a && path[|path| - 1] == b;
    ClosedHoldsWalk(g, s, path, |path| - 1);
  }

  /**
   What a search that found nothing leaves in the visited set: everything new, apart from names
   still open on the call stack, is no hit and has all its successors visited.
   */
  ghost predicate Explored(g: Graph, hits: iset<Name>, open: set<Name>, before: set<Name>, after: set<Name>) {
    before <= after && forall x :: x in after && x !in before && x !in open ==> x !in hits && Succ(g, x) <= after
  }

  /** A search from nothing that found nothing has looked everywhere. */
  lemma ExploredFromNothing(g: Graph, hits: iset<Name>, after: set<Name>, owner: Name)
    requires Explored(g, hits, {}, {}, after) && owner in after
    ensures forall x :: x in hits ==> !Reaches(g, owner, x)
  {
    forall x | x in hits && Reaches(g, owner, x)
      ensures false
    {
      ClosedHoldsReach(g, after, owner, x);
    }
  }

  lemma ExploredNothing(g: Graph, hits: iset<Name>, open: set<Name>, seen: set<Name>)
    ensures Explored(g, hits, open, seen, seen)
  {
  }

  lemma ExploredOpens(g: Graph, hits: iset<Name>, owner: Name, seen: set<Name>)
    ensures Explored(g, hits, {owner}, seen, seen + {owner})
  {
  }

  lemma NoSuccessors(t: Table, owner: Name)
    requires owner !in t
    ensures Succ(ParentGraph(t), owner) == {}
  {
  }

  lemma ExploredGrows(g: Graph, hits: iset<Name>, open: set<Name>, before: set<Name>, mid: set<Name>, after: set<Name>)
    requires Explored(g, hits, open, before, mid) && Explored(g, hits, {}, mid, after)
    ensures Explored(g, hits, open, before, after)
  {
  }

  lemma ExploredCloses(g: Graph, hits: iset<Name>, owner: Name, before: set<Name>, after: set<Name>)
    requires Explored(g, hits, {owner}, before, after) && owner !in hits && Succ(g, owner) <= after
    ensures Explored(g, hits, {}, before, after)
  {
  }

  ghost function Names(s: seq<Name>): set<Name> {
    set n | n in s
  }

  ghost function ParentGraph(t: Table): Graph {
    map n | n in t :: Names(SuperFirst(t[n]))
  }

  ghost function MethodGraph(t: Table): Graph {
    map n | n in t :: Names(MethodParents(t[n]))
  }

  /** The edges a body is inherited along: a class that declares the signature hides its ancestors. */
  ghost function BodyGraph(t: Table, signature: Signature): Graph {
    map n | n in t && signature !in t[n].members :: Names(SuperFirst(t[n]))
  }

  ghost function Declarers(t: Table, signature: Signature): iset<Name> {
    iset n | Lookup(t, n, signature).Some?
  }

  /** Every name a search may visit. */
  ghost predicate Bounds(t: Table, names: set<Name>) {
    forall n :: n in t ==> Names(MethodParents(t[n])) <= names
  }

  ghost function AllNames(t: Table, owner: Name): (names: set<Name>)
    ensures Bounds(t, names) && owner in names
  {
    var parents := set n, p | n in t && p in Names(MethodParents(t[n])) :: p;
    parents + {owner}
  }

  // --------------------------------------------------- searches without a visited set

  /** Every parent ranks below its child. */
  ghost predicate Ranked(t: Table, rank: Name -> nat) {
    forall n, p :: n in t && p in Names(SuperFirst(t[n])) ==> rank(p) < rank(n)
  }

  /** No class is an ancestor of itself. */
  ghost predicate Acyclic(t: Table) {
    forall path: seq<Name> :: Walk(ParentGraph(t), path) && |path| > 1 ==> path[0] != path[|path| - 1]
  }

  ghost function ParentNames(t: Table): set<Name> {
    t.Keys + set n, p | n in t && p in Names(SuperFirst(t[n])) :: p
  }

  ghost function Ancestors(t: Table, a: Name): set<Name> {
    set b | b in ParentNames(t) && Reaches(ParentGraph(t), a, b)
  }

  lemma {:induction false} RanksFall(t: Table, rank: Name -> nat, path: seq<Name>)
    requires Ranked(t, rank) && Walk(ParentGraph(t), path) && |path| > 1
    ensures rank(path[|path| - 1]) < rank(path[0])
    decreases |path|
  {
    hide SuperFirst;
    assert path[0 + 1] in Succ(ParentGraph(t), path[0]);
    if |path| > 2 {
      var rest := path[1..];
      forall i | 0 <= i < |rest| - 1
        ensures rest[i + 1] in Succ(ParentGraph(t), rest[i])
      {
        assert path[i + 1 + 1] in Succ(ParentGraph(t), path[i + 1]);
      }
      RanksFall(t, rank, rest);
    }
  }

  /** Above an acyclic class there are strictly fewer ancestors. */
  lemma FewerAncestors(t: Table, n: Name, p: Name)
    requires Acyclic(t) && n in t && p in Succ(ParentGraph(t), n)
    ensures |Ancestors(t, p)| < |Ancestors(t, n)|
  {
    hide Reaches, SuperFirst;
    var g := ParentGraph(t);
    forall b | b in Ancestors(t, p)
      ensures b in Ancestors(t, n)
    {
      ReachesVia(g, n, p, b);
    }
    ReachesItself(g, n);
    NotBack(t, n, p);
    var above, below := Ancestors(t, p), Ancestors(t, n);
    assert below == above + (below - above) && n in below - above;
  }

  lemma NotBack(t: Table, n: Name, p: Name)
    requires Acyclic(t) && p in Succ(ParentGraph(t), n)
    ensures !Reaches(ParentGraph(t), p, n)
  {
    hide SuperFirst;
    var g := ParentGraph(t);
    forall path: seq<Name> | Walk(g, path) && path[0] == p
      ensures path[|path| - 1] != n
    {
      var round := [n] + path;
      forall i | 0 <= i < |round| - 1
        ensures round[i + 1] in Succ(g, round[i])
      {
        assert i > 0 ==> path[i - 1 + 1] in Succ(g, path[i - 1]);
      }
      assert Walk(g, round) && round[0] == n && round[|round| - 1] == path[|path| - 1];
    }
  }

  lemma AncestorsRank(t: Table, rank: Name -> nat)
    requires Acyclic(t) && forall n :: rank(n) == |Ancestors(t, n)|
    ensures Ranked(t, rank)
  {
    hide SuperFirst;
    forall n, p | n in t && p in Names(SuperFirst(t[n]))
      ensures rank(p) < rank(n)
    {
      FewerAncestors(t, n, p);
    }
  }

  /** A table has a rank exactly when no class is an ancestor of itself. */
  lemma RankedIffAcyclic(t: Table)
    ensures (exists rank: Name -> nat :: Ranked(t, rank)) <==> Acyclic(t)
  {
    hide SuperFirst;
    if rank: Name -> nat :| Ranked(t, rank) {
      forall path: seq<Name> | Walk(ParentGraph(t), path) && |path| > 1
        ensures path[0] != path[|path| - 1]
      {
        RanksFall(t, rank, path);
      }
    }
    if Acyclic(t) {
      AncestorsRank(t, (n: Name) => |Ancestors(t, n)|);
    }
  }

  ghost function PlainResolve(t: Table, rank: Name -> nat, owner: Name, signature: Signature, field: bool): Option<(Name, bv16)>
    requires Ranked(t, rank)
    decreases rank(owner), 1, 0
  {
    if owner !in t then None
    else if signature in t[owner].members then Some((owner, t[owner].members[signature]))
    else PlainResolveAny(t, rank, owner, Parents(t[owner], field), signature, field)
  }

  function Parents(info: ClassInfo, field: bool): (r: seq<Name>)
  {
    if field then InterfacesFirst(info) else SuperFirst(info)
  }

  ghost function PlainResolveAny(t: Table, rank: Name -> nat, child: Name, parents: seq<Name>, signature: Signature, field: bool): Option<(Name, bv16)>
    requires Ranked(t, rank) && forall p :: p in parents ==> rank(p) < rank(child)
    decreases rank(child), 0, |parents|
  {
    if |parents| == 0 then None
    else
      var found := PlainResolve(t, rank, parents[0], signature, field);
      if found.Some? then found else PlainResolveAny(t, rank, child, parents[1..], signature, field)
  }

  /** Nothing visited can answer a search from `owner`, except names that rank above it. */
  ghost predicate Fruitless(t: Table, rank: Name -> nat, above: nat, signature: Signature, field: bool, seen: set<Name>) {
    Ranked(t, rank) ==> forall x :: x in seen ==> rank(x) > above || PlainResolve(t, rank, x, signature, field).None?
  }

  /** What a search that found nothing added cannot answer either. */
  ghost predicate Barren(t: Table, rank: Name -> nat, signature: Signature, field: bool, open: set<Name>, before: set<Name>, after: set<Name>) {
    Ranked(t, rank) ==>
      forall x :: x in after && x !in before && x !in open ==> PlainResolve(t, rank, x, signature, field).None?
  }

  lemma FruitlessBelow(t: Table, rank: Name -> nat, owner: Name, parent: Name, signature: Signature, field: bool, before: set<Name>, mid: set<Name>)
    requires Fruitless(t, rank, rank(owner), signature, field, before)
    requires Barren(t, rank, signature, field, {owner}, before, mid)
    requires Ranked(t, rank) ==> rank(parent) < rank(owner)
    ensures Fruitless(t, rank, rank(parent), signature, field, mid)
  {
  }

  lemma BarrenGrows(t: Table, rank: Name -> nat, signature: Signature, field: bool, open: set<Name>, before: set<Name>, mid: set<Name>, after: set<Name>)
    requires Barren(t, rank, signature, field, open, before, mid) && Barren(t, rank, signature, field, {}, mid, after)
    ensures Barren(t, rank, signature, field, open, before, after)
  {
  }

  lemma BarrenCloses(t: Table, rank: Name -> nat, owner: Name, signature: Signature, field: bool, before: set<Name>, after: set<Name>)
    requires Barren(t, rank, signature, field, {owner}, before, after)
    requires Ranked(t, rank) ==> PlainResolve(t, rank, owner, signature, field).None?
    ensures Barren(t, rank, signature, field, {}, before, after)
  {
  }

  /** The search from `owner` has come down to its parents from `i` on. */
  ghost predicate Remaining(t: Table, rank: Name -> nat, owner: Name, signature: Signature, field: bool, i: nat) {
    && owner in t && i <= |Parents(t[owner], field)|
    && (Ranked(t, rank) ==>
          && (forall p :: p in Parents(t[owner], field)[i..] ==> rank(p) < rank(owner))
          && PlainResolve(t, rank, owner, signature, field)
             == PlainResolveAny(t, rank, owner, Parents(t[owner], field)[i..], signature, field))
  }

  lemma RemainingStarts(t: Table, rank: Name -> nat, owner: Name, signature: Signature, field: bool)
    requires owner in t && signature !in t[owner].members
    ensures Remaining(t, rank, owner, signature, field, 0)
  {
    assert Parents(t[owner], field)[0..] == Parents(t[owner], field);
    assert forall p :: p in Parents(t[owner], field) ==> p in Names(SuperFirst(t[owner]));
  }

  lemma RemainingMoves(t: Table, rank: Name -> nat, owner: Name, signature: Signature, field: bool, i: nat)
    requires Remaining(t, rank, owner, signature, field, i) && i < |Parents(t[owner], field)|
    ensures var p := Parents(t[owner], field)[i];
            && p in Succ(ParentGraph(t), owner) && p in Names(MethodParents(t[owner]))
            && (Ranked(t, rank) ==>
                  && rank(p) < rank(owner)
                  && (PlainResolve(t, rank, p, signature, field).None? ==> Remaining(t, rank, owner, signature, field, i + 1))
                  && (PlainResolve(t, rank, p, signature, field).Some? ==>
                        PlainResolve(t, rank, owner, signature, field) == PlainResolve(t, rank, p, signature, field)))
            && (!Ranked(t, rank) ==> Remaining(t, rank, owner, signature, field, i + 1))
  {
    var parents := Parents(t[owner], field);
    assert parents[i] in SuperFirst(t[owner]) && parents[i] in MethodParents(t[owner]);
    assert parents[i..][0] == parents[i] && parents[i..][1..] == parents[i + 1..];
  }

  lemma RemainingEnds(t: Table, rank: Name -> nat, owner: Name, signature: Signature, field: bool)
    requires owner in t && Remaining(t, rank, owner, signature, field, |Parents(t[owner], field)|)
    ensures Ranked(t, rank) ==> PlainResolve(t, rank, owner, signature, field).None?
  {
  }

  lemma ParentsAreSuccessors(t: Table, owner: Name, field: bool)
    requires owner in t
    ensures Names(Parents(t[owner], field)) == Succ(ParentGraph(t), owner)
  {
  }

  lemma ParentIsSuccessor(t: Table, owner: Name, p: Name)
    requires owner in t && (p in SuperFirst(t[owner]) || p in InterfacesFirst(t[owner]))
    ensures p in Succ(ParentGraph(t), owner) && p in Names(MethodParents(t[owner]))
  {
    assert p in SuperFirst(t[owner]);
  }

  lemma NoMethodSuccessors(t: Table, owner: Name)
    requires owner !in t
    ensures Succ(MethodGraph(t), owner) == {}
  {
  }

  lemma MethodSuccessors(t: Table, owner: Name)
    requires owner in t
    ensures Succ(MethodGraph(t), owner) == Names(MethodParents(t[owner]))
  {
  }

  lemma NoBodySuccessors(t: Table, owner: Name, signature: Signature)
    requires owner !in t || signature in t[owner].members
    ensures Succ(BodyGraph(t, signature), owner) == {}
  {
  }

  lemma BodySuccessors(t: Table, owner: Name, signature: Signature)
    requires owner in t && signature !in t[owner].members
    ensures Succ(BodyGraph(t, signature), owner) == Names(SuperFirst(t[owner]))
  {
  }

  lemma ThreeValued(r: Option<bool>)
    ensures r == None || r == Some(true) || r == Some(false)
  {
    if r.Some? {
      assert r == Some(r.value) && (r.value == true || r.value == false);
    }
  }

  // -------------------------------------------------------------------- the world

  /** The set Python's recursive calls share by reference. */
  class Seen {
    var names: set<Name>

    constructor ()
      ensures names == {}
    {
      names := {};
    }
  }

  class World {
    const classes: Table
    /** Members of the JDK classes this tool does not model. */
    const fromJdk: map<Name, set<Signature>>

    /** Earlier layers win. */
    constructor (layers: seq<Table>, fromJdk: map<Name, set<Signature>>)
      ensures this.fromJdk == fromJdk
      ensures forall n :: n in classes <==> exists i :: 0 <= i < |layers| && n in layers[i]
      ensures forall i, n :: 0 <= i < |layers| && n in layers[i] && (forall j :: 0 <= j < i ==> n !in layers[j]) ==>
                n in classes && classes[n] == layers[i][n]
    {
      var merged: Table := map[];
      for k := 0 to |layers|
        invariant forall n :: n in merged <==> exists i :: 0 <= i < k && n in layers[i]
        invariant forall i, n :: 0 <= i < k && n in layers[i] && (forall j :: 0 <= j < i ==> n !in layers[j]) ==>
                    n in merged && merged[n] == layers[i][n]
      {
        merged := layers[k] + merged;
      }
      this.classes := merged;
      this.fromJdk := fromJdk;
    }

    /** The declaring type and flags: found exactly when a declaration is reachable. */
    method Resolve(owner: Name, signature: Signature, field: bool, ghost rank: Name -> nat) returns (r: Option<(Name, bv16)>)
      ensures r.Some? ==> Reaches(ParentGraph(classes), owner, r.value.0) && Lookup(classes, r.value.0, signature) == Some(r.value.1)
      ensures r.None? ==> forall d :: d in Declarers(classes, signature) ==> !Reaches(ParentGraph(classes), owner, d)
      ensures Ranked(classes, rank) ==> r == PlainResolve(classes, rank, owner, signature, field)
    {
      var seen := new Seen();
      r := ResolveIn(owner, signature, field, seen, AllNames(classes, owner), rank);
      if r.None? {
        ExploredFromNothing(ParentGraph(classes), Declarers(classes, signature), seen.names, owner);
      }
    }

    method ResolveIn(owner: Name, signature: Signature, field: bool, seen: Seen, ghost names: set<Name>, ghost rank: Name -> nat)
      returns (r: Option<(Name, bv16)>)
      requires Bounds(classes, names) && owner in names
      requires Fruitless(classes, rank, rank(owner), signature, field, seen.names)
      modifies seen
      ensures old(seen.names) <= seen.names && owner in seen.names
      ensures r.Some? ==> Reaches(ParentGraph(classes), owner, r.value.0) && Lookup(classes, r.value.0, signature) == Some(r.value.1)
      ensures r.None? ==> Explored(ParentGraph(classes), Declarers(classes, signature), {}, old(seen.names), seen.names)
      ensures Ranked(classes, rank) ==> r == PlainResolve(classes, rank, owner, signature, field)
      ensures r.None? ==> Barren(classes, rank, signature, field, {}, old(seen.names), seen.names)
      decreases names - seen.names
    {
      hide Reaches, Ranked, Parents, ParentGraph, Succ, Explored, Remaining, SuperFirst, MethodParents;
      if owner in seen.names {
        ExploredNothing(ParentGraph(classes), Declarers(classes, signature), {}, seen.names);
        return None;
      }
      ghost var before := seen.names;
      ghost var g, hits := ParentGraph(classes), Declarers(classes, signature);
      seen.names := seen.names + {owner};
      ReachesItself(g, owner);
      ExploredNothing(g, hits, {owner}, before);
      ExploredOpens(g, hits, owner, before);
      if owner !in classes {
        NoSuccessors(classes, owner);
        ExploredCloses(g, hits, owner, before, seen.names);
        return None;
      }
      var info := classes[owner];
      if signature in info.members {
        return Some((owner, info.members[signature]));
      }
      RemainingStarts(classes, rank, owner, signature, field);
      var parents := Parents(info, field);
      for i := 0 to |parents|
        invariant before + {owner} <= seen.names
        invariant forall j :: 0 <= j < i ==> parents[j] in seen.names
        invariant Explored(g, hits, {owner}, before, seen.names)
        invariant Remaining(classes, rank, owner, signature, field, i)
        invariant Barren(classes, rank, signature, field, {owner}, before, seen.names)
      {
        RemainingMoves(classes, rank, owner, signature, field, i);
        ghost var mid := seen.names;
        FruitlessBelow(classes, rank, owner, parents[i], signature, field, before, mid);
        var found := ResolveIn(parents[i], signature, field, seen, names, rank);
        if found.Some? {
          ReachesVia(g, owner, parents[i], found.value.0);
          return found;
        }
        ExploredGrows(g, hits, {owner}, before, mid, seen.names);
        BarrenGrows(classes, rank, signature, field, {owner}, before, mid, seen.names);
      }
      RemainingEnds(classes, rank, owner, signature, field);
      BarrenCloses(classes, rank, owner, signature, field, before, seen.names);
      ParentsAreSuccessors(classes, owner, field);
      ExploredCloses(g, hits, owner, before, seen.names);
      r := None;
    }

    /** Reflexive and transitive, on cyclic tables too. */
    method IsSubclass(name: Name, ancestor: Name) returns (r: bool)
      ensures r <==> Reaches(ParentGraph(classes), name, ancestor)
    {
      var seen := new Seen();
      r := IsSubclassIn(name, ancestor, seen, AllNames(classes, name));
      if !r {
        ExploredFromNothing(ParentGraph(classes), iset{ancestor}, seen.names, name);
      }
    }

    method IsSubclassIn(name: Name, ancestor: Name, seen: Seen, ghost names: set<Name>) returns (r: bool)
      requires Bounds(classes, names) && name in names
      modifies seen
      ensures old(seen.names) <= seen.names
      ensures r ==> Reaches(ParentGraph(classes), name, ancestor)
      ensures !r ==> name in seen.names && Explored(ParentGraph(classes), iset{ancestor}, {}, old(seen.names), seen.names)
      decreases names - seen.names
    {
      hide Reaches, ParentGraph, Succ, Explored, SuperFirst, MethodParents;
      ghost var before := seen.names;
      ghost var g, hits := ParentGraph(classes), iset{ancestor};
      ReachesItself(g, name);
      ExploredNothing(g, hits, {}, before);
      if name == ancestor {
        return true;
      }
      if name in seen.names {
        return false;
      }
      seen.names := seen.names + {name};
      ExploredOpens(g, hits, name, before);
      if name !in classes {
        NoSuccessors(classes, name);
        ExploredCloses(g, hits, name, before, seen.names);
        return false;
      }
      var parents := SuperFirst(classes[name]);
      for i := 0 to |parents|
        invariant before + {name} <= seen.names
        invariant forall j :: 0 <= j < i ==> parents[j] in seen.names
        invariant Explored(g, hits, {name}, before, seen.names)
      {
        ParentIsSuccessor(classes, name, parents[i]);
        ghost var mid := seen.names;
        var found := IsSubclassIn(parents[i], ancestor, seen, names);
        if found {
          ReachesVia(g, name, parents[i], ancestor);
          return true;
        }
        ExploredGrows(g, hits, {name}, before, mid, seen.names);
      }
      ParentsAreSuccessors(classes, name, false);
      ExploredCloses(g, hits, name, before, seen.names);
      r := false;
    }

    /** A field is there exactly when a reachable class declares it. */
    method Field(owner: Name, signature: Signature) returns (r: bool)
      ensures r <==> exists d :: d in Declarers(classes, signature) && Reaches(ParentGraph(classes), owner, d)
    {
      var seen := new Seen();
      r := FieldIn(owner, signature, seen, AllNames(classes, owner));
      if !r {
        ExploredFromNothing(ParentGraph(classes), Declarers(classes, signature), seen.names, owner);
      }
    }

    method FieldIn(owner: Name, signature: Signature, seen: Seen, ghost names: set<Name>) returns (r: bool)
      requires Bounds(classes, names) && owner in names
      modifies seen
      ensures old(seen.names) <= seen.names && owner in seen.names
      ensures r ==> exists d :: d in Declarers(classes, signature) && Reaches(ParentGraph(classes), owner, d)
      ensures !r ==> Explored(ParentGraph(classes), Declarers(classes, signature), {}, old(seen.names), seen.names)
      decreases names - seen.names
    {
      hide Reaches, ParentGraph, Succ, Explored, InterfacesFirst, MethodParents;
      ghost var before := seen.names;
      ghost var g, hits := ParentGraph(classes), Declarers(classes, signature);
      ExploredNothing(g, hits, {}, before);
      if owner in seen.names {
        return false;
      }
      seen.names := seen.names + {owner};
      ReachesItself(g, owner);
      ExploredOpens(g, hits, owner, before);
      if owner !in classes {
        NoSuccessors(classes, owner);
        ExploredCloses(g, hits, owner, before, seen.names);
        return false;
      }
      if signature in classes[owner].members {
        assert owner in hits;
        return true;
      }
      var parents := InterfacesFirst(classes[owner]);
      ParentsAreSuccessors(classes, owner, true);
      for i := 0 to |parents|
        invariant before + {owner} <= seen.names
        invariant forall j :: 0 <= j < i ==> parents[j] in seen.names
        invariant Explored(g, hits, {owner}, before, seen.names)
      {
        ParentIsSuccessor(classes, owner, parents[i]);
        ghost var mid := seen.names;
        var found := FieldIn(parents[i], signature, seen, names);
        if found {
          ghost var d :| d in hits && Reaches(g, parents[i], d);
          ReachesVia(g, owner, parents[i], d);
          return true;
        }
        ExploredGrows(g, hits, {owner}, before, mid, seen.names);
      }
      ExploredCloses(g, hits, owner, before, seen.names);
      r := false;
    }

    function JdkHas(name: Name, signature: Signature): Option<bool> {
      if name in fromJdk then Some(signature in fromJdk[name]) else None
    }

    /** What the class itself answers: an unmodelled JDK class cannot say. */
    function Answer(name: Name, signature: Signature): Option<bool> {
      if name in classes then Some(signature in classes[name].members)
      else if "java/" <= name then JdkHas(name, signature)
      else Some(false)
    }

    ghost function Answering(signature: Signature, answer: Option<bool>): iset<Name> {
      iset n | Answer(n, signature) == answer
    }

    /** True when a reachable class has it, else unknown when a reachable one cannot say, else false. */
    method Method(owner: Name, signature: Signature) returns (r: Option<bool>)
      ensures r == Some(true) <==> exists d :: d in Answering(signature, Some(true)) && Reaches(MethodGraph(classes), owner, d)
      ensures r == None <==>
                && (forall d :: d in Answering(signature, Some(true)) ==> !Reaches(MethodGraph(classes), owner, d))
                && exists d :: d in Answering(signature, None) && Reaches(MethodGraph(classes), owner, d)
    {
      var seen := new Seen();
      r := MethodIn(owner, signature, seen, AllNames(classes, owner));
      ThreeValued(r);
      if r != Some(true) {
        ExploredFromNothing(MethodGraph(classes), Answering(signature, Some(true)), seen.names, owner);
      }
      if r == Some(false) {
        ExploredFromNothing(MethodGraph(classes), Answering(signature, None), seen.names, owner);
      }
    }

    method MethodIn(owner: Name, signature: Signature, seen: Seen, ghost names: set<Name>) returns (r: Option<bool>)
      requires Bounds(classes, names) && owner in names
      modifies seen
      ensures old(seen.names) <= seen.names && owner in seen.names
      ensures r == Some(true) ==> exists d :: d in Answering(signature, Some(true)) && Reaches(MethodGraph(classes), owner, d)
      ensures r == None ==> exists d :: d in Answering(signature, None) && Reaches(MethodGraph(classes), owner, d)
      ensures r != Some(true) ==> Explored(MethodGraph(classes), Answering(signature, Some(true)), {}, old(seen.names), seen.names)
      ensures r == Some(false) ==> Explored(MethodGraph(classes), Answering(signature, None), {}, old(seen.names), seen.names)
      decreases names - seen.names
    {
      hide Reaches, MethodGraph, Succ, Explored, MethodParents;
      ghost var before := seen.names;
      ghost var g, yes, unknown := MethodGraph(classes), Answering(signature, Some(true)), Answering(signature, None);
      ExploredNothing(g, yes, {}, before);
      ExploredNothing(g, unknown, {}, before);
      if owner in seen.names {
        return Some(false);
      }
      seen.names := seen.names + {owner};
      ReachesItself(g, owner);
      ExploredOpens(g, yes, owner, before);
      ExploredOpens(g, unknown, owner, before);
      r := Answer(owner, signature);
      assert r == Some(true) ==> owner in yes;
      assert r == None ==> owner in unknown;
      if owner !in classes {
        NoMethodSuccessors(classes, owner);
        if r != Some(true) {
          ExploredCloses(g, yes, owner, before, seen.names);
        }
        if r == Some(false) {
          ExploredCloses(g, unknown, owner, before, seen.names);
        }
        return;
      }
      if r == Some(true) {
        return;
      }
      var parents := MethodParents(classes[owner]);
      MethodSuccessors(classes, owner);
      for i := 0 to |parents|
        invariant before + {owner} <= seen.names
        invariant forall j :: 0 <= j < i ==> parents[j] in seen.names
        invariant r == Some(false) || (r == None && exists d :: d in unknown && Reaches(g, owner, d))
        invariant Explored(g, yes, {owner}, before, seen.names)
        invariant r == Some(false) ==> Explored(g, unknown, {owner}, before, seen.names)
      {
        assert parents[i] in Succ(g, owner) && parents[i] in names;
        ghost var mid := seen.names;
        var found := MethodIn(parents[i], signature, seen, names);
        if found == Some(true) {
          ghost var d :| d in yes && Reaches(g, parents[i], d);
          ReachesVia(g, owner, parents[i], d);
          return found;
        }
        ExploredGrows(g, yes, {owner}, before, mid, seen.names);
        if found == None {
          ghost var d :| d in unknown && Reaches(g, parents[i], d);
          ReachesVia(g, owner, parents[i], d);
          r := None;
        } else if r == Some(false) {
          ThreeValued(found);
          ExploredGrows(g, unknown, {owner}, before, mid, seen.names);
        }
      }
      ExploredCloses(g, yes, owner, before, seen.names);
      if r == Some(false) {
        ExploredCloses(g, unknown, owner, before, seen.names);
      }
    }

    ghost function Bodies(signature: Signature): iset<Name> {
      iset n | SuppliesBody(classes, fromJdk, n, signature)
    }

    /** A body is supplied exactly when one is reachable without passing a redeclaration. */
    method Concrete(name: Name, signature: Signature) returns (r: bool)
      ensures r <==> exists d :: d in Bodies(signature) && Reaches(BodyGraph(classes, signature), name, d)
    {
      var seen := new Seen();
      r := ConcreteIn(name, signature, seen, AllNames(classes, name));
      if !r {
        ExploredFromNothing(BodyGraph(classes, signature), Bodies(signature), seen.names, name);
      }
    }

    method ConcreteIn(name: Name, signature: Signature, seen: Seen, ghost names: set<Name>) returns (r: bool)
      requires Bounds(classes, names) && name in names
      modifies seen
      ensures old(seen.names) <= seen.names && name in seen.names
      ensures r ==> exists d :: d in Bodies(signature) && Reaches(BodyGraph(classes, signature), name, d)
      ensures !r ==> Explored(BodyGraph(classes, signature), Bodies(signature), {}, old(seen.names), seen.names)
      decreases names - seen.names
    {
      hide Reaches, BodyGraph, Succ, Explored, SuperFirst, MethodParents;
      ghost var before := seen.names;
      ghost var g, hits := BodyGraph(classes, signature), Bodies(signature);
      ExploredNothing(g, hits, {}, before);
      if name in seen.names {
        return false;
      }
      seen.names := seen.names + {name};
      ReachesItself(g, name);
      ExploredOpens(g, hits, name, before);
      if name !in classes {
        r := "java/" <= name && JdkHas(name, signature) == Some(true);
      } else if signature in classes[name].members {
        r := Implements(classes[name].members[signature]);
      }
      if name !in classes || signature in classes[name].members {
        assert r <==> name in hits;
        NoBodySuccessors(classes, name, signature);
        if !r {
          ExploredCloses(g, hits, name, before, seen.names);
        }
        return;
      }
      var parents := SuperFirst(classes[name]);
      BodySuccessors(classes, name, signature);
      for i := 0 to |parents|
        invariant before + {name} <= seen.names
        invariant forall j :: 0 <= j < i ==> parents[j] in seen.names
        invariant Explored(g, hits, {name}, before, seen.names)
      {
        ParentIsSuccessor(classes, name, parents[i]);
        assert parents[i] in Succ(g, name);
        ghost var mid := seen.names;
        var found := ConcreteIn(parents[i], signature, seen, names);
        if found {
          ghost var d :| d in hits && Reaches(g, parents[i], d);
          ReachesVia(g, name, parents[i], d);
          return true;
        }
        ExploredGrows(g, hits, {name}, before, mid, seen.names);
      }
      ExploredCloses(g, hits, name, before, seen.names);
      r := false;
    }
  }

  // ---------------------------------------------------------- inherited bodies

  /** An abstract, static or private declaration implements nothing. */
  predicate Implements(access: bv16) {
    access & (ACC_ABSTRACT | ACC_STATIC | ACC_PRIVATE) == 0
  }

  predicate SuppliesBody(t: Table, fromJdk: map<Name, set<Signature>>, name: Name, signature: Signature) {
    if name in t then signature in t[name].members && Implements(t[name].members[signature])
    else "java/" <= name && name in fromJdk && signature in fromJdk[name]
  }

  ghost predicate PlainConcrete(t: Table, fromJdk: map<Name, set<Signature>>, rank: Name -> nat, name: Name, signature: Signature)
    requires Ranked(t, rank)
    decreases rank(name)
  {
    if name !in t || signature in t[name].members then SuppliesBody(t, fromJdk, name, signature)
    else exists p :: p in Names(SuperFirst(t[name])) && PlainConcrete(t, fromJdk, rank, p, signature)
  }

  lemma {:induction false} PlainConcreteReaches(t: Table, fromJdk: map<Name, set<Signature>>, rank: Name -> nat, name: Name, signature: Signature) returns (d: Name)
    requires Ranked(t, rank) && PlainConcrete(t, fromJdk, rank, name, signature)
    ensures SuppliesBody(t, fromJdk, d, signature) && Reaches(BodyGraph(t, signature), name, d)
    decreases rank(name)
  {
    if name !in t || signature in t[name].members {
      d := name;
      ReachesItself(BodyGraph(t, signature), name);
    } else {
      var p :| p in Names(SuperFirst(t[name])) && PlainConcrete(t, fromJdk, rank, p, signature);
      d := PlainConcreteReaches(t, fromJdk, rank, p, signature);
      ReachesVia(BodyGraph(t, signature), name, p, d);
    }
  }

  lemma {:induction false} WalkIsPlainConcrete(t: Table, fromJdk: map<Name, set<Signature>>, rank: Name -> nat, path: seq<Name>, signature: Signature)
    requires Ranked(t, rank) && Walk(BodyGraph(t, signature), path)
    requires SuppliesBody(t, fromJdk, path[|path| - 1], signature)
    ensures PlainConcrete(t, fromJdk, rank, path[0], signature)
    decreases |path|
  {
    if |path| > 1 {
      var rest := path[1..];
      assert path[0 + 1] in Succ(BodyGraph(t, signature), path[0]);
      forall i | 0 <= i < |rest| - 1
        ensures rest[i + 1] in Succ(BodyGraph(t, signature), rest[i])
      {
        assert path[i + 1 + 1] in Succ(BodyGraph(t, signature), path[i + 1]);
      }
      WalkIsPlainConcrete(t, fromJdk, rank, rest, signature);
    }
  }

  /** On an acyclic table, `concrete` answers what the search without a visited set answers. */
  lemma ConcreteIsPlain(t: Table, fromJdk: map<Name, set<Signature>>, rank: Name -> nat, name: Name, signature: Signature)
    requires Ranked(t, rank)
    ensures PlainConcrete(t, fromJdk, rank, name, signature)
            <==> exists d :: SuppliesBody(t, fromJdk, d, signature) && Reaches(BodyGraph(t, signature), name, d)
  {
    if PlainConcrete(t, fromJdk, rank, name, signature) {
      var d := PlainConcreteReaches(t, fromJdk, rank, name, signature);
    }
    if d :| SuppliesBody(t, fromJdk, d, signature) && Reaches(BodyGraph(t, signature), name, d) {
      var path :| Walk(BodyGraph(t, signature), path) && path[0] == name && path[|path| - 1] == d;
      WalkIsPlainConcrete(t, fromJdk, rank, path, signature);
    }
  }

  // ---------------------------------------------------- what counts as a parent or a body

  /** Only a named superclass and named interfaces are parents; for methods an interface also has Object. */
  lemma EdgesExactly(t: Table, n: Name, p: Name)
    requires n in t
    ensures p in Succ(ParentGraph(t), n) <==> p != "" && (t[n].super == Some(p) || p in t[n].interfaces)
    ensures p in Succ(MethodGraph(t), n) <==>
              || (t[n].super == Some(p) && p != "") || p in t[n].interfaces
              || (t[n].isInterface && p == "java/lang/Object")
    ensures forall signature :: p in Succ(BodyGraph(t, signature), n) <==>
              signature !in t[n].members && p != "" && (t[n].super == Some(p) || p in t[n].interfaces)
  {
  }

  /** A body is supplied by a declaration that is neither abstract nor static nor private, or by a known JDK method. */
  lemma BodyExactly(t: Table, fromJdk: map<Name, set<Signature>>, n: Name, signature: Signature)
    ensures n in t ==>
              (SuppliesBody(t, fromJdk, n, signature) <==>
                 signature in t[n].members
                 && var flags := t[n].members[signature];
                 flags & 0x0400 == 0 && flags & 0x0008 == 0 && flags & 0x0002 == 0)
    ensures n !in t ==>
              (SuppliesBody(t, fromJdk, n, signature) <==> "java/" <= n && n in fromJdk && signature in fromJdk[n])
  {
    if n in t && signature in t[n].members {
      FlagsExactly(t[n].members[signature]);
    }
  }

  lemma FlagsExactly(flags: bv16)
    ensures Implements(flags) <==> flags & 0x0400 == 0 && flags & 0x0008 == 0 && flags & 0x0002 == 0
  {
  }

  /** What one class answers for a method: yes or no when it is known, and unknown only for an unmodelled JDK class. */
  lemma AnswerExactly(world: World, n: Name, signature: Signature)
    ensures world.Answer(n, signature) == Some(true) <==>
              if n in world.classes then signature in world.classes[n].members
              else "java/" <= n && n in world.fromJdk && signature in world.fromJdk[n]
    ensures world.Answer(n, signature) == None <==> n !in world.classes && "java/" <= n && n !in world.fromJdk
  {
  }

  /** So a method of Object is found on every interface, which does not name it as a parent. */
  lemma InterfacesReachObject(t: Table, n: Name)
    requires n in t && t[n].isInterface
    ensures Reaches(MethodGraph(t), n, "java/lang/Object")
  {
    hide Reaches, MethodParents;
    EdgesExactly(t, n, "java/lang/Object");
    ReachesItself(MethodGraph(t), "java/lang/Object");
    ReachesVia(MethodGraph(t), n, "java/lang/Object", "java/lang/Object");
  }

  /** Of a superclass and an interface that both declare it, a method is the superclass's and a field the interface's. */
  lemma FirstParentWins(t: Table, rank: Name -> nat, c: Name, s: Name, i: Name, signature: Signature)
    requires Ranked(t, rank) && c in t && s in t && i in t && s != "" && i != ""
    requires t[c].super == Some(s) && t[c].interfaces == [i] && signature !in t[c].members
    requires signature in t[s].members && signature in t[i].members
    ensures PlainResolve(t, rank, c, signature, false) == Some((s, t[s].members[signature]))
    ensures PlainResolve(t, rank, c, signature, true) == Some((i, t[i].members[signature]))
  {
    assert [i][1..] == [] && NonEmpty([i]) == [i];
    assert SuperFirst(t[c]) == [s, i] && InterfacesFirst(t[c]) == [i, s];
    assert s in Names(SuperFirst(t[c])) && i in Names(SuperFirst(t[c]));
    FirstFound(t, rank, c, s, [i], signature, false);
    FirstFound(t, rank, c, i, [s], signature, true);
    assert [s] + [i] == [s, i] && [i] + [s] == [i, s];
  }

  lemma FirstFound(t: Table, rank: Name -> nat, child: Name, first: Name, others: seq<Name>, signature: Signature, field: bool)
    requires Ranked(t, rank) && first in t && signature in t[first].members
    requires rank(first) < rank(child) && forall p :: p in others ==> rank(p) < rank(child)
    ensures PlainResolveAny(t, rank, child, [first] + others, signature, field) == Some((first, t[first].members[signature]))
  {
    assert PlainResolve(t, rank, first, signature, field) == Some((first, t[first].members[signature]));
  }
}
