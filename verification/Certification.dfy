/**
 Which plugin artifacts dev/plugin_compat.py certifies: those that pass their own checks and whose
 required dependencies are certified, starting from the leaves.
 */
module Certification {
  import opened Wrappers

  type Identity = string

  datatype Dependency = Dependency(artifact: Identity, required: bool)

  /** A manifest row with the outcome of its own checks. */
  datatype Artifact = Artifact(id: Identity, dependencies: seq<Dependency>, passes: bool)

  datatype ManifestError = DuplicateIdentity | MissingDependency

  type Manifest = seq<Artifact>

  predicate UniqueIdentities(rows: Manifest) {
    forall i, j :: 0 <= i < j < |rows| ==> rows[i].id != rows[j].id
  }

  predicate KnownDependencies(rows: Manifest) {
    forall i, d :: 0 <= i < |rows| && d in rows[i].dependencies ==> d.artifact in Identities(rows)
  }

  function Identities(rows: Manifest): set<Identity> {
    set i | 0 <= i < |rows| :: rows[i].id
  }

  // ------------------------------------------------------- what certification means

  ghost predicate Requires(rows: Manifest, a: Identity, b: Identity) {
    exists i :: 0 <= i < |rows| && rows[i].id == a && Dependency(b, true) in rows[i].dependencies
  }

  ghost predicate Passes(rows: Manifest, a: Identity) {
    exists i :: 0 <= i < |rows| && rows[i].id == a && rows[i].passes
  }

  /** A chain of required dependencies. */
  ghost predicate Chain(rows: Manifest, p: seq<Identity>) {
    |p| > 0 && forall i :: 0 <= i < |p| - 1 ==> Requires(rows, p[i], p[i + 1])
  }

  ghost predicate ChainFrom(rows: Manifest, a: Identity, p: seq<Identity>) {
    Chain(rows, p) && p[0] == a
  }

  /**
   Everything the artifact needs, itself included, passes, and none of it needs itself: no chain
   from it comes back to where it has been.
   */
  ghost predicate Deserving(rows: Manifest, a: Identity) {
    && (forall p :: ChainFrom(rows, a, p) ==> Passes(rows, p[|p| - 1]))
    && (forall p, i :: ChainFrom(rows, a, p) && 0 <= i < |p| - 1 ==> p[i] != p[|p| - 1])
  }

  /** The rule by which one row is certified, given those that already are. */
  predicate Earns(row: Artifact, certified: set<Identity>) {
    row.passes && forall d :: d in row.dependencies && d.required ==> d.artifact in certified
  }

  /** The rule certifies none of the first rows any more. */
  ghost predicate SettledTo(rows: Manifest, certified: set<Identity>, k: nat) {
    forall i :: 0 <= i < k && i < |rows| && Earns(rows[i], certified) ==> rows[i].id in certified
  }

  ghost predicate Closed(rows: Manifest, certified: set<Identity>) {
    SettledTo(rows, certified, |rows|)
  }

  /** The order in which artifacts were certified: each after everything it requires. */
  ghost predicate Founded(rows: Manifest, order: seq<Identity>) {
    && (forall i, j :: 0 <= i < j < |order| ==> order[i] != order[j])
    && (forall k :: 0 <= k < |order| ==> EarnedAt(rows, order, k))
  }

  ghost predicate EarnedAt(rows: Manifest, order: seq<Identity>, k: int)
    requires 0 <= k < |order|
  {
    Passes(rows, order[k]) && forall b :: Requires(rows, order[k], b) ==> b in order[..k]
  }

  // --------------------------------------------------------------- the fixed point

  /** The certified set of `certification_report`. */
  method CertifiedSet(rows: Manifest) returns (r: Result<set<Identity>, ManifestError>)
    ensures r.Err? <==> !UniqueIdentities(rows) || !KnownDependencies(rows)
    ensures r.Ok? ==> forall a :: a in r.value <==> Deserving(rows, a)
  {
    hide Deserving, Earns, SettledTo, Progress, Identities;
    if !UniqueIdentities(rows) {
      return Err(DuplicateIdentity);
    }
    if !KnownDependencies(rows) {
      return Err(MissingDependency);
    }
    var certified := {};
    ghost var order: seq<Identity> := [];
    Start(rows);
    var changed := true;
    while changed
      invariant Progress(rows, order, certified)
      invariant changed || Closed(rows, certified)
      decreases |Identities(rows) - certified|, changed
    {
      changed := false;
      ghost var before := certified;
      Unsettled(rows, certified);
      for k := 0 to |rows|
        invariant Progress(rows, order, certified) && before <= certified
        invariant changed <==> certified != before
        invariant !changed ==> SettledTo(rows, certified, k)
      {
        SettleNext(rows, certified, k);
        if rows[k].id !in certified && Earns(rows[k], certified) {
          Advance(rows, order, certified, k);
          certified := certified + {rows[k].id};
          order := order + [rows[k].id];
          changed := true;
        }
      }
      if changed {
        Shrinks(rows, order, before, certified);
      }
    }
    forall a
      ensures a in certified <==> Deserving(rows, a)
    {
      CertifiedIsDeserving(rows, order, certified, a);
    }
    r := Ok(certified);
  }

  /** What the loops keep: the certified identities, in the order they were certified. */
  ghost predicate Progress(rows: Manifest, order: seq<Identity>, certified: set<Identity>) {
    Founded(rows, order) && certified == Members(order) && certified <= Identities(rows)
  }

  lemma Start(rows: Manifest)
    ensures Progress(rows, [], {})
  {
  }

  lemma Unsettled(rows: Manifest, certified: set<Identity>)
    ensures SettledTo(rows, certified, 0)
  {
  }

  lemma SettleNext(rows: Manifest, certified: set<Identity>, k: nat)
    requires k < |rows|
    ensures SettledTo(rows, certified, k) && (Earns(rows[k], certified) ==> rows[k].id in certified) ==> SettledTo(rows, certified, k + 1)
  {
    hide Earns;
  }

  lemma Advance(rows: Manifest, order: seq<Identity>, certified: set<Identity>, k: nat)
    requires UniqueIdentities(rows) && k < |rows| && Progress(rows, order, certified)
    requires rows[k].id !in certified && Earns(rows[k], certified)
    ensures Progress(rows, order + [rows[k].id], certified + {rows[k].id})
  {
    hide Founded, Earns, Members;
    ExtendOrder(rows, order, k);
    MembersOfLonger(order, rows[k].id);
  }

  function Members(order: seq<Identity>): set<Identity> {
    set i | 0 <= i < |order| :: order[i]
  }

  lemma MembersOfLonger(order: seq<Identity>, a: Identity)
    ensures Members(order + [a]) == Members(order) + {a}
  {
    var longer := order + [a];
    forall x
      ensures x in Members(longer) <==> x in Members(order) + {a}
    {
      if x in Members(order) {
        var i :| 0 <= i < |order| && order[i] == x;
        assert longer[i] == x;
      } else if x == a {
        assert longer[|order|] == x;
      }
    }
  }

  lemma Shrinks(rows: Manifest, order: seq<Identity>, before: set<Identity>, after: set<Identity>)
    requires before < after && Progress(rows, order, after)
    ensures |Identities(rows) - after| < |Identities(rows) - before|
  {
    hide Founded, Members, Identities;
    assert before + (after - before) == after;
    var x :| x in after - before;
    var (less, more) := (Identities(rows) - after, Identities(rows) - before);
    assert x in more && x !in less;
    FewerThan(less + {x}, more);
  }

  lemma ExtendOrder(rows: Manifest, order: seq<Identity>, k: nat)
    requires UniqueIdentities(rows) && k < |rows| && Founded(rows, order)
    requires rows[k].id !in Members(order) && Earns(rows[k], Members(order))
    ensures Founded(rows, order + [rows[k].id])
  {
    hide Requires, Passes;
    var longer := order + [rows[k].id];
    forall i | 0 <= i < |longer|
      ensures EarnedAt(rows, longer, i)
    {
      if i < |order| {
        assert longer[..i] == order[..i] && EarnedAt(rows, order, i);
      } else {
        assert longer[..i] == order;
        EarnsItsPlace(rows, k, order);
      }
    }
  }

  lemma EarnsItsPlace(rows: Manifest, k: nat, order: seq<Identity>)
    requires UniqueIdentities(rows) && k < |rows| && Earns(rows[k], Members(order))
    ensures Passes(rows, rows[k].id)
    ensures forall b :: Requires(rows, rows[k].id, b) ==> b in order
  {
    forall b | Requires(rows, rows[k].id, b)
      ensures b in order
    {
      assert Dependency(b, true) in rows[k].dependencies;
      assert b in Members(order);
    }
  }

  // ---------------------------------------------------------- founded means deserving

  /** Along a chain, the place in the order strictly falls. */
  lemma {:induction false} ChainDescends(rows: Manifest, order: seq<Identity>, p: seq<Identity>, k: nat) returns (last: nat)
    requires Founded(rows, order) && Chain(rows, p) && k < |order| && p[0] == order[k]
    ensures last <= k && p[|p| - 1] == order[last]
    ensures |p| > 1 ==> last < k
    decreases |p|
  {
    hide Requires, Passes;
    if |p| == 1 {
      last := k;
    } else {
      assert EarnedAt(rows, order, k) && Requires(rows, p[0], p[1]);
      var next :| 0 <= next < k && order[next] == p[1];
      last := ChainDescends(rows, order, p[1..], next);
    }
  }

  lemma CertifiedDeserves(rows: Manifest, order: seq<Identity>, k: nat)
    requires Founded(rows, order) && k < |order|
    ensures Deserving(rows, order[k])
  {
    hide Requires, Passes;
    forall p | ChainFrom(rows, order[k], p)
      ensures Passes(rows, p[|p| - 1])
    {
      var last := ChainDescends(rows, order, p, k);
      assert EarnedAt(rows, order, last);
    }
    forall p, i | ChainFrom(rows, order[k], p) && 0 <= i < |p| - 1
      ensures p[i] != p[|p| - 1]
    {
      NoReturn(rows, order, p, i, k);
    }
  }

  lemma NoReturn(rows: Manifest, order: seq<Identity>, p: seq<Identity>, i: nat, k: nat)
    requires Founded(rows, order) && Chain(rows, p) && k < |order| && p[0] == order[k] && i < |p| - 1
    ensures p[i] != p[|p| - 1]
  {
    hide Requires, Passes;
    var middle := ChainDescends(rows, order, p[..i + 1], k);
    var last := ChainDescends(rows, order, p[i..], middle);
    assert order[last] != order[middle];
  }

  // ---------------------------------------------------------- deserving means certified

  /** A required dependency of a deserving artifact deserves too. */
  lemma DeservingStep(rows: Manifest, a: Identity, b: Identity)
    requires Deserving(rows, a) && Requires(rows, a, b)
    ensures Deserving(rows, b)
  {
    hide Requires, Passes;
    forall p | ChainFrom(rows, b, p)
      ensures Passes(rows, p[|p| - 1])
    {
      assert ChainFrom(rows, a, [a] + p);
    }
    forall p, i | ChainFrom(rows, b, p) && 0 <= i < |p| - 1
      ensures p[i] != p[|p| - 1]
    {
      assert ChainFrom(rows, a, [a] + p) && ([a] + p)[i + 1] == p[i];
    }
  }

  /** Where the rules no longer apply, an uncertified artifact that passes waits for another. */
  lemma Waits(rows: Manifest, certified: set<Identity>, a: Identity) returns (b: Identity)
    requires KnownDependencies(rows) && Closed(rows, certified) && Passes(rows, a) && a !in certified
    ensures Requires(rows, a, b) && b !in certified && b in Identities(rows)
  {
    var i :| 0 <= i < |rows| && rows[i].id == a && rows[i].passes;
    assert !Earns(rows[i], certified);
    var d :| d in rows[i].dependencies && d.required && d.artifact !in certified;
    b := d.artifact;
    assert d == Dependency(b, true);
  }

  lemma DistinctMembers(p: seq<Identity>)
    requires forall i, j :: 0 <= i < j < |p| ==> p[i] != p[j]
    ensures |Members(p)| == |p|
  {
    if p != [] {
      var shorter := p[..|p| - 1];
      DistinctMembers(shorter);
      assert Members(p) == Members(shorter) + {p[|p| - 1]};
    }
  }

  /**
   A chain of waiting artifacts could always be lengthened; among finitely many it would come back
   to one of its own.
   */
  lemma {:induction false} NobodyWaits(rows: Manifest, certified: set<Identity>, p: seq<Identity>)
    requires KnownDependencies(rows) && Closed(rows, certified)
    requires Chain(rows, p) && Deserving(rows, p[0])
    requires forall i :: 0 <= i < |p| ==> p[i] !in certified && p[i] in Identities(rows)
    requires forall i, j :: 0 <= i < j < |p| ==> p[i] != p[j]
    ensures false
    decreases |Identities(rows)| - |p|
  {
    hide Requires, Passes, Deserving;
    NextPasses(rows, p);
    var b := Waits(rows, certified, p[|p| - 1]);
    var longer := p + [b];
    assert Chain(rows, longer);
    NeverReturns(rows, longer);
    DistinctMembers(longer);
    FewerThan(Members(longer), Identities(rows));
    NobodyWaits(rows, certified, longer);
  }

  lemma NextPasses(rows: Manifest, p: seq<Identity>)
    requires Chain(rows, p) && Deserving(rows, p[0])
    ensures Passes(rows, p[|p| - 1])
  {
    hide Passes, Requires;
    assert ChainFrom(rows, p[0], p);
  }

  lemma NeverReturns(rows: Manifest, p: seq<Identity>)
    requires Chain(rows, p) && Deserving(rows, p[0])
    ensures forall i :: 0 <= i < |p| - 1 ==> p[i] != p[|p| - 1]
  {
    hide Passes, Requires;
    assert ChainFrom(rows, p[0], p);
  }

  lemma {:induction false} FewerThan(a: set<Identity>, b: set<Identity>)
    requires a <= b
    ensures |a| <= |b|
  {
    assert b == a + (b - a);
    assert |b| == |a| + |b - a|;
  }

  lemma PassesIsKnown(rows: Manifest, a: Identity)
    requires Passes(rows, a)
    ensures a in Identities(rows)
  {
  }

  /** Whatever order produced it, a closed founded set is exactly the deserving artifacts. */
  lemma CertifiedIsDeserving(rows: Manifest, order: seq<Identity>, certified: set<Identity>, a: Identity)
    requires KnownDependencies(rows) && Progress(rows, order, certified) && Closed(rows, certified)
    ensures a in certified <==> Deserving(rows, a)
  {
    hide Deserving, Requires, Passes, Founded, Closed;
    if a in certified {
      var k :| 0 <= k < |order| && order[k] == a;
      CertifiedDeserves(rows, order, k);
    } else if Deserving(rows, a) {
      NextPasses(rows, [a]);
      PassesIsKnown(rows, a);
      NobodyWaits(rows, certified, [a]);
    }
  }

  // -------------------------------------------------------------- what follows from it

  /** The deserving artifacts are the least set that the rule cannot extend. */
  lemma DeservingIsLeast(rows: Manifest, closed: set<Identity>, a: Identity)
    requires KnownDependencies(rows) && Closed(rows, closed) && Deserving(rows, a)
    ensures a in closed
  {
    hide Deserving, Requires, Passes, Closed;
    if a !in closed {
      NextPasses(rows, [a]);
      PassesIsKnown(rows, a);
      NobodyWaits(rows, closed, [a]);
    }
  }

  /** An artifact deserves certification exactly when it passes and all it requires deserve it. */
  lemma DeservingIsFixed(rows: Manifest, k: nat)
    requires UniqueIdentities(rows) && KnownDependencies(rows) && k < |rows|
    ensures Deserving(rows, rows[k].id)
       <==> rows[k].passes && forall d :: d in rows[k].dependencies && d.required ==> Deserving(rows, d.artifact)
  {
    hide Deserving;
    var a := rows[k].id;
    if Deserving(rows, a) {
      NextPasses(rows, [a]);
      forall d | d in rows[k].dependencies && d.required
        ensures Deserving(rows, d.artifact)
      {
        assert d == Dependency(d.artifact, true);
        DeservingStep(rows, a, d.artifact);
      }
    }
    if rows[k].passes && forall d :: d in rows[k].dependencies && d.required ==> Deserving(rows, d.artifact) {
      forall b | Requires(rows, a, b) ensures Deserving(rows, b) {
        assert Dependency(b, true) in rows[k].dependencies;
      }
      DeservingFromDependencies(rows, a);
    }
  }

  /** A chain that came back to its start would, one step on, come back to its second artifact. */
  lemma NoWayBack(rows: Manifest, p: seq<Identity>)
    requires Chain(rows, p) && |p| > 1 && Deserving(rows, p[1])
    ensures p[0] != p[|p| - 1]
  {
    hide Passes, Requires;
    var second := p[1];
    var round := p[1..] + [second];
    assert p[0] == p[|p| - 1] ==> ChainFrom(rows, second, round);
    assert round[0] == round[|round| - 1];
  }

  lemma DeservingFromDependencies(rows: Manifest, a: Identity)
    requires Passes(rows, a) && forall b :: Requires(rows, a, b) ==> Deserving(rows, b)
    ensures Deserving(rows, a)
  {
    hide Passes, Requires;
    forall p | ChainFrom(rows, a, p) && |p| > 1
      ensures Passes(rows, p[|p| - 1]) && forall i :: 0 <= i < |p| - 1 ==> p[i] != p[|p| - 1]
    {
      assert Deserving(rows, p[1]);
      NextPasses(rows, p[1..]);
      NeverReturns(rows, p[1..]);
      NoWayBack(rows, p);
    }
  }

  /** The order of the rows does not matter. */
  lemma RowOrderDoesNotMatter(rows: Manifest, others: Manifest, a: Identity)
    requires multiset(rows) == multiset(others)
    ensures Deserving(rows, a) <==> Deserving(others, a)
  {
    hide Deserving;
    SameGraph(rows, others);
    SameGraph(others, rows);
    DeservingInSame(rows, others, a);
    DeservingInSame(others, rows, a);
  }

  lemma SameGraph(rows: Manifest, others: Manifest)
    requires multiset(rows) == multiset(others)
    ensures forall a, b :: Requires(rows, a, b) ==> Requires(others, a, b)
    ensures forall a :: Passes(rows, a) ==> Passes(others, a)
  {
    forall i | 0 <= i < |rows|
      ensures exists j :: 0 <= j < |others| && others[j] == rows[i]
    {
      assert rows[i] in multiset(others);
    }
  }

  lemma DeservingInSame(rows: Manifest, others: Manifest, a: Identity)
    requires forall a, b :: Requires(rows, a, b) <==> Requires(others, a, b)
    requires forall a :: Passes(rows, a) <==> Passes(others, a)
    ensures Deserving(rows, a) ==> Deserving(others, a)
  {
    hide Requires, Passes;
    forall p
      ensures ChainFrom(others, a, p) ==> ChainFrom(rows, a, p)
    {
    }
  }

  /** No identity occurs twice exactly when there are as many identities as rows. */
  lemma {:induction false} UniqueExactly(rows: Manifest)
    ensures |Identities(rows)| <= |rows|
    ensures UniqueIdentities(rows) <==> |Identities(rows)| == |rows|
    decreases |rows|
  {
    hide Identities, UniqueIdentities;
    if rows == [] {
      NoIdentities();
    } else {
      UniqueExactly(rows[..|rows| - 1]);
      OneMoreIdentity(rows);
    }
  }

  lemma NoIdentities()
    ensures Identities([]) == {} && UniqueIdentities([])
  {
  }

  lemma OneMoreIdentity(rows: Manifest)
    requires rows != []
    ensures var front, id := rows[..|rows| - 1], rows[|rows| - 1].id;
            && Identities(rows) == Identities(front) + {id}
            && (UniqueIdentities(rows) <==> UniqueIdentities(front) && id !in Identities(front))
  {
    var last := |rows| - 1;
    var front := rows[..last];
    assert forall i :: 0 <= i < last ==> front[i] == rows[i];
    if UniqueIdentities(front) && rows[last].id !in Identities(front) {
      forall i, j | 0 <= i < j < |rows|
        ensures rows[i].id != rows[j].id
      {
        if j == last {
          assert front[i].id in Identities(front);
        } else {
          assert front[i].id != front[j].id;
        }
      }
    }
    if rows[last].id in Identities(front) {
      var i :| 0 <= i < |front| && front[i].id == rows[last].id;
      assert rows[i].id == rows[last].id;
    }
    if UniqueIdentities(rows) {
      assert forall i, j :: 0 <= i < j < |front| ==> rows[i].id != rows[j].id;
    }
  }

  /** Every required artifact, and every optional one, is listed in the manifest exactly when all dependencies are known. */
  lemma KnownExactly(rows: Manifest)
    ensures KnownDependencies(rows) <==>
              forall i, d :: 0 <= i < |rows| && d in rows[i].dependencies ==> exists j :: 0 <= j < |rows| && rows[j].id == d.artifact
  {
  }
}
