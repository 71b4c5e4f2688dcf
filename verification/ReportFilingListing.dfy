/**
 Exactly which runs give a report a second issue: those in which the claim holder's listing is
 answered with 404 while an issue of the report exists, and its creation takes effect afterwards.
 */
module ReportFilingListing {
  import opened Wrappers
  import opened ReportFiling
  import opened ReportFilingSafety
  import opened ReportFilingRuns

  /** Step `k` answers this invocation's listing with 404 although its report has an issue. */
  ghost predicate MisleadsAt(states: seq<State>, actions: seq<Action>, k: nat, id: Pid)
    requires |states| == |actions| + 1 && k < |actions|
  {
    actions[k].Respond? && actions[k].id == id && !HonestListing(states[k], actions[k])
  }

  /** Step `k` is this invocation's creation, and it takes effect. */
  ghost predicate CreatesAt(states: seq<State>, actions: seq<Action>, k: nat, id: Pid)
    requires |states| == |actions| + 1 && k < |actions|
  {
    Creates(states[k], actions[k], id)
  }

  ghost predicate MisledCreation(states: seq<State>, actions: seq<Action>)
    requires |states| == |actions| + 1
  {
    exists k: nat, l: nat, id: Pid ::
      k < l < |actions| && MisleadsAt(states, actions, k, id) && CreatesAt(states, actions, l, id)
  }

  // -------------------------------------------------------------- the whole run

  /** As long as no misled invocation creates an issue, no report has two. */
  lemma {:induction false} RunStaysSingle(states: seq<State>, actions: seq<Action>, j: nat) returns (misled: set<Pid>)
    requires Run(states, actions) && Initial(states[0]) && j < |states|
    requires !MisledCreation(states, actions)
    ensures Inv(states[j]) && Single(states[j], misled)
    ensures forall id :: id in misled ==> exists k: nat :: k < j && MisleadsAt(states, actions, k, id)
    decreases j
  {
    hide Step, Enabled, Inv, Single, Initial, HonestListing;
    if j == 0 {
      EmptyInv(states[0]);
      misled := {};
    } else {
      var before := RunStaysSingle(states, actions, j - 1);
      var s, a := states[j - 1], actions[j - 1];
      Misleading(s, a);
      misled := if HonestListing(s, a) then before else before + {a.id};
      MoreMisled(s, before, misled);
      forall id | id in misled
        ensures exists k: nat :: k < j && MisleadsAt(states, actions, k, id)
        ensures !Creates(s, a, id)
      {
        if id in before {
          assert CreatesAt(states, actions, j - 1, id) <==> Creates(s, a, id);
        } else {
          assert MisleadsAt(states, actions, j - 1, id);
        }
      }
      StepKeepsInv(s, a);
      StepKeepsSingle(s, a, misled);
    }
  }

  lemma MoreMisled(s: State, misled: set<Pid>, more: set<Pid>)
    requires Single(s, misled) && misled <= more
    ensures Single(s, more)
  {
  }

  /** What misleads is the answer to a listing, not to a creation. */
  lemma Misleading(s: State, a: Action)
    ensures !HonestListing(s, a) ==> a.Respond? && !Creates(s, a, a.id)
  {
  }

  /** A report that has an issue keeps one. */
  lemma {:induction false} IssueStays(states: seq<State>, actions: seq<Action>, i: nat, j: nat, key: Key)
    requires Run(states, actions) && i <= j < |states| && !Unposted(states[i].issues, key)
    ensures !Unposted(states[j].issues, key)
    decreases j
  {
    hide Step, Enabled;
    if i < j {
      IssueStays(states, actions, i, j - 1, key);
      StepsOnlyMoveIssuesDown(states[j - 1], actions[j - 1]);
      var at :| 0 <= at < |states[j - 1].issues| && states[j - 1].issues[at].key == Some(key);
      assert AtOrBelow(states[j].issues, states[j - 1].issues[at], at);
    }
  }

  lemma SecondIssue(s: State, a: Action)
    requires Enabled(s, a) && a.Respond? && s.procs[a.id].pc.Post? && a.reply.applied
    requires !Unposted(s.issues, s.procs[a.id].key)
    ensures !AtMostOnePerKey(Step(s, a).issues)
  {
    var t := Step(s, a);
    var at :| 0 <= at < |s.issues| && s.issues[at].key == Some(s.procs[a.id].key);
    assert t.issues[0].key == t.issues[at + 1].key;
  }

  lemma MisledCreationDuplicates(states: seq<State>, actions: seq<Action>, k: nat, l: nat, id: Pid)
    requires Run(states, actions) && k < l < |actions|
    requires MisleadsAt(states, actions, k, id) && CreatesAt(states, actions, l, id)
    ensures !AtMostOnePerKey(states[l + 1].issues)
  {
    hide Step, Enabled, AtMostOnePerKey, Unposted;
    KeyKept(states, actions, id, k, l);
    IssueStays(states, actions, k, l, states[k].procs[id].key);
    SecondIssue(states[l], actions[l]);
  }

  /**
   However the invocations interleave and fail, and whatever the listings answer: every state of
   the run has at most one issue per report if and only if no invocation whose listing was answered
   with 404 while its report had an issue later creates one.
   */
  lemma OneIssueUnlessMisled(states: seq<State>, actions: seq<Action>)
    requires Run(states, actions) && Initial(states[0])
    ensures (forall j :: 0 <= j < |states| ==> AtMostOnePerKey(states[j].issues)) <==> !MisledCreation(states, actions)
  {
    hide Step, Enabled, Initial, MisleadsAt, CreatesAt, AtMostOnePerKey;
    if MisledCreation(states, actions) {
      var k: nat, l: nat, id: Pid :|
        k < l < |actions| && MisleadsAt(states, actions, k, id) && CreatesAt(states, actions, l, id);
      MisledCreationDuplicates(states, actions, k, l, id);
      assert 0 <= l + 1 < |states|;
    } else {
      forall j | 0 <= j < |states|
        ensures AtMostOnePerKey(states[j].issues)
      {
        var misled := RunStaysSingle(states, actions, j);
        assert Single(states[j], misled);
      }
    }
  }
}
