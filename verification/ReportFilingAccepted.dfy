/**
 Exactly when `_file` answers 202 for a report that is not linked: when the listing or the creation
 of the claim holder was itself answered with 202 while the report was not linked.
 */
module ReportFilingAccepted {
  import opened Wrappers
  import opened ReportFiling
  import opened ReportFilingSafety
  import opened ReportFilingRuns
  import opened ReportFilingRetry

  ghost predicate PlainRunFor(states: seq<State>, actions: seq<Action>, id: Pid) {
    Run(states, actions) && forall i :: 0 <= i < |actions| ==> PlainFor(states[i], actions[i], id)
  }

  /** A continuation in which this invocation gets no 202 at its listing or creation. */
  ghost predicate ContinuesPlainly(s: State, t: State, id: Pid) {
    exists states, actions :: PlainRunFor(states, actions, id) && states[0] == s && states[|states| - 1] == t
  }

  /** The invocation has answered 202, and its report is not linked. */
  ghost predicate AcceptedUnlinked(s: State, id: Pid) {
    && id in s.procs && !s.procs[id].hook
    && s.procs[id].pc.Done? && s.procs[id].pc.answer == 202
    && !Linked(s, s.procs[id].key)
  }

  // ------------------------------------------------------------ what a plain run keeps

  lemma LinkedStays(s: State, a: Action, key: Key)
    requires Inv(s) && Enabled(s, a) && Linked(s, key)
    ensures Linked(Step(s, a), key)
  {
    hide Inv, Step, Enabled, Frame;
    WriteFrames(s, a);
    LinkedStable(s, Step(s, a), Actor(a), key);
  }

  lemma {:induction false} PlainRunKeeps(states: seq<State>, actions: seq<Action>, id: Pid, j: nat)
    requires PlainRunFor(states, actions, id) && id in states[0].procs && PlainAnswer(states[0].procs[id]) && j < |states|
    ensures id in states[j].procs && PlainAnswer(states[j].procs[id])
    ensures states[j].procs[id].key == states[0].procs[id].key && states[j].procs[id].hook == states[0].procs[id].hook
    decreases j
  {
    hide Step, Enabled, PlainAnswer, PlainFor;
    if j > 0 {
      PlainRunKeeps(states, actions, id, j - 1);
      PlainStep(states[j - 1], actions[j - 1], id);
    }
  }

  /** An invocation that lets no 202 in answers 202 only for a linked report. */
  lemma PlainMeansLinked(s: State, id: Pid)
    requires Inv(s) && id in s.procs && PlainAnswer(s.procs[id])
    ensures !AcceptedUnlinked(s, id)
  {
    InvAt(s, id);
  }

  // ------------------------------------------------------------------ the exact condition

  lemma AnswerIsPlain(s: State, id: Pid, r: Reply)
    requires CanReply(s, id, r) && AtIssues(s, id) && r.answer != 202
    ensures PlainAnswer(Step(s, Respond(id, r)).procs[id])
  {
    hide FindKey, FindSync, FindMarker, Page;
  }

  lemma AcceptedReleases(s: State, id: Pid, r: Reply)
    requires Inv(s) && CanReply(s, id, r) && AtIssues(s, id) && r.answer == 202
    ensures var t := Step(s, Respond(id, r));
            && t.procs[id] == s.procs[id].(pc := ReleaseRead(0, s.procs[id].pc.token, 202))
            && !t.procs[id].hook && t.file == s.file
  {
    InvAt(s, id);
  }

  /** A report is linked exactly when its line names an issue. */
  lemma LinkedByFile(s: State, key: Key)
    requires FileInv(s)
    ensures Linked(s, key) <==> Recorded(s.file, key) && Line(s.file, key).issue.Some?
  {
    hide Listed;
    if Recorded(s.file, key) {
      assert Records(s.file)[FindKey(Records(s.file), key).value].key == Some(key);
    }
  }

  lemma UnlinkedByInv(s: State, t: State, key: Key)
    requires Inv(s) && t.file == s.file && !Linked(s, key)
    ensures !Linked(t, key)
  {
    hide LogInv, ProcInv, FileInv, Listed, FindKey;
    LinkedByFile(s, key);
  }

  /** The release that follows a 202 cannot read the file, and the invocation answers 202. */
  lemma EndsAccepted(s: State, id: Pid, r: Reply)
    requires Inv(s) && CanReply(s, id, r) && AtIssues(s, id)
    requires r.answer == 202 && !Linked(s, s.procs[id].key)
    ensures exists u :: ContinuesPlainly(Step(s, Respond(id, r)), u, id) && AcceptedUnlinked(u, id)
  {
    hide FindKey, FindSync, FindMarker, Page, Inv, Linked;
    var t := Step(s, Respond(id, r));
    AcceptedReleases(s, id, r);
    UnlinkedByInv(s, t, s.procs[id].key);
    var unread := Respond(id, Reply(500, false, 0, 0, "", None));
    var u := Step(t, unread);
    assert u.procs[id].pc == Done(202, AtOpen) && u.file == t.file;
    UnlinkedByInv(s, u, s.procs[id].key);
    assert PlainRunFor([t, u], [unread], id);
    assert [t, u][0] == t && [t, u][|[t, u]| - 1] == u;
    assert ContinuesPlainly(t, u, id) && AcceptedUnlinked(u, id);
  }

  /**
   After an answer to the claim holder's listing or creation, some continuation without a
   further 202 there ends this invocation with 202 and an unlinked report, if and only if that
   answer was 202 and the report was not linked.
   */
  lemma AcceptedUnlinkedExactly(s: State, id: Pid, r: Reply)
    requires Inv(s) && CanReply(s, id, r) && AtIssues(s, id)
    ensures (exists u :: ContinuesPlainly(Step(s, Respond(id, r)), u, id) && AcceptedUnlinked(u, id))
       <==> r.answer == 202 && !Linked(s, s.procs[id].key)
  {
    hide Inv, Step, ContinuesPlainly, AcceptedUnlinked, Linked;
    if r.answer == 202 && !Linked(s, s.procs[id].key) {
      EndsAccepted(s, id, r);
    } else {
      forall u | ContinuesPlainly(Step(s, Respond(id, r)), u, id)
        ensures !AcceptedUnlinked(u, id)
      {
        NeverAcceptedUnlinked(s, id, r, u);
      }
    }
  }

  lemma NeverAcceptedUnlinked(s: State, id: Pid, r: Reply, u: State)
    requires Inv(s) && CanReply(s, id, r) && AtIssues(s, id)
    requires r.answer != 202 || Linked(s, s.procs[id].key)
    requires ContinuesPlainly(Step(s, Respond(id, r)), u, id)
    ensures !AcceptedUnlinked(u, id)
  {
    hide Inv, AtIssues, Linked, PlainAnswer, NextPc;
    var t := Step(s, Respond(id, r));
    var states, actions :| PlainRunFor(states, actions, id) && states[0] == t && states[|states| - 1] == u;
    StepKeepsInv(s, Respond(id, r));
    RunKeepsInvFrom(states, actions, 0, |states| - 1);
    if r.answer != 202 {
      AnswerIsPlain(s, id, r);
      PlainRunKeeps(states, actions, id, |states| - 1);
      PlainMeansLinked(u, id);
    } else {
      LinkedStays(s, Respond(id, r), s.procs[id].key);
      LinksFrom(states, actions, 0, |states| - 1, s.procs[id].key);
      KeyKept(states, actions, id, 0, |states| - 1);
    }
  }

  // ------------------------------------------------ runs in which it happens

  /** From the empty state: the first report of all, answered 202 at its first listing. */
  lemma AcceptedListingRun(s: State) returns (u: State)
    requires s == State(Absent, [], map[], map[])
    ensures Initial(s) && Reaches(s, u) && AcceptedUnlinked(u, 0)
  {
    hide Inv, Linked;
    EmptyStateIsInv(s);
    ReachesItself(s);
    var t := StartToScan(s, s, 0, "k");
    u := AcceptedAt(s, t, 0, "k");
  }

  /** The same, answered 202 at its creation, which took no effect. */
  lemma AcceptedCreationRun(s: State) returns (u: State)
    requires s == State(Absent, [], map[], map[])
    ensures Initial(s) && Reaches(s, u) && AcceptedUnlinked(u, 0)
  {
    hide Inv, Linked;
    EmptyStateIsInv(s);
    ReachesItself(s);
    var t := StartToScan(s, s, 0, "k");
    t := ScanOfNothingPosts(s, t, 0, "k");
    u := AcceptedAt(s, t, 0, "k");
  }

  lemma NoIssueNoLink(s: State, key: Key)
    requires s.issues == []
    ensures !Linked(s, key)
  {
  }

  lemma AcceptedAt(s: State, t: State, id: Pid, key: Key) returns (u: State)
    requires At(s, t, id, key) && AtIssues(t, id) && t.issues == []
    ensures Reaches(s, u) && AcceptedUnlinked(u, id)
  {
    hide Inv, Linked, Reaches;
    var accepted := Reply(202, false, 0, 1, "", None);
    AcceptedReleases(t, id, accepted);
    var v := Answered(s, t, id, key, accepted);
    u := Answered(s, v, id, key, Reply(500, false, 0, 0, "", None));
    assert u.issues == [];
    NoIssueNoLink(u, key);
  }
}
