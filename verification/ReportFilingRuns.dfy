/**
 The results about whole runs of the report filing protocol: one issue per report and exactly
 when a listing error breaks it, what a 202 promises, and exactly when a retry can still finish
 an interrupted filing.
 */
module ReportFilingRuns {
  import opened Wrappers
  import opened ReportFiling
  import opened ReportFilingSafety

  // ------------------------------------------------------- one issue per report

  /** However the invocations interleave and fail, no report gets two issues as long as the listings are honest. */
  lemma OneIssuePerReport(states: seq<State>, actions: seq<Action>, j: nat)
    requires HonestRun(states, actions) && Initial(states[0]) && j < |states|
    ensures AtMostOnePerKey(states[j].issues)
    ensures forall id :: id in states[j].procs && states[j].procs[id].pc.Post? ==>
              var p := states[j].procs[id];
              && Unposted(states[j].issues, p.key)
              && Recorded(states[j].file, p.key)
              && Line(states[j].file, p.key).claim == Some(p.pc.token)
              && Mine(states[j], id, p.pc.token)
  {
    hide Inv, LogInv, FindKey;
    HonestRunKeepsSingle(states, actions, j);
    var s := states[j];
    forall id | id in s.procs && s.procs[id].pc.Post?
      ensures Unposted(s.issues, s.procs[id].key) && Recorded(s.file, s.procs[id].key)
      ensures Line(s.file, s.procs[id].key).claim == Some(s.procs[id].pc.token) && Mine(s, id, s.procs[id].pc.token)
    {
      PosterHoldsClaim(s, id);
    }
  }

  lemma PosterHoldsClaim(s: State, id: Pid)
    requires Inv(s) && Single(s, {}) && id in s.procs && s.procs[id].pc.Post?
    ensures Unposted(s.issues, s.procs[id].key) && Recorded(s.file, s.procs[id].key)
    ensures Line(s.file, s.procs[id].key).claim == Some(s.procs[id].pc.token) && Mine(s, id, s.procs[id].pc.token)
  {
    hide LogInv, FindKey;
    assert ProcInv(s, id, s.procs[id]) && Searched(s, s.procs[id]);
    UnpostedIsUnlinked(s, s.procs[id].key);
  }

  /** Both requests can be answered: the listing with 404, then the creation with 201. */
  ghost predicate ListingErrorThenPost(s: State, id: Pid, error: Reply, created: Reply) {
    && CanReply(s, id, error) && s.procs[id].pc.OpenScan? && error.answer == 404
    && created.answer == 201
    && CanReply(Step(s, Respond(id, error)), id, created)
  }

  /**
   A listing that answers 404 makes the claim holder post at once. That keeps one issue per
   report if and only if no issue of the report existed.
   */
  lemma ListingErrorIsSafeIffUnposted(s: State, id: Pid, error: Reply, created: Reply)
    requires AtMostOnePerKey(s.issues) && ListingErrorThenPost(s, id, error, created)
    ensures AtMostOnePerKey(Step(Step(s, Respond(id, error)), Respond(id, created)).issues)
            <==> Unposted(s.issues, s.procs[id].key)
  {
    var key := s.procs[id].key;
    var t := Step(s, Respond(id, error));
    var u := Step(t, Respond(id, created));
    assert u.issues == [Created(t.procs[id], created)] + s.issues;
    if !Unposted(s.issues, key) {
      var j :| 0 <= j < |s.issues| && s.issues[j].key == Some(key);
      assert u.issues[0].key == u.issues[j + 1].key;
    }
  }

  // ------------------------------------------------------------ what a 202 means

  lemma {:induction false} LinksFrom(states: seq<State>, actions: seq<Action>, i: nat, j: nat, key: Key)
    requires Run(states, actions) && i <= j < |states| && Inv(states[i]) && Linked(states[i], key)
    ensures Linked(states[j], key) && Line(states[j].file, key).issue == Line(states[i].file, key).issue
    decreases j
  {
    hide Step, Inv, Frame, Enabled, Listed;
    if i < j {
      LinksFrom(states, actions, i, j - 1, key);
      RunKeepsInvFrom(states, actions, i, j - 1);
      WriteFrames(states[j - 1], actions[j - 1]);
      LinkedStable(states[j - 1], states[j], Actor(actions[j - 1]), key);
    }
  }

  /** A link, once committed, names the same issue in every later state, whatever the listings answer. */
  lemma LinksAreDurable(states: seq<State>, actions: seq<Action>, i: nat, j: nat, key: Key)
    requires Run(states, actions) && Initial(states[0]) && i <= j < |states|
    requires Linked(states[i], key)
    ensures Linked(states[j], key)
    ensures Line(states[j].file, key).issue == Line(states[i].file, key).issue
  {
    RunKeepsInv(states, actions, i);
    LinksFrom(states, actions, i, j, key);
  }

  /** This invocation waits for a page of issues or for a creation, as the claim holder. */
  predicate AtIssues(s: State, id: Pid) {
    id in s.procs && (s.procs[id].pc.OpenScan? || s.procs[id].pc.Post?)
  }

  /** The step does not answer this invocation's listing or creation with 202. */
  ghost predicate PlainFor(s: State, a: Action, id: Pid) {
    a.Respond? && a.id == id && AtIssues(s, id) ==> a.reply.answer != 202
  }

  ghost predicate PlainAnswer(p: Proc) {
    && (p.pc.ReleaseRead? || p.pc.ReleaseWrite? ==> p.pc.answer != 202)
    && (p.pc.Done? && p.pc.exit == AtOpen ==> p.pc.answer != 202)
  }

  /** One plain step keeps the invocation's key and lets no 202 in. */
  lemma PlainStep(s: State, a: Action, id: Pid)
    requires Enabled(s, a) && PlainFor(s, a, id) && id in s.procs && PlainAnswer(s.procs[id])
    ensures id in Step(s, a).procs && PlainAnswer(Step(s, a).procs[id])
    ensures Step(s, a).procs[id].key == s.procs[id].key && Step(s, a).procs[id].hook == s.procs[id].hook
  {
    hide FindKey, FindSync, FindMarker, Page;
  }

  lemma StartsPlainly(s: State, a: Action, id: Pid)
    requires Enabled(s, a) && id !in s.procs && id in Step(s, a).procs
    ensures PlainAnswer(Step(s, a).procs[id])
  {
    hide NextPc;
  }

  /** What the other invocations are answered does not matter. */
  lemma {:induction false} RunKeepsPlainAnswers(states: seq<State>, actions: seq<Action>, j: nat, id: Pid)
    requires Run(states, actions) && Initial(states[0]) && j < |states| && id in states[j].procs
    requires forall i :: 0 <= i < j ==> PlainFor(states[i], actions[i], id)
    ensures PlainAnswer(states[j].procs[id])
    decreases j
  {
    hide Step, Enabled, PlainAnswer, PlainFor;
    if j > 0 {
      if id in states[j - 1].procs {
        RunKeepsPlainAnswers(states, actions, j - 1, id);
        PlainStep(states[j - 1], actions[j - 1], id);
      } else {
        StartsPlainly(states[j - 1], actions[j - 1], id);
      }
    }
  }

  /**
   `_file` returns 202 only once the report is linked to an issue that carries its marker, unless its
   own listing or creation was answered with 202.
   */
  lemma AcceptedMeansLinked(states: seq<State>, actions: seq<Action>, j: nat, id: Pid)
    requires Run(states, actions) && Initial(states[0]) && j < |states| && id in states[j].procs
    requires forall i :: 0 <= i < j ==> PlainFor(states[i], actions[i], id)
    requires !states[j].procs[id].hook && states[j].procs[id].pc.Done? && states[j].procs[id].pc.answer == 202
    ensures Linked(states[j], states[j].procs[id].key)
  {
    hide Step, Enabled, Initial, PlainFor;
    RunKeepsInv(states, actions, j);
    assert ProcInv(states[j], id, states[j].procs[id]);
    RunKeepsPlainAnswers(states, actions, j, id);
  }

  /** An invocation works on one report all its life. */
  lemma {:induction false} KeyKept(states: seq<State>, actions: seq<Action>, id: Pid, i: nat, j: nat)
    requires Run(states, actions) && i <= j < |states| && id in states[i].procs
    ensures id in states[j].procs && states[j].procs[id].key == states[i].procs[id].key
    decreases j
  {
    hide NextPc, Enabled;
    if i < j {
      KeyKept(states, actions, id, i, j - 1);
      assert states[j] == Step(states[j - 1], actions[j - 1]);
      StepKeepsKey(states[j - 1], actions[j - 1], id);
    }
  }

  lemma StepKeepsKey(s: State, a: Action, id: Pid)
    requires Enabled(s, a) && id in s.procs
    ensures id in Step(s, a).procs && Step(s, a).procs[id].key == s.procs[id].key
  {
    hide NextPc;
  }

  // ------------------------------------------------ when a retry can still finish

  /** The claim of a report nobody posted belongs to an invocation that is gone. */
  ghost predicate Orphaned(s: State, key: Key) {
    && Recorded(s.file, key)
    && Line(s.file, key).issue.None?
    && Line(s.file, key).claim.Some?
    && Unposted(s.issues, key)
    && var token := Line(s.file, key).claim.value;
    && token in s.minted
    && s.minted[token] in s.procs
    && Halted(s.procs[s.minted[token]].pc)
  }

  /** The write of a live invocation leaves an orphaned line as it is. */
  lemma OrphanLineKept(s: State, id: Pid, r: Reply, key: Key)
    requires Inv(s) && Orphaned(s, key) && CanReply(s, id, r) && Writing(s.procs[id].pc) && r.applied
    ensures FindKey(s.procs[id].pc.proposed, key) == FindKey(Records(s.file), key)
    ensures s.procs[id].pc.proposed[FindKey(Records(s.file), key).value] == Line(s.file, key)
  {
    hide NextPc, FindKey, FindSync, OneEdit, LogExtends, FileInv;
    var p := s.procs[id];
    InvAt(s, id);
    StepKeepsLog(s, Respond(id, r));
    FindKeyStable(Records(s.file), p.pc.proposed, key);
  }

  lemma OrphanStep(s: State, a: Action, key: Key)
    requires Inv(s) && Enabled(s, a) && Orphaned(s, key)
    ensures Orphaned(Step(s, a), key)
  {
    var t := Step(s, a);
    var token := Line(s.file, key).claim.value;
    WriteFrames(s, a);
    IssuesOnlyMove(s, a);
    if a.Respond? {
      var p := s.procs[a.id];
      assert ProcInv(s, a.id, p);
      assert a.id != s.minted[token];
      if Writing(p.pc) && a.reply.applied {
        OrphanLineKept(s, a.id, a.reply, key);
      }
      assert !Posts(s, Some(a.id), key);
    }
  }

  lemma {:induction false} OrphanForever(states: seq<State>, actions: seq<Action>, i: nat, j: nat, key: Key)
    requires Run(states, actions) && i <= j < |states| && Inv(states[i]) && Orphaned(states[i], key)
    ensures Inv(states[j]) && Orphaned(states[j], key)
    decreases j
  {
    hide Inv, Orphaned, Step, Enabled;
    if i < j {
      OrphanForever(states, actions, i, j - 1, key);
      StepKeepsInv(states[j - 1], actions[j - 1]);
      OrphanStep(states[j - 1], actions[j - 1], key);
    }
  }

  // -------------------------------------------------- the paginated issue listing

  /** Every issue stays listed and never moves up: newest first, and nothing is removed. */
  ghost predicate OnlyMovesDown(before: seq<Issue>, after: seq<Issue>) {
    forall i :: 0 <= i < |before| ==> AtOrBelow(after, before[i], i)
  }

  ghost predicate AtOrBelow(issues: seq<Issue>, issue: Issue, at: nat) {
    exists j :: at <= j < |issues| && issues[j] == issue
  }

  lemma StepsOnlyMoveIssuesDown(s: State, a: Action)
    requires Enabled(s, a)
    ensures OnlyMovesDown(s.issues, Step(s, a).issues)
  {
    var before, after := s.issues, Step(s, a).issues;
    forall i | 0 <= i < |before|
      ensures AtOrBelow(after, before[i], i)
    {
      var j := if after == before || (a.Foreign? && i < a.at) then i else i + 1;
      assert i <= j < |after| && after[j] == before[i];
    }
  }

  lemma BeyondPage(issues: seq<Issue>, key: Key, page: nat, at: nat)
    requires PER_PAGE * page <= at < |issues| && issues[at].key == Some(key)
    requires FindMarker(Page(issues, page), key).None?
    ensures PER_PAGE * (page + 1) <= at && |Page(issues, page)| == PER_PAGE
  {
    var lo, hi := PER_PAGE * page, Min(PER_PAGE * (page + 1), |issues|);
    forall k | lo <= k < hi
      ensures issues[k].key != Some(key)
    {
      assert Page(issues, page)[k - lo] == issues[k];
    }
  }

  /** An issue of the first list is still beyond the pages read so far, each of which lacked its marker. */
  lemma {:induction false} SearchStaysAhead(lists: seq<seq<Issue>>, key: Key, i: nat, p: nat) returns (at: nat)
    requires p < |lists| && i < |lists[0]| && lists[0][i].key == Some(key)
    requires forall q :: 0 <= q < |lists| - 1 ==> OnlyMovesDown(lists[q], lists[q + 1])
    requires forall q :: 0 <= q < p ==> FindMarker(Page(lists[q], q), key).None?
    ensures PER_PAGE * p <= at < |lists[p]| && lists[p][at] == lists[0][i]
    decreases p
  {
    if p == 0 {
      at := i;
    } else {
      var before := SearchStaysAhead(lists, key, i, p - 1);
      BeyondPage(lists[p - 1], key, p - 1, before);
      assert OnlyMovesDown(lists[p - 1], lists[p - 1 + 1]) && AtOrBelow(lists[p], lists[p - 1][before], before);
      at :| before <= at < |lists[p]| && lists[p][at] == lists[p - 1][before];
    }
  }

  /**
   Page `p` is read from `lists[p]`, and issues may appear between the reads. If no page holds
   the marker and the last one is short, the report had no issue when the scan began.
   */
  lemma ScanMissesNothing(lists: seq<seq<Issue>>, key: Key)
    requires |lists| > 0
    requires forall q :: 0 <= q < |lists| - 1 ==> OnlyMovesDown(lists[q], lists[q + 1])
    requires forall q :: 0 <= q < |lists| ==> FindMarker(Page(lists[q], q), key).None?
    requires |Page(lists[|lists| - 1], |lists| - 1)| < PER_PAGE
    ensures Unposted(lists[0], key)
  {
    var last := |lists| - 1;
    forall i | 0 <= i < |lists[0]|
      ensures lists[0][i].key != Some(key)
    {
      if lists[0][i].key == Some(key) {
        var at := SearchStaysAhead(lists, key, i, last);
        BeyondPage(lists[last], key, last, at);
      }
    }
  }
}
