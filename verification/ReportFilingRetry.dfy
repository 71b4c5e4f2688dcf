/**
 Exactly when a retry of the same report can still finish an interrupted filing: with every
 earlier invocation gone, it can if and only if the report is not an orphaned claim.
 */
module ReportFilingRetry {
  import opened Wrappers
  import opened ReportFiling
  import opened ReportFilingSafety
  import opened ReportFilingRuns

  /** Some run leads there, whatever its listings are answered. */
  ghost predicate MayReach(s: State, t: State) {
    exists states, actions :: Run(states, actions) && states[0] == s && states[|states| - 1] == t
  }

  /** Some run leads there in which no listing is answered with 404 although the report has an issue. */
  ghost predicate Reaches(s: State, t: State) {
    exists states, actions :: HonestRun(states, actions) && states[0] == s && states[|states| - 1] == t
  }

  lemma ReachesItself(s: State)
    ensures Reaches(s, s)
  {
    assert HonestRun([s], []) && [s][0] == s;
  }

  lemma ReachesMore(s: State, t: State, a: Action)
    requires Reaches(s, t) && Enabled(t, a) && HonestListing(t, a)
    ensures Reaches(s, Step(t, a))
  {
    var states, actions :| HonestRun(states, actions) && states[0] == s && states[|states| - 1] == t;
    var longer, more := states + [Step(t, a)], actions + [a];
    forall i | 0 <= i < |more|
      ensures Enabled(longer[i], more[i]) && longer[i + 1] == Step(longer[i], more[i]) && HonestListing(longer[i], more[i])
    {
      if i < |actions| {
        assert longer[i] == states[i] && longer[i + 1] == states[i + 1];
      }
    }
    assert HonestRun(longer, more) && longer[0] == s && longer[|longer| - 1] == Step(t, a);
  }

  lemma {:induction false} ReachesOn(s: State, t: State, u: State)
    requires Reaches(s, t) && Reaches(t, u)
    ensures Reaches(s, u)
  {
    hide Reaches, Step, Enabled, HonestListing;
    var states, actions := RunBetween(t, u);
    ReachesAlong(s, states, actions, |states| - 1);
  }

  lemma RunBetween(t: State, u: State) returns (states: seq<State>, actions: seq<Action>)
    requires Reaches(t, u)
    ensures HonestRun(states, actions) && states[0] == t && states[|states| - 1] == u
  {
    states, actions :| HonestRun(states, actions) && states[0] == t && states[|states| - 1] == u;
  }

  lemma {:induction false} ReachesAlong(s: State, states: seq<State>, actions: seq<Action>, j: nat)
    requires HonestRun(states, actions) && j < |states| && Reaches(s, states[0])
    ensures Reaches(s, states[j])
    decreases j
  {
    hide Reaches, Step, Enabled, HonestListing;
    if j > 0 {
      ReachesAlong(s, states, actions, j - 1);
      ReachesMore(s, states[j - 1], actions[j - 1]);
    }
  }

  // --------------------------------------------------------- values not in use

  lemma {:induction false} FreshToken(tokens: set<Token>) returns (unused: nat)
    ensures forall t :: t in tokens ==> t < unused
    decreases |tokens|
  {
    if tokens == {} {
      unused := 0;
    } else {
      var t :| t in tokens;
      var below := FreshToken(tokens - {t});
      unused := if t < below then below else t + 1;
      assert forall x :: x in tokens ==> x == t || x in tokens - {t};
    }
  }

  lemma {:induction false} FreshNumber(issues: seq<Issue>) returns (unused: nat)
    ensures unused > 0 && forall j :: 0 <= j < |issues| ==> issues[j].number < unused
  {
    if |issues| == 0 {
      unused := 1;
    } else {
      var below := FreshNumber(issues[1..]);
      unused := if issues[0].number < below then below else issues[0].number + 1;
      forall j | 0 <= j < |issues|
        ensures issues[j].number < unused
      {
        assert j > 0 ==> issues[j] == issues[1..][j - 1];
      }
    }
  }

  // --------------------------------------------------- one invocation on its own

  ghost predicate At(s: State, t: State, id: Pid, key: Key) {
    Inv(t) && Reaches(s, t) && id in t.procs && !t.procs[id].hook && t.procs[id].key == key
  }

  /** The invocation's pending call is answered with `r`. */
  lemma Answered(s: State, t: State, id: Pid, key: Key, r: Reply) returns (u: State)
    requires At(s, t, id, key) && CanReply(t, id, r) && HonestListing(t, Respond(id, r))
    ensures u == Step(t, Respond(id, r)) && At(s, u, id, key)
    ensures u.procs[id].pc == NextPc(t, t.procs[id], r) && u.procs.Keys == t.procs.Keys
  {
    hide Inv, Reaches, NextPc;
    u := Step(t, Respond(id, r));
    StepKeepsInv(t, Respond(id, r));
    ReachesMore(s, t, Respond(id, r));
  }

  /** A write over the current file that GitHub accepts. */
  lemma WriteAccepted(s: State, t: State, id: Pid, key: Key) returns (u: State)
    requires At(s, t, id, key) && Writing(t.procs[id].pc) && t.procs[id].pc.snap == t.file
    ensures At(s, u, id, key) && u.procs[id].pc == NextPc(t, t.procs[id], Reply(200, true, 0, 0, "", None))
    ensures u.file == Committed(t.procs[id].pc.proposed) && u.issues == t.issues && u.procs.Keys == t.procs.Keys
  {
    hide Inv, Reaches, NextPc;
    u := Answered(s, t, id, key, Reply(200, true, 0, 0, "", None));
  }

  lemma FinishRefresh(s: State, t: State, id: Pid, key: Key) returns (u: State)
    requires At(s, t, id, key) && t.procs[id].pc.Refresh?
    ensures At(s, u, id, key) && u.procs[id].pc == Done(202, AtRefresh) && Linked(u, key)
  {
    hide Inv, Reaches;
    u := Answered(s, t, id, key, Reply(200, false, 0, 0, "", None));
    InvAt(u, id);
  }

  lemma FinishAttach(s: State, t: State, id: Pid, key: Key) returns (u: State)
    requires At(s, t, id, key) && t.procs[id].pc.AttachRead? && t.procs[id].pc.found.Some?
    ensures At(s, u, id, key) && u.procs[id].pc == Done(202, AtRefresh) && Linked(u, key)
  {
    hide Inv, Reaches;
    InvAt(t, id);
    var v := Answered(s, t, id, key, Reply(200, false, 0, 0, "", None));
    if v.procs[id].pc.AttachWrite? {
      v := WriteAccepted(s, v, id, key);
    }
    u := FinishRefresh(s, v, id, key);
  }

  lemma FinishPost(s: State, t: State, id: Pid, key: Key) returns (u: State)
    requires At(s, t, id, key) && t.procs[id].pc.Post?
    ensures At(s, u, id, key) && u.procs[id].pc == Done(202, AtRefresh) && Linked(u, key)
  {
    hide Inv, Reaches;
    var number := FreshNumber(t.issues);
    var v := Answered(s, t, id, key, Reply(201, true, 0, number, "", None));
    u := FinishAttach(s, v, id, key);
  }

  /** Listing page after page ends: it finds the issue or comes to a short page. */
  lemma {:induction false} FinishOpenScan(s: State, t: State, id: Pid, key: Key) returns (u: State)
    requires At(s, t, id, key) && t.procs[id].pc.OpenScan?
    ensures At(s, u, id, key) && u.procs[id].pc == Done(202, AtRefresh) && Linked(u, key)
    decreases |t.issues| - PER_PAGE * t.procs[id].pc.page
  {
    hide Inv, Reaches;
    var v := Answered(s, t, id, key, Reply(200, false, 0, 0, "", None));
    if v.procs[id].pc.OpenScan? {
      u := FinishOpenScan(s, v, id, key);
    } else if v.procs[id].pc.Post? {
      u := FinishPost(s, v, id, key);
    } else {
      u := FinishAttach(s, v, id, key);
    }
  }

  lemma {:induction false} FinishFindScan(s: State, t: State, id: Pid, key: Key) returns (u: State)
    requires At(s, t, id, key) && t.procs[id].pc.FindScan?
    requires !Unposted(t.issues, key) && NoneBefore(t.issues, key, PER_PAGE * t.procs[id].pc.page)
    ensures At(s, u, id, key) && u.procs[id].pc == Done(202, AtRefresh) && Linked(u, key)
    decreases |t.issues| - PER_PAGE * t.procs[id].pc.page
  {
    hide Inv, Reaches;
    var v := Answered(s, t, id, key, Reply(200, false, 0, 0, "", None));
    if FindMarker(Page(t.issues, t.procs[id].pc.page), key).None? {
      PageSearched(t.issues, key, t.procs[id].pc.page);
      u := FinishFindScan(s, v, id, key);
    } else {
      u := FinishAttach(s, v, id, key);
    }
  }

  lemma {:induction false} FinishLabels(s: State, t: State, id: Pid, key: Key) returns (u: State)
    requires At(s, t, id, key) && t.procs[id].pc.EnsureLabel?
    ensures At(s, u, id, key) && u.procs[id].pc == Done(202, AtRefresh) && Linked(u, key)
    decreases t.procs[id].pc.left
  {
    hide Inv, Reaches;
    var v := Answered(s, t, id, key, Reply(422, false, 0, 0, "", None));
    if v.procs[id].pc.EnsureLabel? {
      u := FinishLabels(s, v, id, key);
    } else {
      u := FinishOpenScan(s, v, id, key);
    }
  }

  lemma FinishClaim(s: State, t: State, id: Pid, key: Key) returns (u: State)
    requires At(s, t, id, key) && t.procs[id].pc.ClaimRead? && Recorded(t.file, key)
    requires Line(t.file, key).issue.Some? || Line(t.file, key).claim.None? || !Unposted(t.issues, key)
    ensures At(s, u, id, key) && u.procs[id].pc == Done(202, AtRefresh) && Linked(u, key)
  {
    hide Inv, Reaches;
    var token := FreshToken(t.minted.Keys);
    var v := Answered(s, t, id, key, Reply(200, false, token, 0, "", None));
    if v.procs[id].pc.Refresh? {
      u := FinishRefresh(s, v, id, key);
    } else if v.procs[id].pc.FindScan? {
      u := FinishFindScan(s, v, id, key);
    } else {
      v := WriteAccepted(s, v, id, key);
      u := FinishLabels(s, v, id, key);
    }
  }

  ghost predicate Retryable(s: State, key: Key) {
    Recorded(s.file, key) ==>
      Line(s.file, key).issue.Some? || Line(s.file, key).claim.None? || !Unposted(s.issues, key)
  }

  /** A fresh invocation for the report, answered without errors, links it and returns 202. */
  lemma RetryFinishes(s: State, id: Pid, key: Key, intake: string) returns (u: State)
    requires Inv(s) && id !in s.procs && Retryable(s, key)
    ensures At(s, u, id, key) && u.procs[id].pc == Done(202, AtRefresh) && Linked(u, key)
  {
    hide Inv, Reaches, Linked;
    var a := StartFiling(id, key, intake);
    ReachesItself(s);
    ReachesMore(s, s, a);
    StepKeepsInv(s, a);
    var t := Answered(s, Step(s, a), id, key, Reply(200, false, 0, 0, "", None));
    if t.procs[id].pc.RecordWrite? {
      t := WriteAccepted(s, t, id, key);
      assert Records(t.file)[|Records(t.file)| - 1].key == Some(key);
    }
    if t.procs[id].pc.Refresh? {
      u := FinishRefresh(s, t, id, key);
    } else {
      u := FinishClaim(s, t, id, key);
    }
  }

  ghost predicate Quiet(s: State) {
    forall id :: id in s.procs ==> Halted(s.procs[id].pc)
  }

  /**
   With every earlier invocation over, however its listings were answered, a report can still be
   linked by some later run if and only if it is not left with a claim and no issue. If any run can,
   then one with honest listings can.
   */
  lemma RecoverableIffNotOrphaned(states: seq<State>, actions: seq<Action>, key: Key)
    requires Run(states, actions) && Initial(states[0]) && Quiet(states[|states| - 1])
    ensures var s := states[|states| - 1];
            && ((exists t :: MayReach(s, t) && Linked(t, key)) <==> Retryable(s, key))
            && ((exists t :: Reaches(s, t) && Linked(t, key)) <==> Retryable(s, key))
  {
    var s := states[|states| - 1];
    RunKeepsInv(states, actions, |states| - 1);
    if Retryable(s, key) {
      var id := FreshToken(s.procs.Keys);
      var t := RetryFinishes(s, id, key, "");
      ReachesIsRun(s, t);
    } else {
      ClaimsAreMintedByInvocations(states, actions, |states| - 1, key);
      NeverLinkedAfterOrphaned(s, key);
      forall t | Reaches(s, t)
        ensures !Linked(t, key)
      {
        ReachesIsRun(s, t);
      }
    }
  }

  lemma ReachesIsRun(s: State, t: State)
    requires Reaches(s, t)
    ensures MayReach(s, t)
  {
  }

  /** Tokens belong to invocations that were started, so an old claim has a known owner. */
  lemma {:induction false} ClaimsAreMintedByInvocations(states: seq<State>, actions: seq<Action>, j: nat, key: Key)
    requires Run(states, actions) && Initial(states[0]) && j < |states|
    ensures forall t :: t in states[j].minted ==> states[j].minted[t] in states[j].procs
    ensures Recorded(states[j].file, key) && Line(states[j].file, key).claim.Some? ==>
              Line(states[j].file, key).claim.value in states[j].minted
    decreases j
  {
    RunKeepsInv(states, actions, j);
    if j > 0 {
      ClaimsAreMintedByInvocations(states, actions, j - 1, key);
      assert states[j] == Step(states[j - 1], actions[j - 1]);
    }
  }

  /** Crashing right after the claim is committed orphans it, so every later retry is in vain. */
  lemma CrashAfterClaimOrphans(s: State, id: Pid)
    requires Inv(s) && id in s.procs && s.procs[id].pc.ClaimWrite? && !s.procs[id].hook
    requires s.procs[id].pc.snap == s.file && Unposted(s.issues, s.procs[id].key)
    ensures var accepted := Respond(id, Reply(200, true, 0, 0, "", None));
            && Enabled(s, accepted)
            && Orphaned(Step(Step(s, accepted), Crash(id)), s.procs[id].key)
  {
    var p := s.procs[id];
    assert ProcInv(s, id, p) && ProposalOk(p);
    var accepted := Respond(id, Reply(200, true, 0, 0, "", None));
    WriteFrames(s, accepted);
    StepKeepsLog(s, accepted);
    FindKeyStable(Records(s.file), p.pc.proposed, p.key);
    UnpostedIsUnlinked(s, p.key);
  }

  // ------------------------------- a listing error that really opens a second issue

  lemma {:induction false} LabelsToScan(s: State, t: State, id: Pid, key: Key) returns (u: State)
    requires At(s, t, id, key) && t.procs[id].pc.EnsureLabel?
    ensures At(s, u, id, key) && u.procs[id].pc == OpenScan(t.procs[id].pc.token, 0)
    ensures u.issues == t.issues && u.procs.Keys == t.procs.Keys
    decreases t.procs[id].pc.left
  {
    hide Inv, Reaches;
    u := Answered(s, t, id, key, Reply(201, false, 0, 0, "", None));
    if u.procs[id].pc.EnsureLabel? {
      u := LabelsToScan(s, u, id, key);
    }
  }

  lemma ClaimToScan(s: State, t: State, id: Pid, key: Key) returns (u: State)
    requires At(s, t, id, key) && t.procs[id].pc == ClaimRead(0) && Recorded(t.file, key)
    requires Line(t.file, key).issue.None? && Line(t.file, key).claim.None?
    ensures At(s, u, id, key) && u.procs[id].pc.OpenScan? && u.procs[id].pc.page == 0
    ensures u.issues == t.issues && u.procs.Keys == t.procs.Keys
  {
    hide Inv, Reaches;
    var token := FreshToken(t.minted.Keys);
    var v := Answered(s, t, id, key, Reply(200, false, token, 0, "", None));
    v := WriteAccepted(s, v, id, key);
    u := LabelsToScan(s, v, id, key);
  }

  lemma StartReading(s: State, t: State, id: Pid, key: Key) returns (u: State)
    requires Inv(t) && Reaches(s, t) && id !in t.procs
    ensures At(s, u, id, key) && u.procs[id].pc == RecordRead(0)
    ensures u.file == t.file && u.issues == t.issues && u.procs.Keys == t.procs.Keys + {id}
  {
    hide Inv, Reaches;
    ReachesMore(s, t, StartFiling(id, key, ""));
    StepKeepsInv(t, StartFiling(id, key, ""));
    u := Step(t, StartFiling(id, key, ""));
  }

  lemma CommitReport(s: State, t: State, id: Pid, key: Key) returns (u: State)
    requires At(s, t, id, key) && t.procs[id].pc.RecordWrite? && t.procs[id].pc.snap == t.file
    ensures At(s, u, id, key) && u.procs[id].pc == ClaimRead(0) && u.issues == t.issues && u.procs.Keys == t.procs.Keys
    ensures Recorded(u.file, key) && Line(u.file, key).issue.None? && Line(u.file, key).claim.None?
  {
    hide Inv, Reaches;
    InvAt(t, id);
    u := WriteAccepted(s, t, id, key);
    assert Records(u.file)[|Records(u.file)| - 1].key == Some(key);
  }

  lemma StartToScan(s: State, t: State, id: Pid, key: Key) returns (u: State)
    requires Inv(t) && Reaches(s, t) && id !in t.procs
    requires Recorded(t.file, key) ==> Line(t.file, key).issue.None? && Line(t.file, key).claim.None?
    ensures At(s, u, id, key) && u.procs[id].pc.OpenScan? && u.procs[id].pc.page == 0
    ensures u.issues == t.issues && u.procs.Keys == t.procs.Keys + {id}
  {
    hide Inv, Reaches;
    var v := StartReading(s, t, id, key);
    v := Answered(s, v, id, key, Reply(200, false, 0, 0, "", None));
    if v.procs[id].pc.RecordWrite? {
      v := CommitReport(s, v, id, key);
    }
    u := ClaimToScan(s, v, id, key);
  }

  lemma ReleaseClaim(s: State, t: State, id: Pid, key: Key) returns (u: State)
    requires At(s, t, id, key) && t.procs[id].pc.ReleaseRead? && Recorded(t.file, key)
    requires Line(t.file, key).issue.None? && Line(t.file, key).claim == Some(t.procs[id].pc.token)
    ensures At(s, u, id, key) && u.issues == t.issues && u.procs.Keys == t.procs.Keys
    ensures Recorded(u.file, key) && Line(u.file, key).issue.None? && Line(u.file, key).claim.None?
  {
    hide Inv, Reaches;
    var v := Answered(s, t, id, key, Reply(200, false, 0, 0, "", None));
    assert v.procs[id].pc.proposed == ReleaseEdit(Records(t.file), FindKey(Records(t.file), key).value);
    FindKeyStable(Records(t.file), v.procs[id].pc.proposed, key);
    u := WriteAccepted(s, v, id, key);
  }

  /** A creation takes effect, its answer is lost, and the invocation releases its claim. */
  lemma LoseCreation(s: State, t: State, id: Pid, key: Key, number: nat) returns (u: State)
    requires At(s, t, id, key) && t.procs[id].pc.Post? && NewNumber(t.issues, number) && Unposted(t.issues, key)
    ensures At(s, u, id, key) && u.procs.Keys == t.procs.Keys
    ensures u.issues == [Issue(number, Some(key), "")] + t.issues
    ensures Recorded(u.file, key) && Line(u.file, key).issue.None? && Line(u.file, key).claim.None?
  {
    hide Reaches;
    InvAt(t, id);
    UnpostedIsUnlinked(t, key);
    var v := Answered(s, t, id, key, Reply(502, true, 0, number, "", None));
    u := ReleaseClaim(s, v, id, key);
  }

  lemma ScanOfNothingPosts(s: State, t: State, id: Pid, key: Key) returns (u: State)
    requires At(s, t, id, key) && t.procs[id].pc.OpenScan? && t.issues == []
    ensures At(s, u, id, key) && u.procs[id].pc.Post? && u.issues == [] && u.procs.Keys == t.procs.Keys
  {
    hide Inv, Reaches;
    u := Answered(s, t, id, key, Reply(200, false, 0, 0, "", None));
  }

  lemma ErrorThenPostDuplicates(s: State, u: State, id: Pid, error: Reply, created: Reply)
    requires At(s, u, id, "k") && u.procs[id].pc.OpenScan? && u.issues == [Issue(1, Some("k"), "")]
    requires error == Reply(404, false, 0, 0, "", None) && created == Reply(201, true, 0, 2, "", None)
    ensures ListingErrorThenPost(u, id, error, created)
    ensures !AtMostOnePerKey(Step(Step(u, Respond(id, error)), Respond(id, created)).issues)
  {
    assert u.issues[0].key == Some("k");
    ListingErrorIsSafeIffUnposted(u, id, error, created);
  }

  /** A run in which one listing answers 404 and the same report gets a second issue. */
  lemma ListingErrorOpensASecondIssue(s: State, error: Reply, created: Reply) returns (u: State)
    requires s == State(Absent, [], map[], map[])
    requires error == Reply(404, false, 0, 0, "", None) && created == Reply(201, true, 0, 2, "", None)
    ensures Initial(s) && Reaches(s, u) && Inv(u) && ListingErrorThenPost(u, 1, error, created)
    ensures !AtMostOnePerKey(Step(Step(u, Respond(1, error)), Respond(1, created)).issues)
  {
    hide Inv, Reaches, ListingErrorThenPost, AtMostOnePerKey, Step;
    EmptyStateIsInv(s);
    ReachesItself(s);
    var t := StartToScan(s, s, 0, "k");
    t := ScanOfNothingPosts(s, t, 0, "k");
    t := LoseCreation(s, t, 0, "k", 1);
    u := StartToScan(s, t, 1, "k");
    assert u.issues == [Issue(1, Some("k"), "")];
    ErrorThenPostDuplicates(s, u, 1, error, created);
  }

  // ------------------------------------------- a crash that really orphans a claim

  lemma ReachesTwo(s: State, t: State, a: Action, b: Action)
    requires Reaches(s, t) && Enabled(t, a) && HonestListing(t, a)
    requires Enabled(Step(t, a), b) && HonestListing(Step(t, a), b)
    ensures Reaches(s, Step(Step(t, a), b))
  {
    hide Reaches, Step, Enabled, HonestListing;
    ReachesMore(s, t, a);
    ReachesMore(s, Step(t, a), b);
  }

  lemma NeverLinkedAfterOrphaned(s: State, key: Key)
    requires Inv(s) && Orphaned(s, key)
    ensures forall t :: MayReach(s, t) ==> !Linked(t, key)
  {
    hide Inv, Step, Enabled;
    forall t | MayReach(s, t)
      ensures !Linked(t, key)
    {
      var later, more :| Run(later, more) && later[0] == s && later[|later| - 1] == t;
      OrphanForever(later, more, 0, |later| - 1, key);
    }
  }

  /** From the empty state, the first report of all is recorded and about to be claimed. */
  lemma FirstReportToClaim(s: State) returns (t: State)
    requires s == State(Absent, [], map[], map[])
    ensures Initial(s) && At(s, t, 0, "k") && t.procs.Keys == {0} && t.issues == []
    ensures t.procs[0].pc.ClaimWrite? && t.procs[0].pc.snap == t.file
  {
    hide Inv, Reaches;
    EmptyStateIsInv(s);
    ReachesItself(s);
    t := StartReading(s, s, 0, "k");
    t := Answered(s, t, 0, "k", Reply(200, false, 0, 0, "", None));
    t := CommitReport(s, t, 0, "k");
    var token := FreshToken(t.minted.Keys);
    t := Answered(s, t, 0, "k", Reply(200, false, token, 0, "", None));
  }

  lemma EmptyStateIsInv(s: State)
    requires s == State(Absent, [], map[], map[])
    ensures Inv(s)
  {
  }

  /** The first report of all is claimed, its invocation dies, and no run links it any more. */
  lemma CrashOrphansFirstReport(s: State) returns (u: State)
    requires s == State(Absent, [], map[], map[])
    ensures Initial(s) && Reaches(s, u) && Quiet(u) && Orphaned(u, "k")
    ensures forall later :: MayReach(u, later) ==> !Linked(later, "k")
  {
    hide Inv, Orphaned, Reaches, MayReach, NextPc, Linked;
    var t := FirstReportToClaim(s);
    CrashAfterClaimOrphans(t, 0);
    var accepted := Respond(0, Reply(200, true, 0, 0, "", None));
    ReachesTwo(s, t, accepted, Crash(0));
    StepKeepsInv(t, accepted);
    u := Step(Step(t, accepted), Crash(0));
    StepKeepsInv(Step(t, accepted), Crash(0));
    NeverLinkedAfterOrphaned(u, "k");
  }
}
