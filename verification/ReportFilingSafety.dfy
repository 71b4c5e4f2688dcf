/**
 What every run of the report filing protocol keeps: the file is an append-only log, a claim is
 held by one invocation, and no report gets a second issue.
 */
module ReportFilingSafety {
  import opened Wrappers
  import opened ReportFiling

  // ------------------------------------------------------------ the file as a log

  ghost predicate Numbered(rs: seq<Record>) {
    forall i :: 0 <= i < |rs| ==> rs[i].number == i + 1
  }

  ghost predicate DistinctKeys(rs: seq<Record>) {
    forall i, j :: 0 <= i < j < |rs| && rs[i].key.Some? ==> rs[i].key != rs[j].key
  }

  /** A line keeps what the player sent, and its issue number once it has one. */
  ghost predicate Keeps(before: Record, after: Record) {
    && after.number == before.number
    && after.key == before.key
    && after.intake == before.intake
    && (before.issue.Some? ==> after.issue == before.issue)
  }

  ghost predicate LogExtends(before: seq<Record>, after: seq<Record>) {
    |before| <= |after| && forall i :: 0 <= i < |before| ==> Keeps(before[i], after[i])
  }

  /** Exactly one line is new, or exactly one line differs. */
  ghost predicate OneEdit(before: seq<Record>, after: seq<Record>) {
    || (|after| == |before| + 1 && after[..|before|] == before)
    || (|after| == |before| && exists i :: 0 <= i < |before| && after[i] != before[i] && after == before[i := after[i]])
  }

  /** The step is a PUT that takes effect. */
  predicate Writes(s: State, a: Action) {
    a.Respond? && a.id in s.procs && Writing(s.procs[a.id].pc) && a.reply.applied
  }

  /** What an invocation is about to write is one edit of the snapshot it read. */
  ghost predicate ProposalOk(p: Proc) {
    Writing(p.pc) ==>
      var rs := Records(p.pc.snap);
      var found := FindKey(rs, p.key);
      match p.pc
      case RecordWrite(_, _, proposed) => found.None? && proposed == RecordEdit(rs, p.key, p.intake)
      case ClaimWrite(_, _, proposed, token) =>
        found.Some? && rs[found.value].issue.None? && rs[found.value].claim.None?
        && proposed == ClaimEdit(rs, found.value, token)
      case ReleaseWrite(_, token, _, _, proposed) =>
        found.Some? && rs[found.value].claim == Some(token) && proposed == ReleaseEdit(rs, found.value)
      case AttachWrite(_, issue, _, proposed) =>
        found.Some? && rs[found.value].issue.None? && proposed == AttachEdit(rs, found.value, issue)
      case SyncWrite(_, number, url, seen, _, proposed) =>
        var hit := FindSync(rs, number);
        && hit.Some? && proposed == SyncEdit(rs, hit.value, number, url, seen)
        && (rs[hit.value].status != seen || Legacy(rs[hit.value], number))
  }

  ghost predicate LogInv(s: State) {
    && Numbered(Records(s.file))
    && DistinctKeys(Records(s.file))
    && forall id :: id in s.procs ==> ProposalOk(s.procs[id])
  }

  lemma NextPcProposal(s: State, p: Proc, r: Reply)
    requires !Halted(p.pc)
    ensures ProposalOk(p.(pc := NextPc(s, p, r)))
  {
    hide FindKey, FindSync, FindMarker, Page;
  }

  lemma ProposalKeepsLog(p: Proc)
    requires Writing(p.pc) && ProposalOk(p)
    requires Numbered(Records(p.pc.snap)) && DistinctKeys(Records(p.pc.snap))
    ensures Numbered(p.pc.proposed) && DistinctKeys(p.pc.proposed)
    ensures OneEdit(Records(p.pc.snap), p.pc.proposed)
    ensures LogExtends(Records(p.pc.snap), p.pc.proposed)
  {
  }

  /** A write that takes effect adds or changes exactly one line, nothing else touches the file, and the log stays well formed. */
  lemma StepKeepsLog(s: State, a: Action)
    requires LogInv(s) && Enabled(s, a)
    ensures LogInv(Step(s, a))
    ensures if Writes(s, a) then OneEdit(Records(s.file), Records(Step(s, a).file)) else Step(s, a).file == s.file
    ensures LogExtends(Records(s.file), Records(Step(s, a).file))
  {
    if a.Respond? {
      var p := s.procs[a.id];
      NextPcProposal(s, p, a.reply);
      if Writing(p.pc) && a.reply.applied {
        ProposalKeepsLog(p);
      }
    }
  }

  lemma EmptyLogInv(s: State)
    requires Initial(s)
    ensures LogInv(s)
  {
  }

  lemma {:induction false} RunKeepsLog(states: seq<State>, actions: seq<Action>, i: nat, j: nat)
    requires Run(states, actions) && Initial(states[0]) && i <= j < |states|
    ensures LogInv(states[j])
    ensures LogExtends(Records(states[i].file), Records(states[j].file))
    decreases j
  {
    hide Step, LogInv, OneEdit, Enabled;
    if j == 0 {
      EmptyLogInv(states[0]);
    } else {
      RunKeepsLog(states, actions, if i < j then i else j - 1, j - 1);
      StepKeepsLog(states[j - 1], actions[j - 1]);
    }
  }

  // --------------------------------------------------------- claims and issues

  ghost predicate Listed(issues: seq<Issue>, number: nat, key: Key) {
    exists j :: 0 <= j < |issues| && issues[j].number == number && issues[j].key == Some(key)
  }

  /** No issue from this position of the list on carries the key before `from`. */
  ghost predicate NoneBefore(issues: seq<Issue>, key: Key, from: nat) {
    forall j :: 0 <= j < |issues| && issues[j].key == Some(key) ==> from <= j
  }

  ghost predicate Unposted(issues: seq<Issue>, key: Key) {
    forall j :: 0 <= j < |issues| ==> issues[j].key != Some(key)
  }

  ghost predicate AtMostOnePerKey(issues: seq<Issue>) {
    forall i, j :: 0 <= i < j < |issues| && issues[i].key.Some? ==> issues[i].key != issues[j].key
  }

  ghost predicate Recorded(f: File, key: Key) {
    FindKey(Records(f), key).Some?
  }

  ghost function Line(f: File, key: Key): Record
    requires Recorded(f, key)
  {
    Records(f)[FindKey(Records(f), key).value]
  }

  ghost predicate Linked(s: State, key: Key) {
    Recorded(s.file, key) && Line(s.file, key).issue.Some?
    && Listed(s.issues, Line(s.file, key).issue.value, key)
  }

  ghost predicate Mine(s: State, id: Pid, token: Token) {
    token in s.minted && s.minted[token] == id
  }

  ghost predicate Unwritten(f: File, token: Token) {
    forall i :: 0 <= i < |Records(f)| ==> Records(f)[i].claim != Some(token)
  }

  /** The file's claim on this report is ours, or somebody already linked the report. */
  ghost predicate Holds(s: State, id: Pid, key: Key, token: Token) {
    Mine(s, id, token) && Recorded(s.file, key)
    && (Line(s.file, key).issue.Some? || Line(s.file, key).claim == Some(token))
  }

  ghost predicate FileInv(s: State) {
    forall i :: 0 <= i < |Records(s.file)| ==>
      var r := Records(s.file)[i];
      && (r.claim.Some? ==> r.key.Some? && r.issue.None? && r.claim.value in s.minted)
      && (r.key.Some? && r.issue.Some? ==> Listed(s.issues, r.issue.value, r.key.value))
  }

  ghost predicate ProcInv(s: State, id: Pid, p: Proc) {
    && (p.hook ==> p.pc.SyncRead? || p.pc.SyncWrite? || p.pc.Done? || p.pc.Crashed?)
    && (!p.hook ==>
          match p.pc
          case RecordRead(_) => true
          case RecordWrite(_, _, _) => true
          case ClaimRead(_) => Recorded(s.file, p.key)
          case ClaimWrite(_, _, _, token) => Recorded(s.file, p.key) && Mine(s, id, token) && Unwritten(s.file, token)
          case EnsureLabel(token, _) => Holds(s, id, p.key, token)
          case OpenScan(token, _) => Holds(s, id, p.key, token)
          case Post(token) => Holds(s, id, p.key, token)
          case ReleaseRead(_, token, _) => Recorded(s.file, p.key) && Mine(s, id, token)
          case ReleaseWrite(_, token, _, _, _) => Recorded(s.file, p.key) && Mine(s, id, token)
          case FindScan(_) => Recorded(s.file, p.key)
          case AttachRead(_, found) =>
            Recorded(s.file, p.key) && (found.Some? ==> Listed(s.issues, found.value.number, p.key))
          case AttachWrite(_, issue, _, _) => Recorded(s.file, p.key) && Listed(s.issues, issue.number, p.key)
          case Refresh(_) => Linked(s, p.key)
          case SyncRead(_, _, _, _) => Linked(s, p.key)
          case SyncWrite(_, _, _, _, _, _) => Linked(s, p.key)
          case Done(answer, exit) =>
            && (exit == AtRefresh ==> Linked(s, p.key))
            && (answer == 202 ==> exit == AtRefresh || exit == AtOpen)
          case Crashed => true)
  }

  /** What every step keeps, whatever GitHub answers. */
  ghost predicate Inv(s: State) {
    && LogInv(s)
    && FileInv(s)
    && forall id :: id in s.procs ==> ProcInv(s, id, s.procs[id])
  }

  /** What the invocation's search of the issues has shown so far. */
  ghost predicate Searched(s: State, p: Proc) {
    && (p.pc.OpenScan? ==> NoneBefore(s.issues, p.key, PER_PAGE * p.pc.page))
    && (p.pc.Post? ==> Unposted(s.issues, p.key))
  }

  /** No report has two issues, and every search can be relied on, except those of the misled invocations. */
  ghost predicate Single(s: State, misled: set<Pid>) {
    && AtMostOnePerKey(s.issues)
    && forall id :: id in s.procs && id !in misled ==> Searched(s, s.procs[id])
  }

  /**
   A page fetch of the claim holder that answers 404 is taken for "no such issue". The step is
   harmless exactly when that is the truth.
   */
  ghost predicate HonestListing(s: State, a: Action) {
    a.Respond? && a.id in s.procs && s.procs[a.id].pc.OpenScan? && a.reply.answer == 404
    ==> Unposted(s.issues, s.procs[a.id].key)
  }

  lemma FindKeyStable(before: seq<Record>, after: seq<Record>, key: Key)
    requires LogExtends(before, after) && FindKey(before, key).Some?
    ensures FindKey(after, key) == FindKey(before, key)
  {
    var i := FindKey(before, key).value;
    assert Keeps(before[i], after[i]);
    assert forall j :: 0 <= j < i ==> Keeps(before[j], after[j]);
  }

  /** The invocation whose step this is; nobody for a step of the environment. */
  ghost function Actor(a: Action): Option<Pid> {
    if a.Foreign? then None else Some(a.id)
  }

  ghost predicate Owns(s: State, actor: Option<Pid>, token: Token) {
    actor.Some? && Mine(s, actor.value, token)
  }

  ghost predicate Posts(s: State, actor: Option<Pid>, key: Key) {
    actor.Some? && actor.value in s.procs && s.procs[actor.value].pc.Post? && s.procs[actor.value].key == key
  }

  /** Everything one step may do to what the other invocations rely on. */
  ghost predicate Frame(s: State, t: State, actor: Option<Pid>) {
    var before, after := Records(s.file), Records(t.file);
    && LogExtends(before, after)
    && (forall tk :: tk in s.minted ==> tk in t.minted && t.minted[tk] == s.minted[tk])
    && (forall i :: 0 <= i < |before| && before[i].claim.Some? && !Owns(s, actor, before[i].claim.value) ==>
          after[i].claim == before[i].claim || after[i].issue.Some?)
    && (forall tk :: tk in s.minted && !Owns(s, actor, tk) && Unwritten(s.file, tk) ==> Unwritten(t.file, tk))
    && (forall n: nat, k :: Listed(s.issues, n, k) ==> Listed(t.issues, n, k))
  }

  /** The markers of the new list, except the one this step posted, only moved down. */
  ghost predicate Shifts(s: State, t: State, actor: Option<Pid>) {
    && (forall k: Key, n: nat :: NoneBefore(s.issues, k, n) && !Posts(s, actor, k) ==> NoneBefore(t.issues, k, n))
    && (forall k: Key :: Unposted(s.issues, k) && !Posts(s, actor, k) ==> Unposted(t.issues, k))
  }

  lemma LinkedStable(s: State, t: State, actor: Option<Pid>, key: Key)
    requires Frame(s, t, actor) && Recorded(s.file, key)
    ensures Recorded(t.file, key)
    ensures Line(s.file, key).issue.Some? ==> Line(t.file, key).issue == Line(s.file, key).issue
    ensures Linked(s, key) ==> Linked(t, key)
  {
    FindKeyStable(Records(s.file), Records(t.file), key);
    var i := FindKey(Records(s.file), key).value;
    assert Keeps(Records(s.file)[i], Records(t.file)[i]);
  }

  lemma HoldsStable(s: State, t: State, actor: Option<Pid>, q: Pid, key: Key, token: Token)
    requires FileInv(s) && Frame(s, t, actor) && actor != Some(q) && Holds(s, q, key, token)
    ensures Holds(t, q, key, token)
  {
    LinkedStable(s, t, actor, key);
    FindKeyStable(Records(s.file), Records(t.file), key);
  }

  /** Two invocations cannot both hold the claim of an unlinked report. */
  lemma HolderIsUnique(s: State, id: Pid, q: Pid, key: Key, mine: Token, other: Token)
    requires Holds(s, id, key, mine) && Holds(s, q, key, other) && Line(s.file, key).issue.None?
    ensures id == q
  {
  }

  lemma OthersKeep(s: State, t: State, actor: Option<Pid>, q: Pid)
    requires Inv(s) && Frame(s, t, actor) && FileInv(t)
    requires q in s.procs && actor != Some(q)
    ensures ProcInv(t, q, s.procs[q])
  {
    var p := s.procs[q];
    assert ProcInv(s, q, p);
    if !p.hook && Recorded(s.file, p.key) {
      LinkedStable(s, t, actor, p.key);
    }
    if !p.hook && (p.pc.EnsureLabel? || p.pc.OpenScan? || p.pc.Post?) {
      HoldsStable(s, t, actor, q, p.key, p.pc.token);
    }
  }

  // ------------------------------------------------------------------- one step

  lemma IssuesOnlyMove(s: State, a: Action)
    requires Inv(s) && Enabled(s, a)
    ensures Shifts(s, Step(s, a), Actor(a))
    ensures forall n: nat, k :: Listed(s.issues, n, k) ==> Listed(Step(s, a).issues, n, k)
  {
    hide NextPc, FindKey, FindSync, FindMarker, Page, LogInv, FileInv, ProcInv, AtMostOnePerKey;
    var t := Step(s, a);
    forall n: nat, k | Listed(s.issues, n, k)
      ensures Listed(t.issues, n, k)
    {
      var j :| 0 <= j < |s.issues| && s.issues[j].number == n && s.issues[j].key == Some(k);
      if t.issues != s.issues {
        var shifted := if a.Foreign? && j < a.at then j else j + 1;
        assert t.issues[shifted] == s.issues[j];
      }
    }
  }

  /** A write over the current file changes no claim but its own, unless it links the line. */
  lemma WriteTouchesOwnClaims(s: State, id: Pid)
    requires FileInv(s) && id in s.procs && Writing(s.procs[id].pc) && s.procs[id].pc.snap == s.file
    requires ProposalOk(s.procs[id]) && ProcInv(s, id, s.procs[id])
    ensures var before, after := Records(s.file), s.procs[id].pc.proposed;
            && |before| <= |after|
            && (forall i :: 0 <= i < |before| && before[i].claim.Some? && !Mine(s, id, before[i].claim.value) ==>
                  after[i].claim == before[i].claim || after[i].issue.Some?)
            && (forall tk :: tk in s.minted && !Mine(s, id, tk) && Unwritten(s.file, tk) ==> Unwritten(Committed(after), tk))
  {
    hide FindKey, FindSync, Listed;
  }

  lemma MintedGrows(s: State, a: Action)
    requires Enabled(s, a)
    ensures forall tk :: tk in s.minted ==> tk in Step(s, a).minted && Step(s, a).minted[tk] == s.minted[tk]
  {
    hide FindKey, FindSync, FindMarker, Page;
  }

  lemma InvAt(s: State, id: Pid)
    requires Inv(s) && id in s.procs
    ensures ProposalOk(s.procs[id]) && ProcInv(s, id, s.procs[id])
  {
  }

  lemma WriteFrames(s: State, a: Action)
    requires Inv(s) && Enabled(s, a)
    ensures Frame(s, Step(s, a), Actor(a))
  {
    hide LogInv, FindKey, FindSync, OneEdit, Shifts, Listed, NextPc, AtMostOnePerKey;
    StepKeepsLog(s, a);
    IssuesOnlyMove(s, a);
    MintedGrows(s, a);
    if a.Respond? {
      InvAt(s, a.id);
      if Writing(s.procs[a.id].pc) && a.reply.applied {
        WriteTouchesOwnClaims(s, a.id);
      }
    }
  }

  /** A proposal over the current file claims with a minted token and links only listed issues. */
  lemma ProposalKeepsFileInv(s: State, id: Pid)
    requires FileInv(s) && id in s.procs && Writing(s.procs[id].pc) && s.procs[id].pc.snap == s.file
    requires ProposalOk(s.procs[id]) && ProcInv(s, id, s.procs[id])
    ensures FileInv(s.(file := Committed(s.procs[id].pc.proposed)))
  {
    hide FindKey, FindSync, Listed;
  }

  lemma FileInvGrows(s: State, t: State)
    requires FileInv(s) && t.file == s.file
    requires forall tk :: tk in s.minted ==> tk in t.minted
    requires forall n: nat, k :: Listed(s.issues, n, k) ==> Listed(t.issues, n, k)
    ensures FileInv(t)
  {
    hide Listed;
  }

  lemma FileInvKept(s: State, a: Action)
    requires Inv(s) && Enabled(s, a)
    ensures FileInv(Step(s, a))
  {
    hide FindKey, FindSync, FindMarker, Page, NextPc, LogInv, AtMostOnePerKey, FileInv, ProcInv, Shifts, Listed;
    var t := Step(s, a);
    IssuesOnlyMove(s, a);
    MintedGrows(s, a);
    if t.file != s.file {
      InvAt(s, a.id);
      ProposalKeepsFileInv(s, a.id);
    }
    FileInvGrows(s.(file := t.file), t);
  }

  /** A page that holds no marker moves the searched prefix of the list one page on. */
  lemma PageSearched(issues: seq<Issue>, key: Key, page: nat)
    requires NoneBefore(issues, key, PER_PAGE * page) && FindMarker(Page(issues, page), key).None?
    ensures NoneBefore(issues, key, PER_PAGE * (page + 1))
    ensures |Page(issues, page)| < PER_PAGE ==> Unposted(issues, key)
  {
    var lo := Min(PER_PAGE * page, |issues|);
    forall j | lo <= j < Min(PER_PAGE * (page + 1), |issues|)
      ensures issues[j].key != Some(key)
    {
      assert Page(issues, page)[j - lo] == issues[j];
    }
  }

  lemma FoundIsListed(issues: seq<Issue>, key: Key, page: nat)
    requires FindMarker(Page(issues, page), key).Some?
    ensures Listed(issues, FindMarker(Page(issues, page), key).value.number, key)
  {
    hide FindMarker;
    var found := FindMarker(Page(issues, page), key).value;
    var j :| 0 <= j < |Page(issues, page)| && Page(issues, page)[j] == found;
    assert issues[Min(PER_PAGE * page, |issues|) + j] == found;
  }

  /** A linked report has an issue, so an unposted one is unlinked. */
  lemma UnpostedIsUnlinked(s: State, key: Key)
    requires FileInv(s) && Recorded(s.file, key) && Unposted(s.issues, key)
    ensures Line(s.file, key).issue.None?
  {
    var i := FindKey(Records(s.file), key).value;
    assert Records(s.file)[i].key == Some(key);
  }

  lemma OpenScanKeepsInv(s: State, id: Pid, r: Reply)
    requires Inv(s) && CanReply(s, id, r) && s.procs[id].pc.OpenScan?
    ensures ProcInv(Step(s, Respond(id, r)), id, s.procs[id].(pc := NextPc(s, s.procs[id], r)))
  {
    hide FindKey, FindSync, FindMarker, Page;
    var p := s.procs[id];
    var t := Step(s, Respond(id, r));
    assert ProcInv(s, id, p);
    assert t.file == s.file && t.issues == s.issues && t.minted == s.minted;
    if FindMarker(Page(s.issues, p.pc.page), p.key).Some? {
      FoundIsListed(s.issues, p.key, p.pc.page);
    }
  }

  lemma FindScanKeepsInv(s: State, id: Pid, r: Reply)
    requires Inv(s) && CanReply(s, id, r) && s.procs[id].pc.FindScan?
    ensures ProcInv(Step(s, Respond(id, r)), id, s.procs[id].(pc := NextPc(s, s.procs[id], r)))
  {
    hide FindKey, FindSync, FindMarker, Page;
    var p := s.procs[id];
    assert ProcInv(s, id, p);
    if FindMarker(Page(s.issues, p.pc.page), p.key).Some? {
      FoundIsListed(s.issues, p.key, p.pc.page);
    }
  }

  lemma WriteKeepsInv(s: State, id: Pid, r: Reply)
    requires Inv(s) && CanReply(s, id, r) && Writing(s.procs[id].pc)
    ensures ProcInv(Step(s, Respond(id, r)), id, s.procs[id].(pc := NextPc(s, s.procs[id], r)))
  {
    hide FindKey, FindSync, FindMarker, Page, AtMostOnePerKey, OneEdit, Shifts, Frame;
    var p := s.procs[id];
    var a := Respond(id, r);
    var t := Step(s, a);
    assert ProcInv(s, id, p) && ProposalOk(p);
    WriteFrames(s, a);
    StepKeepsLog(s, a);
    if !p.hook && Recorded(s.file, p.key) {
      LinkedStable(s, t, Some(id), p.key);
      FindKeyStable(Records(s.file), Records(t.file), p.key);
    } else if p.pc.RecordWrite? {
      assert p.pc.proposed[|p.pc.proposed| - 1].key == Some(p.key);
    }
  }

  lemma PostKeepsInv(s: State, id: Pid, r: Reply)
    requires Inv(s) && CanReply(s, id, r) && s.procs[id].pc.Post?
    ensures ProcInv(Step(s, Respond(id, r)), id, s.procs[id].(pc := NextPc(s, s.procs[id], r)))
  {
    var p := s.procs[id];
    assert ProcInv(s, id, p);
    var t := Step(s, Respond(id, r));
    if r.answer == 201 {
      assert t.issues[0] == Created(p, r);
      assert Listed(t.issues, r.number, p.key);
    }
  }

  lemma LocalKeepsInv(s: State, id: Pid, r: Reply)
    requires Inv(s) && CanReply(s, id, r)
    requires !Writing(s.procs[id].pc) && !s.procs[id].pc.Post? && !s.procs[id].pc.OpenScan? && !s.procs[id].pc.FindScan?
    ensures ProcInv(Step(s, Respond(id, r)), id, s.procs[id].(pc := NextPc(s, s.procs[id], r)))
  {
    hide FindKey, FindSync, FindMarker, Page;
    var p := s.procs[id];
    assert ProcInv(s, id, p);
    assert FileInv(s);
    var t := Step(s, Respond(id, r));
    assert t.file == s.file && t.issues == s.issues;
  }

  /** Every step keeps the invariant, however the invocations interleave and whatever GitHub answers. */
  lemma StepKeepsInv(s: State, a: Action)
    requires Inv(s) && Enabled(s, a)
    ensures Inv(Step(s, a))
  {
    var t := Step(s, a);
    StepKeepsLog(s, a);
    WriteFrames(s, a);
    FileInvKept(s, a);
    if a.Respond? {
      var pc := s.procs[a.id].pc;
      if Writing(pc) {
        WriteKeepsInv(s, a.id, a.reply);
      } else if pc.Post? {
        PostKeepsInv(s, a.id, a.reply);
      } else if pc.OpenScan? {
        OpenScanKeepsInv(s, a.id, a.reply);
      } else if pc.FindScan? {
        FindScanKeepsInv(s, a.id, a.reply);
      } else {
        LocalKeepsInv(s, a.id, a.reply);
      }
    }
    forall q | q in t.procs
      ensures ProcInv(t, q, t.procs[q])
    {
      if Actor(a) != Some(q) {
        OthersKeep(s, t, Actor(a), q);
      }
    }
  }

  lemma EmptyInv(s: State)
    requires Initial(s)
    ensures Inv(s) && Single(s, {})
  {
    EmptyLogInv(s);
  }

  lemma {:induction false} RunKeepsInv(states: seq<State>, actions: seq<Action>, j: nat)
    requires Run(states, actions) && Initial(states[0]) && j < |states|
    ensures Inv(states[j])
    decreases j
  {
    EmptyInv(states[0]);
    RunKeepsInvFrom(states, actions, 0, j);
  }

  lemma {:induction false} RunKeepsInvFrom(states: seq<State>, actions: seq<Action>, i: nat, j: nat)
    requires Run(states, actions) && i <= j < |states| && Inv(states[i])
    ensures Inv(states[j])
    decreases j
  {
    hide Inv, Step, Enabled;
    if i < j {
      RunKeepsInvFrom(states, actions, i, j - 1);
      StepKeepsInv(states[j - 1], actions[j - 1]);
    }
  }

  // ------------------------------------------------- what an honest listing keeps

  /** The step is this invocation's creation, and it takes effect. */
  ghost predicate Creates(s: State, a: Action, id: Pid) {
    a.Respond? && a.id == id && a.reply.applied && id in s.procs && s.procs[id].pc.Post?
  }

  /** A creation by an invocation that was not misled finds no issue of the report. */
  lemma OthersSearched(s: State, a: Action, misled: set<Pid>, q: Pid)
    requires Inv(s) && Single(s, misled) && Enabled(s, a) && q in s.procs && q !in misled && Actor(a) != Some(q)
    requires forall id :: id in misled ==> !Creates(s, a, id)
    ensures Searched(Step(s, a), s.procs[q])
  {
    hide NextPc, LogInv, FindKey, FindSync;
    var t := Step(s, a);
    var p := s.procs[q];
    IssuesOnlyMove(s, a);
    if t.issues != s.issues && Posts(s, Actor(a), p.key) && (p.pc.OpenScan? || p.pc.Post?) {
      var other := s.procs[a.id];
      assert ProcInv(s, a.id, other) && ProcInv(s, q, p);
      UnpostedIsUnlinked(s, p.key);
      HolderIsUnique(s, a.id, q, p.key, other.pc.token, p.pc.token);
    }
  }

  lemma OwnSearched(s: State, id: Pid, r: Reply, misled: set<Pid>)
    requires Inv(s) && Single(s, misled) && CanReply(s, id, r) && id !in misled && HonestListing(s, Respond(id, r))
    ensures Searched(Step(s, Respond(id, r)), s.procs[id].(pc := NextPc(s, s.procs[id], r)))
    ensures AtMostOnePerKey(Step(s, Respond(id, r)).issues)
  {
    hide FindKey, FindSync, FindMarker, Page, Inv;
    var p := s.procs[id];
    if p.pc.OpenScan? && FindMarker(Page(s.issues, p.pc.page), p.key).None? {
      PageSearched(s.issues, p.key, p.pc.page);
    }
  }

  lemma MisledKeepsIssues(s: State, a: Action, misled: set<Pid>)
    requires Single(s, misled) && Enabled(s, a)
    requires a.Respond? ==> a.id in misled && !Creates(s, a, a.id)
    ensures AtMostOnePerKey(Step(s, a).issues)
  {
    hide NextPc;
  }

  /** An honest step keeps one issue per report, and so does a misled invocation as long as it creates nothing. */
  lemma StepKeepsSingle(s: State, a: Action, misled: set<Pid>)
    requires Inv(s) && Single(s, misled) && Enabled(s, a)
    requires HonestListing(s, a) || a.id in misled
    requires forall id :: id in misled ==> !Creates(s, a, id)
    ensures Single(Step(s, a), misled)
  {
    hide Inv, Searched, AtMostOnePerKey, NextPc;
    var t := Step(s, a);
    if a.Respond? && a.id !in misled {
      OwnSearched(s, a.id, a.reply, misled);
    } else {
      MisledKeepsIssues(s, a, misled);
    }
    forall q | q in t.procs && q !in misled
      ensures Searched(t, t.procs[q])
    {
      if Actor(a) != Some(q) {
        OthersSearched(s, a, misled, q);
      } else if !a.Respond? {
        NotSearching(t, t.procs[q]);
      }
    }
  }

  lemma NotSearching(s: State, p: Proc)
    requires !p.pc.OpenScan? && !p.pc.Post?
    ensures Searched(s, p)
  {
  }

  /** No listing of the run answers 404 while an issue of that report exists. */
  ghost predicate HonestRun(states: seq<State>, actions: seq<Action>) {
    Run(states, actions) && forall i :: 0 <= i < |actions| ==> HonestListing(states[i], actions[i])
  }

  /** In an honest run nobody is misled. */
  lemma {:induction false} HonestRunKeepsSingle(states: seq<State>, actions: seq<Action>, j: nat)
    requires HonestRun(states, actions) && Initial(states[0]) && j < |states|
    ensures Inv(states[j]) && Single(states[j], {})
    decreases j
  {
    hide Inv, Single, Step, Enabled, HonestListing, Initial;
    if j == 0 {
      EmptyInv(states[0]);
    } else {
      HonestRunKeepsSingle(states, actions, j - 1);
      StepKeepsInv(states[j - 1], actions[j - 1]);
      StepKeepsSingle(states[j - 1], actions[j - 1], {});
    }
  }
}
