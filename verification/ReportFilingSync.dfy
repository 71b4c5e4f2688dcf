/**
 How the status of an issue reaches the file: what a signed webhook or the refresh after a filing
 writes, line by line, and that it does so whenever GitHub answers without errors.
 */
module ReportFilingSync {
  import opened Wrappers
  import opened ReportFiling
  import opened ReportFilingSafety
  import opened ReportFilingRetry

  /** A report that predates the integration, whose issue has the report's own number. */
  predicate Predates(r: Record, number: nat) {
    r.key == None && r.issue == None && r.number == number
  }

  /** The first line that belongs to the issue. */
  predicate FirstOf(rs: seq<Record>, number: nat, i: nat) {
    && i < |rs|
    && (rs[i].issue == Some(number) || Predates(rs[i], number))
    && forall j :: 0 <= j < i ==> rs[j].issue != Some(number) && !Predates(rs[j], number)
  }

  /** Line `i` has the status now, and the link if it had none; nothing else differs. */
  predicate Synced(before: seq<Record>, after: seq<Record>, i: nat, number: nat, url: string, seen: Status)
  {
    && i < |before| == |after|
    && (forall j :: 0 <= j < |before| && j != i ==> after[j] == before[j])
    && after[i].status == seen
    && after[i].number == before[i].number && after[i].key == before[i].key
    && after[i].intake == before[i].intake && after[i].claim == before[i].claim
    && if Predates(before[i], number) then after[i].issue == Some(number) && after[i].url == Some(url)
       else after[i].issue == before[i].issue && after[i].url == before[i].url
  }

  /** There is something to write: another status, or a link that is missing. */
  predicate OutOfDate(rs: seq<Record>, i: nat, number: nat, seen: Status) {
    i < |rs| && (rs[i].status != seen || Predates(rs[i], number))
  }

  /** What the invocation does once it has read the file: it writes exactly when that changes something. */
  lemma SyncReadDecides(s: State, p: Proc, r: Reply)
    requires p.pc.SyncRead?
    ensures var rs, next := Records(s.file), NextPc(s, p, r);
            var number, url, seen := p.pc.number, p.pc.url, p.pc.seen;
            && (r.answer != 200 ==> next == Done(r.answer, AtRefresh))
            && (r.answer == 200 && !next.SyncWrite? ==> next == Done(202, AtRefresh))
            && (r.answer == 200 ==>
                  (next.SyncWrite? <==> exists i: nat :: FirstOf(rs, number, i) && OutOfDate(rs, i, number, seen)))
            && (next.SyncWrite? ==>
                  && next.attempt == p.pc.attempt && next.snap == s.file
                  && next.number == number && next.url == url && next.seen == seen
                  && exists i: nat :: FirstOf(rs, number, i) && Synced(rs, next.proposed, i, number, url, seen))
  {
    hide FindSync, FirstOf;
    var rs := Records(s.file);
    var hit := FindSync(rs, p.pc.number);
    SyncHit(rs, p.pc.number);
    if r.answer == 200 && hit.Some? {
      assert OutOfDate(rs, hit.value, p.pc.number, p.pc.seen) <==> NextPc(s, p, r).SyncWrite?;
    }
  }

  lemma SyncHit(rs: seq<Record>, number: nat)
    ensures FindSync(rs, number).Some? ==> FirstOf(rs, number, FindSync(rs, number).value)
    ensures forall i: nat :: FirstOf(rs, number, i) ==> FindSync(rs, number) == Some(i)
    ensures forall i: nat :: FirstOf(rs, number, i) ==> i < |rs|
  {
    hide FindSync;
    forall i: nat | FirstOf(rs, number, i)
      ensures FindSync(rs, number) == Some(i)
    {
      FirstIsFound(rs, number, i);
    }
  }

  lemma FirstIsFound(rs: seq<Record>, number: nat, i: nat)
    requires FirstOf(rs, number, i)
    ensures FindSync(rs, number) == Some(i)
  {
    hide FindSync;
    assert SyncMatch(rs[i], number);
    var hit := FindSync(rs, number).value;
    assert hit <= i;
    assert rs[hit].issue == Some(number) || Predates(rs[hit], number);
  }

  /** A conflict is read and decided anew until the third attempt, and any other answer ends the call. */
  lemma SyncWriteAnswered(s: State, p: Proc, r: Reply)
    requires p.pc.SyncWrite?
    ensures NextPc(s, p, r) ==
            if r.answer == 200 || r.answer == 201 then Done(202, AtRefresh)
            else if r.answer == 409 && p.pc.attempt < 2 then SyncRead(p.pc.attempt + 1, p.pc.number, p.pc.url, p.pc.seen)
            else Done(r.answer, AtRefresh)
  {
  }

  /** Every line of the issue's first report is as the issue says, and no other line has changed. */
  ghost predicate UpToDate(before: File, after: File, number: nat, url: string, seen: Status) {
    && (forall i: nat :: FirstOf(Records(before), number, i) ==> Synced(Records(before), Records(after), i, number, url, seen))
    && ((forall i: nat :: !FirstOf(Records(before), number, i)) ==> after == before)
  }

  lemma NothingToWrite(f: File, number: nat, url: string, seen: Status)
    requires forall i: nat :: FirstOf(Records(f), number, i) ==> !OutOfDate(Records(f), i, number, seen)
    ensures UpToDate(f, f, number, url, seen)
  {
  }

  lemma Written(before: File, proposed: seq<Record>, number: nat, url: string, seen: Status, i: nat)
    requires FirstOf(Records(before), number, i) && Synced(Records(before), proposed, i, number, url, seen)
    ensures UpToDate(before, Committed(proposed), number, url, seen)
  {
    forall j: nat | FirstOf(Records(before), number, j)
      ensures j == i
    {
    }
  }

  /** A synchronisation answered without errors leaves the line at the status it has seen. */
  lemma SyncFinishes(s: State, id: Pid) returns (u: State)
    requires Inv(s) && id in s.procs && s.procs[id].pc.SyncRead?
    ensures Inv(u) && Reaches(s, u) && id in u.procs && u.procs[id].pc == Done(202, AtRefresh)
    ensures UpToDate(s.file, u.file, s.procs[id].pc.number, s.procs[id].pc.url, s.procs[id].pc.seen)
  {
    hide Inv, Reaches, NextPc, FirstOf, Synced, OutOfDate, UpToDate;
    var pc := s.procs[id].pc;
    var read := Reply(200, false, 0, 0, "", None);
    SyncReadDecides(s, s.procs[id], read);
    u := Step(s, Respond(id, read));
    ReachesItself(s);
    ReachesMore(s, s, Respond(id, read));
    StepKeepsInv(s, Respond(id, read));
    if u.procs[id].pc.SyncWrite? {
      var t, wrote := u, Reply(200, true, 0, 0, "", None);
      var i: nat :| FirstOf(Records(s.file), pc.number, i) && Synced(Records(s.file), t.procs[id].pc.proposed, i, pc.number, pc.url, pc.seen);
      SyncWriteAnswered(t, t.procs[id], wrote);
      u := Step(t, Respond(id, wrote));
      ReachesMore(s, t, Respond(id, wrote));
      StepKeepsInv(t, Respond(id, wrote));
      Written(s.file, t.procs[id].pc.proposed, pc.number, pc.url, pc.seen, i);
    } else {
      assert u.procs[id].pc == NextPc(s, s.procs[id], read) && !NextPc(s, s.procs[id], read).SyncWrite?;
      NothingToWrite(s.file, pc.number, pc.url, pc.seen);
    }
  }

  /** So does a signed webhook that comes in at any state, if the issue has a status at all. */
  lemma WebhookReachesFile(s: State, id: Pid, number: nat, url: string, seen: Status) returns (u: State)
    requires Inv(s) && id !in s.procs
    ensures Inv(u) && Reaches(s, u) && id in u.procs && u.procs[id].pc == Done(202, AtRefresh)
    ensures UpToDate(s.file, u.file, number, url, seen)
  {
    hide Inv, UpToDate;
    var a := StartHook(id, number, url, Some(seen));
    StepKeepsInv(s, a);
    var t := Step(s, a);
    u := SyncFinishes(t, id);
    ReachesItself(s);
    ReachesMore(s, s, a);
    ReachesOn(s, t, u);
  }

  /** And the refresh at the end of a filing, with the status GitHub then reports. */
  lemma RefreshReachesFile(s: State, id: Pid, url: string, seen: Status) returns (u: State)
    requires Inv(s) && id in s.procs && s.procs[id].pc.Refresh?
    ensures Inv(u) && Reaches(s, u) && id in u.procs && u.procs[id].pc == Done(202, AtRefresh)
    ensures UpToDate(s.file, u.file, s.procs[id].pc.linked, url, seen)
  {
    hide Inv, UpToDate;
    var a := Respond(id, Reply(200, false, 0, 0, url, Some(seen)));
    StepKeepsInv(s, a);
    var t := Step(s, a);
    assert t.procs[id].pc == SyncRead(0, s.procs[id].pc.linked, url, seen);
    u := SyncFinishes(t, id);
    ReachesItself(s);
    ReachesMore(s, s, a);
    ReachesOn(s, t, u);
  }

  /** An issue whose labels give no status is answered 202, and nothing is written. */
  lemma NoStatusNothingWritten(s: State, id: Pid, number: nat, url: string)
    requires id !in s.procs
    ensures var t := Step(s, StartHook(id, number, url, None));
            t.procs[id].pc == Done(202, AtRefresh) && t.file == s.file && t.issues == s.issues
  {
  }
}
