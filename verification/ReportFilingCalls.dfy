/**
 What one answered call of a filing does, said line by line: what is written into the file, when a
 call is made at all, and how each answer is passed on.
 */
module ReportFilingCalls {
  import opened Wrappers
  import opened ReportFiling
  import opened ReportFilingSafety
  import opened ReportFilingSync

  /** The report's line: the first with its key. */
  predicate LineOf(rs: seq<Record>, key: Key, i: nat) {
    i < |rs| && rs[i].key == Some(key) && forall j :: 0 <= j < i ==> rs[j].key != Some(key)
  }

  predicate NoLine(rs: seq<Record>, key: Key) {
    forall i :: 0 <= i < |rs| ==> rs[i].key != Some(key)
  }

  lemma LineIsFound(rs: seq<Record>, key: Key)
    ensures FindKey(rs, key) == None <==> NoLine(rs, key)
    ensures forall i: nat :: LineOf(rs, key, i) <==> FindKey(rs, key) == Some(i)
  {
    hide FindKey;
    var found := FindKey(rs, key);
    forall i: nat | LineOf(rs, key, i)
      ensures found == Some(i)
    {
      if found.Some? {
        assert !(found.value < i) && !(i < found.value);
      }
    }
    if found.Some? {
      assert LineOf(rs, key, found.value);
    }
  }

  // --------------------------------------------------------- what a write puts there

  /** Only this line differs, and only in its claim, its issue and its url. */
  predicate Relinked(before: seq<Record>, after: seq<Record>, i: nat, claim: Option<Token>, issue: Option<nat>, url: Option<string>) {
    && i < |before| == |after|
    && (forall j :: 0 <= j < |before| && j != i ==> after[j] == before[j])
    && after[i] == Record(before[i].number, before[i].key, before[i].intake, before[i].status, claim, issue, url)
  }

  /** What an invocation waiting to write would leave in the file. */
  ghost predicate Leaves(p: Proc, before: seq<Record>, after: seq<Record>) {
    match p.pc
    case RecordWrite(_, _, _) =>
      && NoLine(before, p.key)
      && after == before + [Record(|before| + 1, Some(p.key), p.intake, Open, None, None, None)]
    case ClaimWrite(_, _, _, token) =>
      exists i: nat :: LineOf(before, p.key, i) && before[i].claim == None && before[i].issue == None
                       && Relinked(before, after, i, Some(token), None, before[i].url)
    case ReleaseWrite(_, token, _, _, _) =>
      exists i: nat :: LineOf(before, p.key, i) && before[i].claim == Some(token)
                       && Relinked(before, after, i, None, before[i].issue, before[i].url)
    case AttachWrite(_, issue, _, _) =>
      exists i: nat :: LineOf(before, p.key, i) && before[i].issue == None
                       && Relinked(before, after, i, None, Some(issue.number), Some(issue.url))
    case SyncWrite(_, number, url, seen, _, _) =>
      exists i: nat :: FirstOf(before, number, i) && Synced(before, after, i, number, url, seen)
    case _ => true
  }

  /** Every write that takes effect does this to the file as it stands, in any state of any run. */
  lemma AppliedWrite(s: State, id: Pid, r: Reply)
    requires Inv(s) && CanReply(s, id, r) && Writing(s.procs[id].pc) && r.applied
    ensures Leaves(s.procs[id], Records(s.file), Records(Step(s, Respond(id, r)).file))
  {
    hide FindKey, FindSync, FirstOf, NextPc, LogInv, FileInv, LineOf;
    var p := s.procs[id];
    InvAtCall(s, id);
    LineIsFound(Records(s.file), p.key);
    if p.pc.SyncWrite? {
      SyncHit(Records(s.file), p.pc.number);
    }
  }

  lemma InvAtCall(s: State, id: Pid)
    requires Inv(s) && id in s.procs
    ensures ProposalOk(s.procs[id])
  {
  }

  // ------------------------------------------------------------ what follows a read

  /** The four reads answered with the file: what each goes on to, by the report's line. */
  lemma ReadDecides(s: State, p: Proc, r: Reply)
    requires p.pc.RecordRead? || p.pc.ClaimRead? || p.pc.ReleaseRead? || p.pc.AttachRead?
    requires r.answer == 200
    ensures var rs, next := Records(s.file), NextPc(s, p, r);
            && (NoLine(rs, p.key) ==>
                  match p.pc
                  case RecordRead(n) => next.RecordWrite? && next.attempt == n && next.snap == s.file
                  case ClaimRead(_) => next == Done(404, AtClaim)
                  case ReleaseRead(_, _, answer) => next == Done(answer, AtOpen)
                  case AttachRead(_, _) => next == Done(404, AtAttach))
            && (forall i: nat :: LineOf(rs, p.key, i) ==>
                  var line := rs[i];
                  match p.pc
                  case RecordRead(_) => next == if line.issue == None then ClaimRead(0) else Refresh(line.issue.value)
                  case ClaimRead(n) =>
                    if line.issue != None then next == Refresh(line.issue.value)
                    else if line.claim != None then next == FindScan(0)
                    else next.ClaimWrite? && next.attempt == n && next.snap == s.file && next.token == r.token
                  case ReleaseRead(n, token, answer) =>
                    if line.claim == Some(token)
                    then next.ReleaseWrite? && next.attempt == n && next.snap == s.file && next.token == token && next.answer == answer
                    else next == Done(answer, AtOpen)
                  case AttachRead(n, found) =>
                    if line.issue != None then next == Refresh(line.issue.value)
                    else if found == None then next == Crashed
                    else next.AttachWrite? && next.attempt == n && next.snap == s.file && next.issue == found.value)
  {
    hide FindKey, LineOf, NoLine;
    LineIsFound(Records(s.file), p.key);
    if FindKey(Records(s.file), p.key).Some? {
      assert LineOf(Records(s.file), p.key, FindKey(Records(s.file), p.key).value);
    }
  }

  /**
   A read that fails ends the invocation with that answer, or the release with the one it carries; an
   answer that the caller takes for success makes it use a record that is not there.
   */
  lemma ReadFails(s: State, p: Proc, r: Reply)
    requires p.pc.RecordRead? || p.pc.ClaimRead? || p.pc.ReleaseRead? || p.pc.AttachRead?
    requires r.answer != 200
    ensures var next := NextPc(s, p, r);
            && (p.pc.ReleaseRead? ==> next == Done(p.pc.answer, AtOpen))
            && (!p.pc.ReleaseRead? ==>
                  next == if r.answer == 202 || (p.pc.ClaimRead? && (r.answer == 201 || r.answer == 409)) then Crashed
                          else Done(r.answer, if p.pc.RecordRead? then AtRecord else if p.pc.ClaimRead? then AtClaim else AtAttach))
  {
  }

  // ----------------------------------------------------------- what follows a write

  /** A commit goes on; a conflict is retried from the read twice; the third conflict ends with 409. */
  lemma WriteDecides(s: State, p: Proc, r: Reply)
    requires p.pc.RecordWrite? || p.pc.ClaimWrite? || p.pc.ReleaseWrite? || p.pc.AttachWrite?
    ensures var next, committed := NextPc(s, p, r), r.answer == 200 || r.answer == 201;
            && (committed ==>
                  match p.pc
                  case RecordWrite(_, _, _) => next == ClaimRead(0)
                  case ClaimWrite(_, _, _, token) => next == EnsureLabel(token, 4)
                  case ReleaseWrite(_, _, answer, _, _) => next == Done(answer, AtOpen)
                  case AttachWrite(_, issue, _, _) => next == Refresh(issue.number))
            && (r.answer == 409 && p.pc.attempt < 2 ==>
                  match p.pc
                  case RecordWrite(n, _, _) => next == RecordRead(n + 1)
                  case ClaimWrite(n, _, _, _) => next == ClaimRead(n + 1)
                  case ReleaseWrite(n, token, answer, _, _) => next == ReleaseRead(n + 1, token, answer)
                  case AttachWrite(n, issue, _, _) => next == AttachRead(n + 1, Some(issue)))
            && (!committed && !(r.answer == 409 && p.pc.attempt < 2) ==>
                  match p.pc
                  case ReleaseWrite(_, _, answer, _, _) => next == Done(answer, AtOpen)
                  case RecordWrite(_, _, _) => next == if r.answer == 202 then Crashed else Done(r.answer, AtRecord)
                  case AttachWrite(_, _, _, _) => next == if r.answer == 202 then Crashed else Done(r.answer, AtAttach)
                  case ClaimWrite(_, _, _, _) => next == if r.answer == 202 || r.answer == 409 then Crashed else Done(r.answer, AtClaim))
  {
  }

  // ------------------------------------------------------ labels, listings, creation

  /** Four labels, each made or there already; anything else gives the claim back and ends with 502. */
  lemma LabelDecides(s: State, p: Proc, r: Reply)
    requires p.pc.EnsureLabel?
    ensures var next := NextPc(s, p, r);
            if r.answer != 201 && r.answer != 422 then next == ReleaseRead(0, p.pc.token, 502)
            else if p.pc.left > 1 then next == EnsureLabel(p.pc.token, p.pc.left - 1)
            else next == OpenScan(p.pc.token, 0)
  {
  }

  /** The issues of one page: a hundred of them at most, newest first. */
  predicate OnPage(issues: seq<Issue>, page: nat, i: nat) {
    100 * page <= i < 100 * page + 100 && i < |issues|
  }

  predicate FirstOnPage(issues: seq<Issue>, page: nat, key: Key, i: nat) {
    && i < |issues| && OnPage(issues, page, i) && issues[i].key == Some(key)
    && forall j :: 0 <= j < i && OnPage(issues, page, j) ==> issues[j].key != Some(key)
  }

  predicate NotOnPage(issues: seq<Issue>, page: nat, key: Key) {
    forall i :: 0 <= i < |issues| && OnPage(issues, page, i) ==> issues[i].key != Some(key)
  }

  lemma {:induction false} FirstMarker(issues: seq<Issue>, key: Key) returns (i: nat)
    requires FindMarker(issues, key).Some?
    ensures i < |issues| && issues[i] == FindMarker(issues, key).value
    ensures forall j :: 0 <= j < i ==> issues[j].key != Some(key)
  {
    if issues[0].key == Some(key) {
      i := 0;
    } else {
      var before := FirstMarker(issues[1..], key);
      i := before + 1;
      assert forall j :: 0 < j < |issues| ==> issues[j] == issues[1..][j - 1];
    }
  }

  /** The elements of a page are the issues on it. */
  lemma PageElement(issues: seq<Issue>, page: nat, k: nat)
    ensures var listed := Page(issues, page);
            && (k < |listed| <==> OnPage(issues, page, 100 * page + k))
            && (k < |listed| ==> 100 * page + k < |issues| && listed[k] == issues[100 * page + k])
            && (|listed| < 100 <==> |issues| < 100 * page + 100)
  {
  }

  lemma IssueOnPage(issues: seq<Issue>, page: nat, i: nat) returns (k: nat)
    requires OnPage(issues, page, i)
    ensures i == 100 * page + k && i < |issues| && k < |Page(issues, page)| && Page(issues, page)[k] == issues[i]
  {
    k := i - 100 * page;
    PageElement(issues, page, k);
  }

  lemma PageExactly(issues: seq<Issue>, page: nat, key: Key)
    ensures FindMarker(Page(issues, page), key) == None <==> NotOnPage(issues, page, key)
    ensures forall i: nat :: FirstOnPage(issues, page, key, i) ==> FindMarker(Page(issues, page), key) == Some(issues[i])
    ensures |Page(issues, page)| < 100 <==> |issues| < 100 * page + 100
  {
    hide FindMarker, Page, OnPage;
    var listed := Page(issues, page);
    PageElement(issues, page, 0);
    if FindMarker(listed, key).Some? {
      var k := FirstMarker(listed, key);
      PageElement(issues, page, k);
      var at: nat := 100 * page + k;
      assert OnPage(issues, page, at) && issues[at].key == Some(key);
      forall i: nat | FirstOnPage(issues, page, key, i)
        ensures i == at
      {
        FirstIsOne(issues, page, key, i, k);
      }
    } else {
      forall i: nat | i < |issues| && OnPage(issues, page, i)
        ensures issues[i].key != Some(key)
      {
        var k := IssueOnPage(issues, page, i);
      }
    }
  }

  lemma FirstIsOne(issues: seq<Issue>, page: nat, key: Key, i: nat, k: nat)
    requires FirstOnPage(issues, page, key, i)
    requires var listed := Page(issues, page);
             k < |listed| && listed[k].key == Some(key) && forall j :: 0 <= j < k ==> listed[j].key != Some(key)
    ensures i == 100 * page + k
  {
    hide Page, OnPage;
    PageElement(issues, page, k);
    var at: nat := 100 * page + k;
    var n := IssueOnPage(issues, page, i);
    assert !(at < i) && !(n < k);
  }

  /** A page that came: the issue is attached, the next page fetched, or after a short page the search is over. */
  lemma ListingDecides(s: State, p: Proc, r: Reply)
    requires (p.pc.OpenScan? || p.pc.FindScan?) && r.answer == 200
    ensures var next, page := NextPc(s, p, r), p.pc.page;
            && (forall i: nat :: FirstOnPage(s.issues, page, p.key, i) ==> next == AttachRead(0, Some(s.issues[i])))
            && (NotOnPage(s.issues, page, p.key) && |s.issues| < 100 * page + 100 ==>
                  next == if p.pc.OpenScan? then Post(p.pc.token) else Done(502, AtFind))
            && (NotOnPage(s.issues, page, p.key) && |s.issues| >= 100 * page + 100 ==>
                  next == if p.pc.OpenScan? then OpenScan(p.pc.token, page + 1) else FindScan(page + 1))
  {
    hide FindMarker, Page, FirstOnPage, NotOnPage;
    PageExactly(s.issues, p.pc.page, p.key);
  }

  /** Any other answer to a listing or a creation, and what a creation that succeeded is. */
  lemma OtherAnswers(s: State, p: Proc, r: Reply)
    requires p.pc.OpenScan? || p.pc.FindScan? || p.pc.Post? || p.pc.Refresh?
    ensures var next := NextPc(s, p, r);
            && (p.pc.FindScan? && r.answer != 200 ==> next == Done(502, AtFind))
            && (p.pc.OpenScan? && r.answer == 404 ==> next == Post(p.pc.token))
            && (p.pc.OpenScan? && r.answer == 201 ==> next == AttachRead(0, None))
            && (p.pc.OpenScan? && r.answer != 200 && r.answer != 201 && r.answer != 404 ==> next == ReleaseRead(0, p.pc.token, r.answer))
            && (p.pc.Post? && r.answer == 201 ==> next == AttachRead(0, Some(Issue(r.number, Some(p.key), r.url))))
            && (p.pc.Post? && r.answer != 201 ==> next == ReleaseRead(0, p.pc.token, r.answer))
            && (p.pc.Refresh? && r.answer != 200 ==> next == Done(r.answer, AtRefresh))
            && (p.pc.Refresh? && r.answer == 200 ==>
                  next == if r.seen == None then Done(202, AtRefresh) else SyncRead(0, p.pc.linked, r.url, r.seen.value))
  {
  }
}
