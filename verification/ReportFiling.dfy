/**
 The report filing protocol of api/report.py.

 Any number of invocations share one committed JSONL file, replaced only by compare-and-swap on
 its content hash, and one remote issue list. Every remote call is one step: its reply carries the
 HTTP status that came back and whether the call took effect, because a call can take effect and
 still report a failure. All interleaving and all failure is in the choice of the next action.
 */
module ReportFiling {
  import opened Wrappers

  type Key = string
  type Token = nat
  type Pid = nat

  const WRITE_ATTEMPTS: nat := 3
  const PER_PAGE: nat := 100
  const LABELS: nat := 4

  datatype Status = Open | Fixed | Closed

  /** One line of the report file. Records that predate the integration have no key. */
  datatype Record = Record(
    number: nat,
    key: Option<Key>,
    intake: string,
    status: Status,
    claim: Option<Token>,
    issue: Option<nat>,
    url: Option<string>)

  /** The committed file, which does not exist before the first report. */
  datatype File = Absent | Committed(lines: seq<Record>)

  /** A labelled issue; its key is the marker in its body, which a foreign issue lacks. */
  datatype Issue = Issue(number: nat, key: Option<Key>, url: string)

  /** Which call of `_file` ended the invocation. */
  datatype Exit = AtRecord | AtClaim | AtFind | AtOpen | AtAttach | AtRefresh

  /** Where an invocation stands: the remote call it is waiting for, and its locals. */
  datatype Pc =
    | RecordRead(attempt: nat)
    | RecordWrite(attempt: nat, snap: File, proposed: seq<Record>)
    | ClaimRead(attempt: nat)
    | ClaimWrite(attempt: nat, snap: File, proposed: seq<Record>, token: Token)
    | EnsureLabel(token: Token, left: nat)
    | OpenScan(token: Token, page: nat)
    | Post(token: Token)
    | ReleaseRead(attempt: nat, token: Token, answer: int)
    | ReleaseWrite(attempt: nat, token: Token, answer: int, snap: File, proposed: seq<Record>)
    | FindScan(page: nat)
    | AttachRead(attempt: nat, found: Option<Issue>)
    | AttachWrite(attempt: nat, issue: Issue, snap: File, proposed: seq<Record>)
    | Refresh(linked: nat)
    | SyncRead(attempt: nat, number: nat, url: string, seen: Status)
    | SyncWrite(attempt: nat, number: nat, url: string, seen: Status, snap: File, proposed: seq<Record>)
    | Done(answer: int, exit: Exit)
    | Crashed

  /** An intake request for one report key, or a signed webhook delivery, which has no key. */
  datatype Proc = Proc(hook: bool, key: Key, intake: string, pc: Pc)

  /** `minted` remembers which invocation drew each random claim token. */
  datatype State = State(file: File, issues: seq<Issue>, procs: map<Pid, Proc>, minted: map<Token, Pid>)

  /** What comes back from one remote call, and whether the call took effect. */
  datatype Reply = Reply(answer: int, applied: bool, token: Token, number: nat, url: string, seen: Option<Status>)

  datatype Action =
    | StartFiling(id: Pid, key: Key, intake: string)
    | StartHook(id: Pid, number: nat, url: string, seen: Option<Status>)
    | Respond(id: Pid, reply: Reply)
    | Crash(id: Pid)
    | Foreign(at: nat, issue: Issue)

  // ---------------------------------------------------------------- file edits

  function Records(f: File): seq<Record> {
    if f.Absent? then [] else f.lines
  }

  function FindKey(rs: seq<Record>, key: Key): (r: Option<nat>)
    ensures r.Some? ==> r.value < |rs| && rs[r.value].key == Some(key)
    ensures r.Some? ==> forall j :: 0 <= j < r.value ==> rs[j].key != Some(key)
    ensures r.None? ==> forall j :: 0 <= j < |rs| ==> rs[j].key != Some(key)
  {
    if |rs| == 0 then None
    else
      var before := FindKey(rs[..|rs| - 1], key);
      if before.Some? then before
      else if rs[|rs| - 1].key == Some(key) then Some(|rs| - 1)
      else None
  }

  predicate Legacy(r: Record, number: nat) {
    r.key.None? && r.issue.None? && r.number == number
  }

  predicate SyncMatch(r: Record, number: nat) {
    r.issue == Some(number) || Legacy(r, number)
  }

  function FindSync(rs: seq<Record>, number: nat): (r: Option<nat>)
    ensures r.Some? ==> r.value < |rs| && SyncMatch(rs[r.value], number)
    ensures r.Some? ==> forall j :: 0 <= j < r.value ==> !SyncMatch(rs[j], number)
    ensures r.None? ==> forall j :: 0 <= j < |rs| ==> !SyncMatch(rs[j], number)
  {
    if |rs| == 0 then None
    else
      var before := FindSync(rs[..|rs| - 1], number);
      if before.Some? then before
      else if SyncMatch(rs[|rs| - 1], number) then Some(|rs| - 1)
      else None
  }

  function RecordEdit(rs: seq<Record>, key: Key, intake: string): seq<Record> {
    rs + [Record(|rs| + 1, Some(key), intake, Open, None, None, None)]
  }

  function ClaimEdit(rs: seq<Record>, i: nat, token: Token): seq<Record>
    requires i < |rs|
  {
    rs[i := rs[i].(claim := Some(token))]
  }

  function ReleaseEdit(rs: seq<Record>, i: nat): seq<Record>
    requires i < |rs|
  {
    rs[i := rs[i].(claim := None)]
  }

  function AttachEdit(rs: seq<Record>, i: nat, issue: Issue): seq<Record>
    requires i < |rs|
  {
    rs[i := rs[i].(issue := Some(issue.number), url := Some(issue.url), claim := None)]
  }

  function SyncEdit(rs: seq<Record>, i: nat, number: nat, url: string, seen: Status): seq<Record>
    requires i < |rs|
  {
    var r := if Legacy(rs[i], number) then rs[i].(issue := Some(number), url := Some(url)) else rs[i];
    rs[i := r.(status := seen)]
  }

  // ------------------------------------------------------------- remote replies

  predicate CommitOk(answer: int) {
    answer == 200 || answer == 201
  }

  /** The invocation waits for a PUT of `proposed` over its snapshot. */
  predicate Writing(pc: Pc) {
    pc.RecordWrite? || pc.ClaimWrite? || pc.ReleaseWrite? || pc.AttachWrite? || pc.SyncWrite?
  }

  predicate Halted(pc: Pc) {
    pc.Done? || pc.Crashed?
  }

  /**
   What GitHub may answer. A PUT is applied only when the file still is the snapshot; success
   means applied and 409 means not applied; any other answer leaves both possible. A POST that
   answers 201 created the issue. A claim token drawn after a read is new.
   */
  predicate CanReply(s: State, id: Pid, r: Reply) {
    && id in s.procs
    && var p := s.procs[id];
    && !Halted(p.pc)
    && (Writing(p.pc) ==>
          (CommitOk(r.answer) ==> r.applied)
          && (r.answer == 409 ==> !r.applied)
          && (r.applied ==> s.file == p.pc.snap))
    && (p.pc.Post? ==> (r.answer == 201 ==> r.applied) && NewNumber(s.issues, r.number))
    && (p.pc.ClaimRead? ==> r.token !in s.minted)
  }

  predicate NewNumber(issues: seq<Issue>, number: nat) {
    number > 0 && forall j :: 0 <= j < |issues| ==> issues[j].number != number
  }

  function Min(a: nat, b: nat): nat {
    if a < b then a else b
  }

  /** The fetch after `page` earlier ones, newest issue first. */
  function Page(issues: seq<Issue>, page: nat): seq<Issue> {
    issues[Min(PER_PAGE * page, |issues|)..Min(PER_PAGE * (page + 1), |issues|)]
  }

  function FindMarker(issues: seq<Issue>, key: Key): (r: Option<Issue>)
    ensures r.Some? ==> r.value in issues && r.value.key == Some(key)
    ensures r.None? <==> forall j :: 0 <= j < |issues| ==> issues[j].key != Some(key)
  {
    if |issues| == 0 then None
    else if issues[0].key == Some(key) then Some(issues[0])
    else FindMarker(issues[1..], key)
  }

  /** `(202, None)` from `_record_report` and `_attach_issue` makes the caller use a missing record. */
  function Failed(answer: int, exit: Exit): Pc {
    if answer == 202 then Crashed else Done(answer, exit)
  }

  /** `_file` uses the record `_claim_issue_creation` returned on each of these three statuses. */
  function ClaimFailed(answer: int): Pc {
    if answer == 201 || answer == 202 || answer == 409 then Crashed else Done(answer, AtClaim)
  }

  function AfterRecorded(r: Record): Pc {
    if r.issue.Some? then Refresh(r.issue.value) else ClaimRead(0)
  }

  function AfterRead(s: State, p: Proc, r: Reply): Pc
    requires p.pc.RecordRead? || p.pc.ClaimRead? || p.pc.ReleaseRead? || p.pc.AttachRead?
  {
    var rs := Records(s.file);
    var found := FindKey(rs, p.key);
    match p.pc
    case RecordRead(n) =>
      if r.answer != 200 then Failed(r.answer, AtRecord)
      else if found.Some? then AfterRecorded(rs[found.value])
      else RecordWrite(n, s.file, RecordEdit(rs, p.key, p.intake))
    case ClaimRead(n) =>
      if r.answer != 200 then ClaimFailed(r.answer)
      else if found.None? then Done(404, AtClaim)
      else if rs[found.value].issue.Some? then Refresh(rs[found.value].issue.value)
      else if rs[found.value].claim.Some? then FindScan(0)
      else ClaimWrite(n, s.file, ClaimEdit(rs, found.value, r.token), r.token)
    case ReleaseRead(n, token, answer) =>
      if r.answer != 200 || found.None? || rs[found.value].claim != Some(token) then Done(answer, AtOpen)
      else ReleaseWrite(n, token, answer, s.file, ReleaseEdit(rs, found.value))
    case AttachRead(n, issue) =>
      if r.answer != 200 then Failed(r.answer, AtAttach)
      else if found.None? then Done(404, AtAttach)
      else if rs[found.value].issue.Some? then Refresh(rs[found.value].issue.value)
      else if issue.None? then Crashed
      else AttachWrite(n, issue.value, s.file, AttachEdit(rs, found.value, issue.value))
  }

  function AfterWrite(p: Proc, r: Reply): Pc
    requires Writing(p.pc)
  {
    match p.pc
    case RecordWrite(n, _, _) =>
      if CommitOk(r.answer) then ClaimRead(0)
      else if r.answer != 409 then Failed(r.answer, AtRecord)
      else if n + 1 < WRITE_ATTEMPTS then RecordRead(n + 1)
      else Done(409, AtRecord)
    case ClaimWrite(n, _, _, token) =>
      if CommitOk(r.answer) then EnsureLabel(token, LABELS)
      else if r.answer == 409 && n + 1 < WRITE_ATTEMPTS then ClaimRead(n + 1)
      else ClaimFailed(r.answer)
    case ReleaseWrite(n, token, answer, _, _) =>
      if r.answer == 409 && n + 1 < WRITE_ATTEMPTS then ReleaseRead(n + 1, token, answer)
      else Done(answer, AtOpen)
    case AttachWrite(n, issue, _, _) =>
      if CommitOk(r.answer) then Refresh(issue.number)
      else if r.answer != 409 then Failed(r.answer, AtAttach)
      else if n + 1 < WRITE_ATTEMPTS then AttachRead(n + 1, Some(issue))
      else Done(409, AtAttach)
    case SyncWrite(n, number, url, seen, _, _) =>
      if CommitOk(r.answer) then Done(202, AtRefresh)
      else if r.answer == 409 && n + 1 < WRITE_ATTEMPTS then SyncRead(n + 1, number, url, seen)
      else Done(r.answer, AtRefresh)
  }

  function AfterScan(s: State, p: Proc, r: Reply): Pc
    requires p.pc.OpenScan? || p.pc.FindScan?
  {
    var listed := Page(s.issues, p.pc.page);
    var hit := FindMarker(listed, p.key);
    match p.pc
    case OpenScan(token, page) =>
      if r.answer == 404 then Post(token)
      else if r.answer == 201 then AttachRead(0, None)
      else if r.answer != 200 then ReleaseRead(0, token, r.answer)
      else if hit.Some? then AttachRead(0, hit)
      else if |listed| < PER_PAGE then Post(token)
      else OpenScan(token, page + 1)
    case FindScan(page) =>
      if r.answer != 200 then Done(502, AtFind)
      else if hit.Some? then AttachRead(0, hit)
      else if |listed| < PER_PAGE then Done(502, AtFind)
      else FindScan(page + 1)
  }

  function AfterSyncRead(s: State, pc: Pc, r: Reply): Pc
    requires pc.SyncRead?
  {
    var rs := Records(s.file);
    var hit := FindSync(rs, pc.number);
    if r.answer != 200 then Done(r.answer, AtRefresh)
    else if hit.None? then Done(202, AtRefresh)
    else if rs[hit.value].status == pc.seen && !Legacy(rs[hit.value], pc.number) then Done(202, AtRefresh)
    else SyncWrite(pc.attempt, pc.number, pc.url, pc.seen, s.file, SyncEdit(rs, hit.value, pc.number, pc.url, pc.seen))
  }

  function Created(p: Proc, r: Reply): Issue {
    Issue(r.number, Some(p.key), r.url)
  }

  /** The invocation's next position once its remote call has returned. */
  function NextPc(s: State, p: Proc, r: Reply): Pc
    requires !Halted(p.pc)
  {
    if Writing(p.pc) then AfterWrite(p, r) else
    match p.pc
    case RecordRead(_) => AfterRead(s, p, r)
    case ClaimRead(_) => AfterRead(s, p, r)
    case ReleaseRead(_, _, _) => AfterRead(s, p, r)
    case AttachRead(_, _) => AfterRead(s, p, r)
    case EnsureLabel(token, left) =>
      if r.answer != 201 && r.answer != 422 then ReleaseRead(0, token, 502)
      else if left > 1 then EnsureLabel(token, left - 1)
      else OpenScan(token, 0)
    case OpenScan(_, _) => AfterScan(s, p, r)
    case FindScan(_) => AfterScan(s, p, r)
    case Post(token) =>
      if r.answer == 201 then AttachRead(0, Some(Created(p, r))) else ReleaseRead(0, token, r.answer)
    case Refresh(linked) =>
      if r.answer != 200 then Done(r.answer, AtRefresh)
      else if r.seen.None? then Done(202, AtRefresh)
      else SyncRead(0, linked, r.url, r.seen.value)
    case SyncRead(_, _, _, _) => AfterSyncRead(s, p.pc, r)
  }

  // ------------------------------------------------------------------ the steps

  predicate Enabled(s: State, a: Action) {
    match a
    case StartFiling(id, _, _) => id !in s.procs
    case StartHook(id, _, _, _) => id !in s.procs
    case Respond(id, r) => CanReply(s, id, r)
    case Crash(id) => id in s.procs
    case Foreign(at, issue) => at <= |s.issues| && issue.key.None? && NewNumber(s.issues, issue.number)
  }

  function Step(s: State, a: Action): State
    requires Enabled(s, a)
  {
    match a
    case StartFiling(id, key, intake) => s.(procs := s.procs[id := Proc(false, key, intake, RecordRead(0))])
    case StartHook(id, number, url, seen) =>
      s.(procs := s.procs[id := Proc(true, "", "", if seen.None? then Done(202, AtRefresh) else SyncRead(0, number, url, seen.value))])
    case Crash(id) => s.(procs := s.procs[id := s.procs[id].(pc := Crashed)])
    case Foreign(at, issue) => s.(issues := s.issues[..at] + [issue] + s.issues[at..])
    case Respond(id, r) =>
      var p := s.procs[id];
      var pc := NextPc(s, p, r);
      State(
        if Writing(p.pc) && r.applied then Committed(p.pc.proposed) else s.file,
        if p.pc.Post? && r.applied then [Created(p, r)] + s.issues else s.issues,
        s.procs[id := p.(pc := pc)],
        if pc.ClaimWrite? then s.minted[r.token := id] else s.minted)
  }

  /** A finite execution: each action is enabled where it is taken. */
  ghost predicate Run(states: seq<State>, actions: seq<Action>) {
    && |states| == |actions| + 1
    && forall i :: 0 <= i < |actions| ==> Enabled(states[i], actions[i]) && states[i + 1] == Step(states[i], actions[i])
  }

  /** Only legacy reports, no invocation and no issue that carries a marker. */
  predicate Initial(s: State) {
    && (forall i :: 0 <= i < |Records(s.file)| ==>
          Records(s.file)[i].number == i + 1 && Records(s.file)[i].key.None? && Records(s.file)[i].claim.None?)
    && (forall i :: 0 <= i < |s.issues| ==> s.issues[i].key.None?)
    && s.procs == map[]
    && s.minted == map[]
  }
}
