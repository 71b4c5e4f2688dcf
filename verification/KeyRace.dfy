/**
 First start of several processes over one key file, foton-bedrock/src/key.rs. Every file-system
 call is a step of one process, reads and writes move any number of bytes at a time, and any
 process may fail or be killed between steps.
 */
module KeyRace {
  import opened Bytes
  import opened Wrappers

  const KEY_LENGTH := 16

  type Key = seq<byte>

  /** Where a process is in `load_or_create`. */
  datatype Process =
    | Starting
    | Creating(key: Key)
    | Writing(key: Key, written: nat)
    | Reading(got: Key)
    | Returned(key: Key)
    | Failed

  datatype State = State(file: Option<Key>, processes: seq<Process>)

  datatype Action =
    | Look(p: nat, drawn: Key)
    | Create(p: nat)
    | Write(p: nat, count: nat)
    | Read(p: nat, count: nat)
    | Fail(p: nat)

  /** The file after `bytes` are written at `at`. */
  function Overwritten(file: Key, at: nat, bytes: Key): Key
    requires at <= |file|
  {
    file[..at] + bytes + (if at + |bytes| < |file| then file[at + |bytes|..] else [])
  }

  /** `is_file`, and the draw of a new key when there is no file. */
  function Looked(file: Option<Key>, drawn: Key): (q: Process)
    ensures !q.Writing?
  {
    if file.Some? then Reading([]) else if |drawn| == KEY_LENGTH then Creating(drawn) else Failed
  }

  /** `create_restricted`: exclusive creation, falling back to reading what another process made. */
  function Created(s: State, p: nat, key: Key): State
    requires p < |s.processes|
  {
    if s.file.None? then State(Some([]), s.processes[p := Writing(key, 0)]) else s.(processes := s.processes[p := Reading([])])
  }

  /** One write of `write_all`; the last one returns the key. */
  function Wrote(s: State, p: nat, key: Key, written: nat, count: nat): State
    requires p < |s.processes| && s.file.Some? && written <= |s.file.value| && written + count <= |key|
  {
    State(Some(Overwritten(s.file.value, written, key[written..written + count])),
          s.processes[p := if written + count == |key| then Returned(key) else Writing(key, written + count)])
  }

  /** One read of `fs::read`; at the end of the file the length decides. */
  function ReadOn(file: Key, got: Key, count: nat): (q: Process)
    ensures !q.Writing? && !q.Creating?
  {
    if |got| >= |file| then (if |got| == KEY_LENGTH then Returned(got) else Failed)
    else if |got| + count >= |file| then Reading(got + file[|got|..])
    else Reading(got + file[|got|..|got| + count])
  }

  predicate Live(q: Process) {
    !q.Returned? && !q.Failed?
  }

  /** One step; an action that its process cannot take at this point changes nothing. */
  function Step(s: State, a: Action): State {
    if a.p >= |s.processes| then s
    else
      match (a, s.processes[a.p])
      case (Look(p, drawn), Starting) => s.(processes := s.processes[p := Looked(s.file, drawn)])
      case (Create(p), Creating(key)) => Created(s, p, key)
      case (Write(p, count), Writing(key, written)) =>
        if s.file.Some? && written <= |s.file.value| && 0 < count && written + count <= |key| then Wrote(s, p, key, written, count) else s
      case (Read(p, count), Reading(got)) =>
        if s.file.None? then s.(processes := s.processes[p := Failed])
        else if count == 0 then s
        else s.(processes := s.processes[p := ReadOn(s.file.value, got, count)])
      case (Fail(p), q) => if Live(q) then s.(processes := s.processes[p := Failed]) else s
      case _ => s
  }

  function Run(s: State, actions: seq<Action>): State
    decreases |actions|
  {
    if actions == [] then s else Run(Step(s, actions[0]), actions[1..])
  }

  /** Nobody has begun; the file may be missing or hold anything. */
  ghost predicate Initial(s: State) {
    forall p :: 0 <= p < |s.processes| ==> s.processes[p].Starting?
  }

  // ------------------------------------------------------------------ agreement

  /** How a process stands to the file. */
  ghost predicate Agrees(file: Option<Key>, q: Process) {
    match q
    case Starting => true
    case Creating(key) => |key| == KEY_LENGTH
    case Writing(key, written) => |key| == KEY_LENGTH && written < KEY_LENGTH && file == Some(key[..written])
    case Reading(got) => file.Some? && got <= file.value
    case Returned(key) => |key| == KEY_LENGTH && file == Some(key)
    case Failed => true
  }

  /** Every process agrees with the file, and only one is writing it. */
  ghost predicate Inv(s: State) {
    && (forall p :: 0 <= p < |s.processes| ==> Agrees(s.file, s.processes[p]))
    && (forall p, q :: 0 <= p < |s.processes| && 0 <= q < |s.processes| && s.processes[p].Writing? && s.processes[q].Writing? ==> p == q)
  }

  /** What a step can do to the file: nothing, create it, or lengthen it while it is short. */
  ghost predicate Grows(before: Option<Key>, after: Option<Key>) {
    before == after || before.None? || (after.Some? && |before.value| < KEY_LENGTH && before.value <= after.value)
  }

  /** Other processes, none of them writing, still agree with a file that grew. */
  lemma OthersAgree(before: Option<Key>, after: Option<Key>, q: Process)
    requires Agrees(before, q) && Grows(before, after) && (q.Writing? ==> before == after)
    ensures Agrees(after, q)
  {
  }

  lemma StepKeepsInv(s: State, a: Action)
    requires Inv(s)
    ensures Inv(Step(s, a)) && Grows(s.file, Step(s, a).file)
  {
    hide Agrees, Grows;
    var t := Step(s, a);
    if a.p < |s.processes| {
      MoverAgrees(s, a);
      forall q | 0 <= q < |s.processes| && q != a.p
        ensures t.processes[q] == s.processes[q] && Agrees(t.file, t.processes[q])
        ensures t.processes[q].Writing? ==> !t.processes[a.p].Writing?
      {
        Untouched(s, a, q);
        OthersAgree(s.file, t.file, s.processes[q]);
      }
    } else {
      SameGrows(s.file);
    }
  }

  lemma SameGrows(file: Option<Key>)
    ensures Grows(file, file)
  {
  }

  /** A writer is alone, and the file is created only once: nobody else's bytes are touched. */
  lemma Untouched(s: State, a: Action, q: nat)
    requires Inv(s) && a.p < |s.processes| && q < |s.processes| && q != a.p
    ensures |Step(s, a).processes| == |s.processes| && Step(s, a).processes[q] == s.processes[q]
    ensures s.processes[q].Writing? ==> Step(s, a).file == s.file && !Step(s, a).processes[a.p].Writing?
  {
    hide Overwritten, ReadOn, Looked;
    assert Agrees(s.file, s.processes[q]);
  }

  lemma WroteAgrees(key: Key, written: nat, count: nat)
    requires written + count <= |key|
    ensures Overwritten(key[..written], written, key[written..written + count]) == key[..written + count]
    ensures key[..|key|] == key
  {
  }

  lemma ReadAgrees(file: Key, got: Key, count: nat)
    requires got <= file
    ensures Agrees(Some(file), ReadOn(file, got, count))
  {
    if |got| >= |file| {
      assert got == file;
    } else {
      assert got + file[|got|..] == file;
    }
  }

  lemma MoverAgrees(s: State, a: Action)
    requires Inv(s) && a.p < |s.processes|
    ensures var t := Step(s, a);
            && |t.processes| == |s.processes|
            && Agrees(t.file, t.processes[a.p])
            && Grows(s.file, t.file)
            && (t.processes[a.p].Writing? ==> s.processes[a.p].Writing? || s.file.None?)
  {
    hide Overwritten, ReadOn;
    assert Agrees(s.file, s.processes[a.p]);
    if a.Write? && s.processes[a.p].Writing? {
      var (key, written) := (s.processes[a.p].key, s.processes[a.p].written);
      if written + a.count <= |key| {
        WroteAgrees(key, written, a.count);
      }
    } else if a.Read? && s.processes[a.p].Reading? {
      ReadAgrees(s.file.value, s.processes[a.p].got, a.count);
    }
  }

  lemma {:induction false} RunKeepsInv(s: State, actions: seq<Action>)
    requires Inv(s)
    ensures Inv(Run(s, actions))
    decreases |actions|
  {
    hide Inv, Step;
    if actions != [] {
      StepKeepsInv(s, actions[0]);
      RunKeepsInv(Step(s, actions[0]), actions[1..]);
    }
  }

  lemma InitialInv(s: State)
    requires Initial(s)
    ensures Inv(s)
  {
  }

  ghost predicate Finished(s: State, p: nat, key: Key) {
    p < |s.processes| && s.processes[p] == Returned(key)
  }

  /** All processes that return a key return the file's sixteen bytes. */
  lemma KeysAgree(s: State, actions: seq<Action>, p: nat, q: nat, a: Key, b: Key)
    requires Initial(s) && Finished(Run(s, actions), p, a) && Finished(Run(s, actions), q, b)
    ensures a == b && |a| == KEY_LENGTH && Run(s, actions).file == Some(a)
  {
    hide Run;
    var t := Run(s, actions);
    InitialInv(s);
    RunKeepsInv(s, actions);
    assert Agrees(t.file, t.processes[p]) && Agrees(t.file, t.processes[q]);
  }

  lemma {:induction false} WholeFileStays(s: State, actions: seq<Action>)
    requires Inv(s) && s.file.Some? && |s.file.value| >= KEY_LENGTH
    ensures Run(s, actions).file == s.file
    decreases |actions|
  {
    hide Inv, Step;
    if actions != [] {
      StepKeepsInv(s, actions[0]);
      WholeFileStays(Step(s, actions[0]), actions[1..]);
    }
  }

  /** From the moment one process has returned a key, the file is that key, in every continuation. */
  lemma ReturnedKeyIsFinal(s: State, before: seq<Action>, after: seq<Action>, p: nat, key: Key)
    requires Initial(s) && Finished(Run(s, before), p, key)
    ensures Run(Run(s, before), after).file == Some(key)
  {
    hide Run;
    InitialInv(s);
    RunKeepsInv(s, before);
    KeysAgree(s, before, p, p, key, key);
    WholeFileStays(Run(s, before), after);
  }

  // ----------------------------------------------------- where the key comes from

  lemma {:induction false} RunMore(s: State, actions: seq<Action>, a: Action)
    ensures Run(s, actions + [a]) == Step(Run(s, actions), a)
    decreases |actions|
  {
    hide Step;
    if actions == [] {
      assert actions + [a] == [a] && [a][1..] == [];
    } else {
      assert (actions + [a])[1..] == actions[1..] + [a];
      RunMore(Step(s, actions[0]), actions[1..], a);
    }
  }

  /** Process `p` began, and these are the bytes the operating system's randomness gave it. */
  ghost predicate Draws(s: State, actions: seq<Action>, p: nat, key: Key) {
    exists i :: 0 <= i < |actions| && actions[i] == Look(p, key) && BeginsAt(s, actions, i, p)
  }

  ghost predicate BeginsAt(s: State, actions: seq<Action>, i: nat, p: nat)
    requires i <= |actions|
  {
    p < |Run(s, actions[..i]).processes| && Run(s, actions[..i]).processes[p].Starting?
  }

  /** Process `p` made the file. */
  ghost predicate MakesFile(s: State, actions: seq<Action>, p: nat) {
    exists i :: 0 <= i < |actions| && actions[i] == Create(p) && MadeAt(s, actions, i)
  }

  ghost predicate MadeAt(s: State, actions: seq<Action>, i: nat)
    requires i < |actions|
  {
    Run(s, actions[..i]).file == None && Run(s, actions[..i + 1]).file != None
  }

  lemma EarlierStays(s: State, actions: seq<Action>, a: Action, p: nat, key: Key)
    ensures Draws(s, actions, p, key) ==> Draws(s, actions + [a], p, key)
    ensures MakesFile(s, actions, p) ==> MakesFile(s, actions + [a], p)
  {
    hide Run;
    var more := actions + [a];
    assert forall i :: 0 <= i <= |actions| ==> more[..i] == actions[..i];
    if Draws(s, actions, p, key) {
      var i :| 0 <= i < |actions| && actions[i] == Look(p, key) && BeginsAt(s, actions, i, p);
      assert more[i] == Look(p, key) && BeginsAt(s, more, i, p);
    }
    if MakesFile(s, actions, p) {
      var i :| 0 <= i < |actions| && actions[i] == Create(p) && MadeAt(s, actions, i);
      assert more[i] == Create(p) && MadeAt(s, more, i);
    }
  }

  lemma LastStep(s: State, actions: seq<Action>, a: Action)
    ensures var t := Run(s, actions);
            && (a.Look? && a.p < |t.processes| && t.processes[a.p].Starting? ==> Draws(s, actions + [a], a.p, a.drawn))
            && (a.Create? && t.file == None && Step(t, a).file != None ==> MakesFile(s, actions + [a], a.p))
  {
    hide Run, Step;
    var more, i := actions + [a], |actions|;
    RunMore(s, actions, a);
    assert more[..i] == actions && more[..i + 1] == more && more[i] == a;
    if a.Look? && a.p < |Run(s, actions).processes| && Run(s, actions).processes[a.p].Starting? {
      assert BeginsAt(s, more, i, a.p);
    }
    if a.Create? && Run(s, actions).file == None && Step(Run(s, actions), a).file != None {
      assert MadeAt(s, more, i);
    }
  }

  /** A process that creates or writes works with what it drew, and a writer made the file. */
  ghost predicate OwnDraw(s: State, actions: seq<Action>, q: Process, p: nat) {
    && (q.Creating? ==> Draws(s, actions, p, q.key))
    && (q.Writing? ==> Draws(s, actions, p, q.key) && MakesFile(s, actions, p))
  }

  /** The file holds no other bytes than those its maker drew. */
  ghost predicate FileDrawn(s: State, actions: seq<Action>, file: Option<Key>) {
    file.Some? ==> exists p: nat, key :: MakesFile(s, actions, p) && Draws(s, actions, p, key) && |key| == 16 && file.value <= key
  }

  ghost predicate AllDrawn(s: State, actions: seq<Action>) {
    var t := Run(s, actions);
    && FileDrawn(s, actions, t.file)
    && forall p: nat :: p < |t.processes| ==> OwnDraw(s, actions, t.processes[p], p)
  }

  lemma FileDrawnStays(s: State, actions: seq<Action>, a: Action, file: Option<Key>)
    requires FileDrawn(s, actions, file)
    ensures FileDrawn(s, actions + [a], file)
  {
    hide Draws, MakesFile;
    if file.Some? {
      var p: nat, key :| MakesFile(s, actions, p) && Draws(s, actions, p, key) && |key| == 16 && file.value <= key;
      EarlierStays(s, actions, a, p, key);
    }
  }

  lemma OwnDrawStays(s: State, actions: seq<Action>, a: Action, q: Process, p: nat)
    requires OwnDraw(s, actions, q, p)
    ensures OwnDraw(s, actions + [a], q, p)
  {
    hide Draws, MakesFile;
    if q.Creating? || q.Writing? {
      EarlierStays(s, actions, a, p, q.key);
    }
  }

  lemma MoverDraws(s: State, actions: seq<Action>, a: Action)
    requires AllDrawn(s, actions) && Inv(Run(s, actions)) && a.p < |Run(s, actions).processes|
    ensures var t := Step(Run(s, actions), a);
            |t.processes| == |Run(s, actions).processes| && OwnDraw(s, actions + [a], t.processes[a.p], a.p)
  {
    hide Draws, MakesFile, Run, Overwritten, ReadOn;
    var q := Run(s, actions).processes[a.p];
    OwnDrawStays(s, actions, a, q, a.p);
    LastStep(s, actions, a);
  }

  lemma FileStaysDrawn(s: State, actions: seq<Action>, a: Action)
    requires AllDrawn(s, actions) && Inv(Run(s, actions))
    ensures FileDrawn(s, actions + [a], Step(Run(s, actions), a).file)
  {
    hide Draws, MakesFile, Run, Overwritten, ReadOn;
    var t := Run(s, actions);
    var u := Step(t, a);
    FileDrawnStays(s, actions, a, t.file);
    if u.file != t.file {
      assert a.p < |t.processes|;
      var q := t.processes[a.p];
      assert OwnDraw(s, actions, q, a.p) && Agrees(t.file, q);
      OwnDrawStays(s, actions, a, q, a.p);
      LastStep(s, actions, a);
      EarlierStays(s, actions, a, a.p, q.key);
      if q.Writing? {
        WroteAgrees(q.key, q.written, a.count);
        assert u.file.value <= q.key;
      }
    }
  }

  lemma {:induction false} RunDraws(s: State, actions: seq<Action>)
    requires Initial(s) && s.file == None
    ensures AllDrawn(s, actions)
    decreases |actions|
  {
    hide Draws, MakesFile, Step, Run, Inv, Agrees;
    if actions == [] {
      assert Run(s, []) == s by { NoActions(s); }
    } else {
      var before, a := actions[..|actions| - 1], actions[|actions| - 1];
      assert actions == before + [a];
      RunDraws(s, before);
      InitialInv(s);
      RunKeepsInv(s, before);
      RunMore(s, before, a);
      FileStaysDrawn(s, before, a);
      OthersDraw(s, before, a);
    }
  }

  lemma NoActions(s: State)
    ensures Run(s, []) == s
  {
  }

  lemma OthersDraw(s: State, actions: seq<Action>, a: Action)
    requires AllDrawn(s, actions) && Inv(Run(s, actions))
    ensures var t := Step(Run(s, actions), a);
            forall p: nat :: p < |t.processes| ==> OwnDraw(s, actions + [a], t.processes[p], p)
  {
    hide OwnDraw, Inv, Run, FileDrawn;
    var t, u := Run(s, actions), Step(Run(s, actions), a);
    if a.p < |t.processes| {
      MoverDraws(s, actions, a);
    }
    forall p: nat | p < |u.processes|
      ensures OwnDraw(s, actions + [a], u.processes[p], p)
    {
      if p != a.p || a.p >= |t.processes| {
        if a.p < |t.processes| {
          Untouched(t, a, p);
        }
        OwnDrawStays(s, actions, a, t.processes[p], p);
      }
    }
  }

  /** On a first start every returned key is what the process that made the file drew. */
  lemma ReturnedKeyWasDrawn(s: State, actions: seq<Action>, p: nat, key: Key)
    requires Initial(s) && s.file == None && Finished(Run(s, actions), p, key)
    ensures exists maker: nat :: MakesFile(s, actions, maker) && Draws(s, actions, maker, key)
  {
    hide Run, Draws, MakesFile;
    RunDraws(s, actions);
    KeysAgree(s, actions, p, p, key, key);
    var maker: nat, drawn :| MakesFile(s, actions, maker) && Draws(s, actions, maker, drawn) && |drawn| == 16 && key <= drawn;
    assert key == drawn[..16] == drawn;
  }

  /** With a file to start from nothing is drawn that counts: every returned key is the file's content. */
  lemma ReturnedKeyWasStored(s: State, actions: seq<Action>, p: nat, key: Key)
    requires Initial(s) && s.file.Some? && Finished(Run(s, actions), p, key)
    ensures s.file == Some(key)
  {
    hide Run;
    KeysAgree(s, actions, p, p, key, key);
    FileIsKept(s, actions);
  }

  /** Nobody creates or writes a file that was there before. */
  ghost predicate OnlyReaders(s: State) {
    s.file.Some? && forall p :: 0 <= p < |s.processes| ==> !s.processes[p].Creating? && !s.processes[p].Writing?
  }

  lemma {:induction false} FileIsKept(s: State, actions: seq<Action>)
    requires OnlyReaders(s)
    ensures Run(s, actions).file == s.file
    decreases |actions|
  {
    hide Step;
    if actions != [] {
      ReadersStay(s, actions[0]);
      FileIsKept(Step(s, actions[0]), actions[1..]);
    }
  }

  lemma ReadersStay(s: State, a: Action)
    requires OnlyReaders(s)
    ensures OnlyReaders(Step(s, a)) && Step(s, a).file == s.file
  {
  }

  // --------------------------------------------------------- who can still succeed

  ghost predicate HasWriter(s: State) {
    exists p :: 0 <= p < |s.processes| && s.processes[p].Writing?
  }

  /** The file exists, is not a key, and nobody is writing it. */
  ghost predicate Broken(s: State) {
    s.file.Some? && |s.file.value| != KEY_LENGTH && !HasWriter(s)
  }

  lemma BrokenStays(s: State, a: Action)
    requires Inv(s) && Broken(s)
    ensures Broken(Step(s, a)) && Step(s, a).file == s.file
    ensures forall p: nat, key :: !Finished(s, p, key) && !Finished(Step(s, a), p, key)
  {
    var t := Step(s, a);
    if a.p < |s.processes| {
      MoverAgrees(s, a);
      assert !s.processes[a.p].Writing?;
      forall q | 0 <= q < |s.processes| && q != a.p
        ensures t.processes[q] == s.processes[q]
      {
        Untouched(s, a, q);
      }
    }
    NoneFinished(s);
    StepKeepsInv(s, a);
    NoneFinished(t);
  }

  lemma NoneFinished(s: State)
    requires Inv(s) && Broken(s)
    ensures forall p: nat, key :: !Finished(s, p, key)
  {
    forall p | 0 <= p < |s.processes|
      ensures !s.processes[p].Returned?
    {
      assert Agrees(s.file, s.processes[p]);
    }
  }

  lemma {:induction false} BrokenForever(s: State, actions: seq<Action>)
    requires Inv(s) && Broken(s)
    ensures Run(s, actions).file == s.file
    ensures forall p: nat, key :: !Finished(Run(s, actions), p, key)
    decreases |actions|
  {
    hide Inv, Step, Broken;
    if actions == [] {
      NoneFinished(s);
    } else {
      StepKeepsInv(s, actions[0]);
      BrokenStays(s, actions[0]);
      BrokenForever(Step(s, actions[0]), actions[1..]);
    }
  }

  /** The steps that let one process finish, given a file that is missing or whole. */
  function Finishing(p: nat, drawn: Key): seq<Action> {
    [Look(p, drawn)] + ([Create(p)] + ([Write(p, KEY_LENGTH)] + ([Read(p, KEY_LENGTH)] + [Read(p, KEY_LENGTH)])))
  }

  function FiveSteps(s: State, p: nat, drawn: Key): State {
    Step(Step(Step(Step(Step(s, Look(p, drawn)), Create(p)), Write(p, KEY_LENGTH)), Read(p, KEY_LENGTH)), Read(p, KEY_LENGTH))
  }

  lemma FinishingRuns(s: State, p: nat, drawn: Key)
    ensures Run(s, Finishing(p, drawn)) == FiveSteps(s, p, drawn)
  {
    hide Step, Run;
    var last := [Read(p, KEY_LENGTH)];
    OneMore(s, Look(p, drawn), [Create(p)] + ([Write(p, KEY_LENGTH)] + ([Read(p, KEY_LENGTH)] + last)));
    var s1 := Step(s, Look(p, drawn));
    OneMore(s1, Create(p), [Write(p, KEY_LENGTH)] + ([Read(p, KEY_LENGTH)] + last));
    var s2 := Step(s1, Create(p));
    OneMore(s2, Write(p, KEY_LENGTH), [Read(p, KEY_LENGTH)] + last);
    var s3 := Step(s2, Write(p, KEY_LENGTH));
    OneMore(s3, Read(p, KEY_LENGTH), last);
    OneMore(Step(s3, Read(p, KEY_LENGTH)), Read(p, KEY_LENGTH), []);
  }

  lemma OneMore(s: State, a: Action, others: seq<Action>)
    ensures Run(s, [a] + others) == Run(Step(s, a), others)
    ensures others == [] ==> Run(s, [a]) == Step(s, a)
  {
    assert ([a] + others)[1..] == others && [a] + [] == [a];
  }

  lemma FinishesWithoutFile(s: State, p: nat, drawn: Key)
    requires Inv(s) && p < |s.processes| && Live(s.processes[p]) && |drawn| == KEY_LENGTH && s.file.None?
    ensures p < |FiveSteps(s, p, drawn).processes| && FiveSteps(s, p, drawn).processes[p].Returned?
  {
    assert Agrees(s.file, s.processes[p]);
    var s2 := Step(Step(s, Look(p, drawn)), Create(p));
    assert s2.processes[p].Writing? && s2.processes[p].written == 0 && s2.file == Some([]);
    assert Step(s2, Write(p, KEY_LENGTH)).processes[p].Returned?;
  }

  lemma FinishesReading(s: State, p: nat)
    requires p < |s.processes| && s.processes[p].Reading? && s.file.Some? && |s.file.value| == KEY_LENGTH
    requires s.processes[p].got <= s.file.value
    ensures var t := Step(Step(s, Read(p, KEY_LENGTH)), Read(p, KEY_LENGTH)); p < |t.processes| && t.processes[p].Returned?
  {
  }

  lemma FinishesWithFile(s: State, p: nat, drawn: Key)
    requires Inv(s) && p < |s.processes| && Live(s.processes[p]) && s.file.Some? && |s.file.value| == KEY_LENGTH
    ensures p < |FiveSteps(s, p, drawn).processes| && FiveSteps(s, p, drawn).processes[p].Returned?
  {
    assert Agrees(s.file, s.processes[p]);
    var s3 := Step(Step(Step(s, Look(p, drawn)), Create(p)), Write(p, KEY_LENGTH));
    assert s3.processes[p].Reading? && s3.processes[p].got <= s.file.value && s3.file == s.file;
    FinishesReading(s3, p);
  }

  lemma WriterCompletes(s: State, w: nat)
    requires Inv(s) && w < |s.processes| && s.processes[w].Writing?
    ensures s.processes[w].written < KEY_LENGTH
    ensures var t := Step(s, Write(w, KEY_LENGTH - s.processes[w].written));
            && Inv(t) && t.file.Some? && |t.file.value| == KEY_LENGTH && t.processes[w].Returned?
            && |t.processes| == |s.processes| && forall q :: 0 <= q < |s.processes| && q != w ==> t.processes[q] == s.processes[q]
  {
    assert Agrees(s.file, s.processes[w]);
    StepKeepsInv(s, Write(w, KEY_LENGTH - s.processes[w].written));
  }

  ghost predicate Returns(s: State, actions: seq<Action>, p: nat) {
    exists key :: Finished(Run(s, actions), p, key)
  }

  lemma Succeeds(s: State, p: nat, drawn: Key) returns (actions: seq<Action>)
    requires Inv(s) && p < |s.processes| && Live(s.processes[p]) && !Broken(s) && |drawn| == KEY_LENGTH
    ensures Returns(s, actions, p)
  {
    hide Step, Inv;
    if HasWriter(s) {
      var w :| 0 <= w < |s.processes| && s.processes[w].Writing?;
      WriterCompletes(s, w);
      var last := Write(w, KEY_LENGTH - s.processes[w].written);
      var t := Step(s, last);
      if w == p {
        actions := [last];
        assert Run(t, []) == t && Finished(Run(s, actions), p, t.processes[p].key);
      } else {
        FinishesWithFile(t, p, drawn);
        FinishingRuns(t, p, drawn);
        actions := [last] + Finishing(p, drawn);
        assert actions[1..] == Finishing(p, drawn);
        Completed(s, actions, p);
      }
    } else {
      if s.file.None? {
        FinishesWithoutFile(s, p, drawn);
      } else {
        FinishesWithFile(s, p, drawn);
      }
      FinishingRuns(s, p, drawn);
      actions := Finishing(p, drawn);
      Completed(s, actions, p);
    }
  }

  lemma Completed(s: State, actions: seq<Action>, p: nat)
    requires p < |Run(s, actions).processes| && Run(s, actions).processes[p].Returned?
    ensures Returns(s, actions, p)
  {
    hide Run;
    assert Finished(Run(s, actions), p, Run(s, actions).processes[p].key);
  }

  /**
   A process still at work can yet obtain a key unless the file is broken: a creator that dies
   between creating the file and writing its last byte shuts out every later start.
   */
  lemma SucceedsUnlessBroken(s: State, p: nat)
    requires Inv(s) && p < |s.processes| && Live(s.processes[p])
    ensures (exists actions :: Returns(s, actions, p)) <==> !Broken(s)
  {
    hide Inv, Broken;
    if Broken(s) {
      forall actions
        ensures !Returns(s, actions, p)
      {
        BrokenForever(s, actions);
      }
    } else {
      var actions := Succeeds(s, p, seq(KEY_LENGTH, i => 0));
    }
  }

  /** It takes one process and one kill: after it no start ever succeeds on this directory. */
  lemma KilledCreatorBreaksTheFile(s: State, p: nat, drawn: Key, after: seq<Action>)
    requires Initial(s) && p < |s.processes| && s.file.None? && |drawn| == KEY_LENGTH
    ensures var killed := Step(Step(Step(s, Look(p, drawn)), Create(p)), Fail(p));
            Broken(killed) && forall q: nat, key :: !Finished(Run(killed, after), q, key)
  {
    var created := Step(Step(s, Look(p, drawn)), Create(p));
    var killed := Step(created, Fail(p));
    assert created.file == Some([]) && created.processes[p] == Writing(drawn, 0);
    assert killed.file == Some([]) && killed.processes == s.processes[p := Failed];
    BrokenForever(killed, after);
  }

  // ------------------------------------------------------------- the shared key

  /** The process-wide key: the first one set stays. */
  class SharedKey {
    var key: Option<Key>

    constructor ()
      ensures key == None
    {
      key := None;
    }

    /** `init_shared`. */
    method InitShared(k: Key) returns (won: bool)
      modifies this
      ensures won <==> old(key) == None
      ensures key == if won then Some(k) else old(key)
    {
      won := key == None;
      if won {
        key := Some(k);
      }
    }
  }
}
