/**
 The restart loop of foton-bedrock/src/geyser.rs. Everything outside the loop's control (when the
 child exits, whether a sleep is cut short, whether a spawn works) is one outcome of one await; a
 run is any sequence of outcomes, and a run that stops short is one still waiting.
 */
module GeyserSupervision {
  const MIN_HEALTHY_UPTIME: real := 60.0
  const INITIAL_BACKOFF: nat := 1
  const MAX_BACKOFF: nat := 60
  const MAX_CONSECUTIVE_FAILURES: nat := 5

  datatype Outcome =
    | Exited(uptime: real)
    | LostTrack(uptime: real)
    | SleptOut
    | Spawned
    | SpawnFailed
    | Cancelled

  /** The wait for the child returned: with its exit, or with an error that tells nothing of it. */
  predicate Returned(o: Outcome) {
    o.Exited? || o.LostTrack?
  }

  /** What the supervisor is waiting for, or why it has stopped. */
  datatype Phase = Watching | Sleeping | Spawning | GaveUp | CancelledWatching | CancelledSleeping

  /** `stray`: the handle kept while respawning is of a child whose wait failed, and which may still run. */
  datatype State = State(phase: Phase, backoff: nat, failures: nat, stray: bool)

  const INITIAL := State(Watching, INITIAL_BACKOFF, 0, false)

  predicate Over(s: State) {
    s.phase.GaveUp? || s.phase.CancelledWatching? || s.phase.CancelledSleeping?
  }

  /** The outcomes each await can have. */
  predicate CanHappen(s: State, o: Outcome) {
    match s.phase
    case Watching => Returned(o) || o.Cancelled?
    case Sleeping => o.SleptOut? || o.Cancelled?
    case Spawning => o.Spawned? || o.SpawnFailed?
    case _ => false
  }

  function Doubled(backoff: nat): nat {
    if backoff * 2 < MAX_BACKOFF then backoff * 2 else MAX_BACKOFF
  }

  /** The head of the retry loop. */
  function Retrying(backoff: nat, failures: nat, stray: bool): State {
    if failures + 1 >= MAX_CONSECUTIVE_FAILURES then State(GaveUp, backoff, failures + 1, false)
    else State(Sleeping, backoff, failures + 1, stray)
  }

  predicate Healthy(o: Outcome) {
    Returned(o) && o.uptime >= MIN_HEALTHY_UPTIME
  }

  /** A handle is dropped, and its process killed, when another child replaces it or the supervisor returns. */
  function Step(s: State, o: Outcome): State
    requires CanHappen(s, o)
  {
    match s.phase
    case Watching =>
      if o.Cancelled? then s.(phase := CancelledWatching)
      else if Healthy(o) then Retrying(INITIAL_BACKOFF, 0, o.LostTrack?)
      else Retrying(s.backoff, s.failures, o.LostTrack?)
    case Sleeping =>
      if o.Cancelled? then s.(phase := CancelledSleeping, stray := false)
      else s.(phase := Spawning, backoff := Doubled(s.backoff))
    case Spawning =>
      if o.Spawned? then s.(phase := Watching, stray := false) else Retrying(s.backoff, s.failures, s.stray)
  }

  ghost predicate Possible(s: State, run: seq<Outcome>)
    decreases |run|
  {
    run == [] || (CanHappen(s, run[0]) && Possible(Step(s, run[0]), run[1..]))
  }

  ghost function After(s: State, run: seq<Outcome>): State
    requires Possible(s, run)
    decreases |run|
  {
    if run == [] then s else After(Step(s, run[0]), run[1..])
  }

  /** How long each sleep of the run was asked to be. */
  ghost function Sleeps(s: State, run: seq<Outcome>): seq<nat>
    requires Possible(s, run)
    decreases |run|
  {
    if run == [] then []
    else (if s.phase.Sleeping? then [s.backoff] else []) + Sleeps(Step(s, run[0]), run[1..])
  }

  function Max(a: nat, b: nat): nat {
    if a < b then b else a
  }

  /** The children that may be running in a state. */
  function Children(s: State): nat {
    (if s.phase.Watching? then 1 else 0) + (if s.stray then 1 else 0)
  }

  /** The most children that may run at the same time. A new one runs before the old handle is dropped. */
  ghost function MostChildren(s: State, run: seq<Outcome>): nat
    requires Possible(s, run)
    decreases |run|
  {
    if run == [] then Children(s)
    else Max(Children(s) + (if run[0].Spawned? then 1 else 0), MostChildren(Step(s, run[0]), run[1..]))
  }

  /** What was seen of a run: the sleeps and the most children at the same time. */
  datatype Trace = Trace(slept: seq<nat>, most: nat)

  /** What the run adds to what was seen before it. */
  ghost function Seen(seen: Trace, s: State, run: seq<Outcome>): Trace
    requires Possible(s, run)
  {
    Trace(seen.slept + Sleeps(s, run), Max(seen.most, MostChildren(s, run)))
  }

  /** From here the run leads to `end`, with `total` seen once what was already seen is counted. */
  ghost predicate LeadsTo(s: State, run: seq<Outcome>, seen: Trace, end: State, total: Trace) {
    Possible(s, run) && After(s, run) == end && Seen(seen, s, run) == total && Children(s) <= seen.most
  }

  function SeenStep(seen: Trace, s: State, o: Outcome): Trace {
    Trace(
      seen.slept + (if s.phase.Sleeping? then [s.backoff] else []),
      if o.Spawned? then Max(seen.most, Children(s) + 1) else seen.most)
  }

  lemma LeadsOn(s: State, run: seq<Outcome>, seen: Trace, end: State, total: Trace)
    requires LeadsTo(s, run, seen, end, total) && run != []
    ensures CanHappen(s, run[0])
    ensures LeadsTo(Step(s, run[0]), run[1..], SeenStep(seen, s, run[0]), end, total)
  {
    var now := if s.phase.Sleeping? then [s.backoff] else [];
    assert seen.slept + (now + Sleeps(Step(s, run[0]), run[1..])) == (seen.slept + now) + Sleeps(Step(s, run[0]), run[1..]);
  }

  lemma LeadsHere(s: State, run: seq<Outcome>, seen: Trace, end: State, total: Trace)
    requires LeadsTo(s, run, seen, end, total) && (run == [] || Over(s))
    ensures run == [] && s == end && seen == total
  {
  }

  // ------------------------------------------------------------- the supervisor

  /** The processes and the clock the supervisor drives, with the outcomes still to come. */
  class Host {
    var outcomes: seq<Outcome>
    var children: nat
    var most: nat
    var slept: seq<nat>

    constructor (outcomes: seq<Outcome>)
      ensures this.outcomes == outcomes && children == 1 && most == 1 && slept == []
    {
      this.outcomes, children, most, slept := outcomes, 1, 1, [];
    }

    method Next() returns (o: Outcome)
      requires outcomes != []
      modifies this`outcomes
      ensures o == old(outcomes)[0] && outcomes == old(outcomes)[1..]
    {
      o := outcomes[0];
      outcomes := outcomes[1..];
    }

    method Sleep(backoff: nat)
      modifies this`slept
      ensures slept == old(slept) + [backoff]
    {
      slept := slept + [backoff];
    }

    /** A child starts beside those already running. */
    method Start()
      modifies this`children, this`most
      ensures children == old(children) + 1 && most == Max(old(most), children)
    {
      children := children + 1;
      most := Max(most, children);
    }

    method End()
      requires children > 0
      modifies this`children
      ensures children == old(children) - 1
    {
      children := children - 1;
    }
  }

  class Supervisor {
    const host: Host
    var backoff: nat
    var failures: nat
    var stray: bool

    constructor (host: Host)
      ensures this.host == host && backoff == INITIAL_BACKOFF && failures == 0 && !stray
    {
      this.host, backoff, failures, stray := host, INITIAL_BACKOFF, 0, false;
    }

    ghost predicate Leads(s: State, end: State, total: Trace)
      reads host
    {
      LeadsTo(s, host.outcomes, Trace(host.slept, host.most), end, total)
    }

    /** Where the supervisor stands in a phase, the old handle being kept only while it respawns. */
    function Standing(phase: Phase): State
      reads this
    {
      State(phase, backoff, failures, stray && (phase.Sleeping? || phase.Spawning?))
    }

    /** `respawn`: the phase it ends in, which is `Sleeping` or `Spawning` only when the run ends there. */
    method Respawn(ghost end: State, ghost total: Trace) returns (phase: Phase)
      requires Leads(Retrying(backoff, failures, stray), end, total) && host.children == (if stray then 1 else 0)
      modifies this`backoff, this`failures, host
      ensures Leads(Standing(phase), end, total)
      ensures host.children == (if stray then 1 else 0) + (if phase.Watching? then 1 else 0)
      ensures |host.outcomes| <= old(|host.outcomes|)
      ensures host.outcomes == [] || phase.Watching?
    {
      hide LeadsTo;
      while true
        invariant host.children == (if stray then 1 else 0) && |host.outcomes| <= old(|host.outcomes|)
        invariant Leads(Retrying(backoff, failures, stray), end, total)
        decreases |host.outcomes|
      {
        ghost var s := Retrying(backoff, failures, stray);
        failures := failures + 1;
        if failures >= MAX_CONSECUTIVE_FAILURES {
          LeadsHere(s, host.outcomes, Trace(host.slept, host.most), end, total);
          return GaveUp;
        }
        if host.outcomes == [] {
          return Sleeping;
        }
        LeadsOn(s, host.outcomes, Trace(host.slept, host.most), end, total);
        s := Step(s, host.outcomes[0]);
        host.Sleep(backoff);
        var woken := host.Next();
        if woken.Cancelled? {
          LeadsHere(s, host.outcomes, Trace(host.slept, host.most), end, total);
          return CancelledSleeping;
        }
        backoff := if backoff * 2 < MAX_BACKOFF then backoff * 2 else MAX_BACKOFF;
        if host.outcomes == [] {
          return Spawning;
        }
        LeadsOn(s, host.outcomes, Trace(host.slept, host.most), end, total);
        assert host.slept + [] == host.slept;
        var spawned := host.Next();
        if spawned.Spawned? {
          host.Start();
          return Watching;
        }
      }
    }

    /** `child = next` and every return drop the old handle, which kills what still runs behind it. */
    method DropOld()
      requires stray ==> host.children > 0
      modifies this`stray, host`children
      ensures !stray && host.children == old(host.children) - (if old(stray) then 1 else 0)
    {
      if stray {
        host.End();
      }
      stray := false;
    }

    /** `supervise`: follows the run it is given to its end. */
    method Supervise() returns (phase: Phase)
      requires backoff == INITIAL_BACKOFF && failures == 0 && !stray && host.children == 1 && host.most == 1
      requires Possible(INITIAL, host.outcomes)
      modifies this, host
      ensures State(phase, backoff, failures, stray) == old(After(INITIAL, host.outcomes))
      ensures host.slept == old(host.slept + Sleeps(INITIAL, host.outcomes))
      ensures host.most == old(MostChildren(INITIAL, host.outcomes))
      ensures host.children == Children(State(phase, backoff, failures, stray))
      ensures host.outcomes == []
    {
      ghost var end := After(INITIAL, host.outcomes);
      ghost var total := Seen(Trace(host.slept, host.most), INITIAL, host.outcomes);
      AtLeastNow(INITIAL, host.outcomes);
      hide Possible, After, Sleeps, MostChildren;
      while true
        invariant Leads(State(Watching, backoff, failures, false), end, total)
        invariant host.children == 1 && !stray
        decreases |host.outcomes|
      {
        ghost var s := State(Watching, backoff, failures, false);
        if host.outcomes == [] {
          LeadsHere(s, host.outcomes, Trace(host.slept, host.most), end, total);
          return Watching;
        }
        LeadsOn(s, host.outcomes, Trace(host.slept, host.most), end, total);
        assert host.slept + [] == host.slept;
        s := Step(s, host.outcomes[0]);
        var exited := host.Next();
        if exited.Cancelled? {
          LeadsHere(s, host.outcomes, Trace(host.slept, host.most), end, total);
          host.End();
          return CancelledWatching;
        }
        if exited.Exited? {
          host.End();
        }
        stray := exited.LostTrack?;
        if exited.uptime >= MIN_HEALTHY_UPTIME {
          failures := 0;
          backoff := INITIAL_BACKOFF;
        }
        phase := Respawn(end, total);
        if phase.Sleeping? || phase.Spawning? {
          LeadsHere(Standing(phase), host.outcomes, Trace(host.slept, host.most), end, total);
          return;
        }
        DropOld();
        if !phase.Watching? {
          LeadsHere(Standing(phase), host.outcomes, Trace(host.slept, host.most), end, total);
          return;
        }
      }
    }
  }

  lemma AtLeastNow(s: State, run: seq<Outcome>)
    requires Possible(s, run)
    ensures MostChildren(s, run) >= Children(s)
  {
  }

  // ------------------------------------------------------------------- every run

  lemma {:induction false} AfterMore(s: State, run: seq<Outcome>, o: Outcome)
    requires Possible(s, run + [o])
    ensures Possible(s, run) && CanHappen(After(s, run), o)
    ensures After(s, run + [o]) == Step(After(s, run), o)
    decreases |run|
  {
    hide Step, CanHappen;
    if run == [] {
      assert run + [o] == [o];
    } else {
      assert (run + [o])[1..] == run[1..] + [o];
      AfterMore(Step(s, run[0]), run[1..], o);
    }
  }

  function Power2(n: nat): (p: nat)
    ensures p > 0
  {
    if n == 0 then 1 else 2 * Power2(n - 1)
  }

  function BackoffAfter(failures: nat): nat {
    if Power2(failures) < MAX_BACKOFF then Power2(failures) else MAX_BACKOFF
  }

  /** The spawn attempts the failures of the current streak stand for. */
  function Attempted(s: State): int {
    match s.phase
    case Watching => s.failures
    case CancelledWatching => s.failures
    case _ => s.failures - 1
  }

  /** In the states a run reaches, the counters are tied to each other. */
  ghost predicate Reachable(s: State) {
    && (s.stray ==> s.phase.Sleeping? || s.phase.Spawning?)
    && (s.phase.GaveUp? ==> s.failures == MAX_CONSECUTIVE_FAILURES)
    && (!s.phase.GaveUp? ==> s.failures < MAX_CONSECUTIVE_FAILURES)
    && (!s.phase.Watching? && !s.phase.CancelledWatching? ==> s.failures > 0)
    && s.backoff == if s.phase.Sleeping? || s.phase.CancelledSleeping? || s.phase.GaveUp? then BackoffAfter(s.failures - 1) else BackoffAfter(s.failures)
  }

  lemma BackoffGrows(failures: nat)
    ensures BackoffAfter(failures + 1) == Doubled(BackoffAfter(failures))
    ensures BackoffAfter(0) == INITIAL_BACKOFF
  {
    assert Power2(failures + 1) == 2 * Power2(failures);
  }

  lemma StepReachable(s: State, o: Outcome)
    requires Reachable(s) && CanHappen(s, o)
    ensures Reachable(Step(s, o))
  {
    hide BackoffAfter, Doubled;
    BackoffGrows(s.failures);
    if s.failures > 0 {
      BackoffGrows(s.failures - 1);
    }
  }

  /** In every run the backoff is two to the number of failures, capped. */
  lemma {:induction false} BackoffFollowsFailures(s: State, run: seq<Outcome>)
    requires Reachable(s) && Possible(s, run)
    ensures Reachable(After(s, run))
    decreases |run|
  {
    hide Reachable, Step, CanHappen;
    if run != [] {
      StepReachable(s, run[0]);
      BackoffFollowsFailures(Step(s, run[0]), run[1..]);
    }
  }

  /** The give-up limit ends every streak before the cap: a sleep is 1, 2, 4 or 8 seconds. */
  lemma {:induction false} SleepsAreShort(s: State, run: seq<Outcome>)
    requires Reachable(s) && Possible(s, run)
    ensures forall i :: 0 <= i < |Sleeps(s, run)| ==> Sleeps(s, run)[i] in {1, 2, 4, 8}
    decreases |run|
  {
    hide Step, CanHappen, Reachable;
    if run != [] {
      StepReachable(s, run[0]);
      SleepsAreShort(Step(s, run[0]), run[1..]);
      SleepIsShort(s);
    }
  }

  lemma SleepIsShort(s: State)
    requires Reachable(s)
    ensures s.phase.Sleeping? ==> s.backoff in {1, 2, 4, 8}
  {
    assert Power2(0) == 1 && Power2(1) == 2 && Power2(2) == 4 && Power2(3) == 8;
  }

  function HealthyExits(run: seq<Outcome>): nat {
    if run == [] then 0 else (if Healthy(run[0]) then 1 else 0) + HealthyExits(run[1..])
  }

  function SpawnAttempts(run: seq<Outcome>): nat {
    if run == [] then 0 else (if run[0].Spawned? || run[0].SpawnFailed? then 1 else 0) + SpawnAttempts(run[1..])
  }

  lemma StepAttempts(s: State, o: Outcome)
    requires Reachable(s) && CanHappen(s, o)
    ensures (if o.Spawned? || o.SpawnFailed? then 1 else 0) + Attempted(s)
         <= Attempted(Step(s, o)) + (if Healthy(o) then 4 else 0)
    ensures !Healthy(o) ==> (if o.Spawned? || o.SpawnFailed? then 1 else 0) + Attempted(s) == Attempted(Step(s, o))
  {
    hide BackoffAfter;
  }

  lemma {:induction false} AttemptsAreBounded(s: State, run: seq<Outcome>)
    requires Reachable(s) && Possible(s, run)
    ensures SpawnAttempts(run) + Attempted(s) <= Attempted(After(s, run)) + 4 * HealthyExits(run)
    ensures HealthyExits(run) == 0 ==> SpawnAttempts(run) + Attempted(s) == Attempted(After(s, run))
    decreases |run|
  {
    hide Reachable, Step, CanHappen, Attempted, Healthy;
    if run != [] {
      StepReachable(s, run[0]);
      StepAttempts(s, run[0]);
      AttemptsAreBounded(Step(s, run[0]), run[1..]);
    }
  }

  lemma AttemptedAtMostFour(s: State)
    requires Reachable(s)
    ensures 0 <= Attempted(s) <= 4
  {
    hide BackoffAfter;
  }

  /** A run with some healthy exits restarts the child at most four times for each, and four times more. */
  lemma RestartsAreBounded(run: seq<Outcome>)
    requires Possible(INITIAL, run)
    ensures SpawnAttempts(run) <= 4 * (HealthyExits(run) + 1)
  {
    hide Reachable, Possible, After;
    StartReachable();
    AttemptsAreBounded(INITIAL, run);
    BackoffFollowsFailures(INITIAL, run);
    AttemptedAtMostFour(After(INITIAL, run));
  }

  /** Between healthy exits, wherever the window lies in the run, at most four attempts are made. */
  lemma FourBetweenHealthyExits(before: seq<Outcome>, window: seq<Outcome>)
    requires Possible(INITIAL, before) && Possible(After(INITIAL, before), window) && HealthyExits(window) == 0
    ensures SpawnAttempts(window) <= 4
  {
    hide Reachable;
    var s := After(INITIAL, before);
    StartReachable();
    BackoffFollowsFailures(INITIAL, before);
    BackoffFollowsFailures(s, window);
    AttemptsAreBounded(s, window);
    AttemptedAtMostFour(s);
    AttemptedAtMostFour(After(s, window));
  }

  lemma StartReachable()
    ensures Reachable(INITIAL)
  {
    assert Power2(0) == 1;
  }

  /** The failures since the last exit of a child that had been healthy, that exit included. */
  function Streak(run: seq<Outcome>): nat
    decreases |run|
  {
    if run == [] then 0
    else
      var (earlier, o) := (run[..|run| - 1], run[|run| - 1]);
      if Healthy(o) then 1 else if Returned(o) || o.SpawnFailed? then Streak(earlier) + 1 else Streak(earlier)
  }

  /** The supervisor gives up exactly when five exits or failed spawns have followed each other. */
  lemma {:induction false} GivesUpExactly(run: seq<Outcome>)
    requires Possible(INITIAL, run)
    ensures After(INITIAL, run).failures == Streak(run)
    ensures After(INITIAL, run).phase.GaveUp? <==> Streak(run) >= MAX_CONSECUTIVE_FAILURES
    decreases |run|
  {
    hide Possible, After, BackoffAfter;
    if run != [] {
      var (earlier, o) := (run[..|run| - 1], run[|run| - 1]);
      assert run == earlier + [o];
      AfterMore(INITIAL, earlier, o);
      GivesUpExactly(earlier);
    } else {
      EmptyRun();
    }
    StartReachable();
    BackoffFollowsFailures(INITIAL, run);
  }

  lemma EmptyRun()
    ensures After(INITIAL, []) == INITIAL
  {
  }

  // ------------------------------------------------- crash loops and long-lived children

  /** No child of the run lived as long as sixty seconds. */
  ghost predicate ShortLived(run: seq<Outcome>) {
    forall i :: 0 <= i < |run| && (run[i].Exited? || run[i].LostTrack?) ==> run[i].uptime < 60.0
  }

  /** Every child of the run did, and every respawn works. */
  ghost predicate LongLived(run: seq<Outcome>) {
    forall i :: 0 <= i < |run| ==>
      !run[i].SpawnFailed? && (run[i].Exited? || run[i].LostTrack? ==> run[i].uptime >= 60.0)
  }

  function Returns(run: seq<Outcome>): nat {
    if run == [] then 0 else (if run[0].Exited? || run[0].LostTrack? then 1 else 0) + Returns(run[1..])
  }

  function FailedSpawns(run: seq<Outcome>): nat {
    if run == [] then 0 else (if run[0].SpawnFailed? then 1 else 0) + FailedSpawns(run[1..])
  }

  lemma {:induction false} ShortLivedCounts(s: State, run: seq<Outcome>)
    requires Possible(s, run) && ShortLived(run)
    ensures HealthyExits(run) == 0
    ensures After(s, run).failures == s.failures + Returns(run) + FailedSpawns(run)
    decreases |run|
  {
    if run != [] {
      var rest := run[1..];
      assert forall i :: 0 <= i < |rest| ==> rest[i] == run[i + 1];
      ShortLivedCounts(Step(s, run[0]), rest);
    }
  }

  /** Children that keep dying within a minute are restarted four times at most, and then given up. */
  lemma CrashLoopEnds(run: seq<Outcome>)
    requires Possible(INITIAL, run) && ShortLived(run)
    ensures SpawnAttempts(run) <= 4
    ensures After(INITIAL, run).phase.GaveUp? <==> Returns(run) + FailedSpawns(run) >= 5
  {
    hide Possible, After, BackoffAfter;
    StartReachable();
    ShortLivedCounts(INITIAL, run);
    AttemptsAreBounded(INITIAL, run);
    BackoffFollowsFailures(INITIAL, run);
    AttemptedAtMostFour(After(INITIAL, run));
  }

  /** A child dies, and the next one is there after the wait. */
  function Crash(uptime: real): seq<Outcome> {
    [Exited(uptime), SleptOut, Spawned]
  }

  /** A crash loop waits one, two, four and eight seconds, in this order, and is then given up. */
  lemma CrashLoopSleeps(a: real, b: real, c: real, d: real, e: real)
    requires a < 60.0 && b < 60.0 && c < 60.0 && d < 60.0 && e < 60.0
    ensures var run := Crash(a) + (Crash(b) + (Crash(c) + (Crash(d) + [Exited(e)])));
            Possible(INITIAL, run) && Sleeps(INITIAL, run) == [1, 2, 4, 8] && After(INITIAL, run).phase.GaveUp?
  {
    hide Possible, Sleeps, After, Crash;
    var s1, s2, s3, s4 := State(Watching, 2, 1, false), State(Watching, 4, 2, false), State(Watching, 8, 3, false), State(Watching, 16, 4, false);
    LastCrash(s4, e);
    OneCrash(s3, d, [Exited(e)]);
    OneCrash(s2, c, Crash(d) + [Exited(e)]);
    OneCrash(s1, b, Crash(c) + (Crash(d) + [Exited(e)]));
    OneCrash(INITIAL, a, Crash(b) + (Crash(c) + (Crash(d) + [Exited(e)])));
  }

  lemma LastCrash(s: State, uptime: real)
    requires s.phase.Watching? && s.failures == 4 && uptime < 60.0
    ensures var run := [Exited(uptime)];
            Possible(s, run) && Sleeps(s, run) == [] && After(s, run).phase.GaveUp?
  {
    var run := [Exited(uptime)];
    assert run[1..] == [];
  }

  lemma OneCrash(s: State, uptime: real, rest: seq<Outcome>)
    requires s.phase.Watching? && s.failures < 4 && uptime < 60.0
    requires Possible(State(Watching, Doubled(s.backoff), s.failures + 1, false), rest)
    ensures var run, t := Crash(uptime) + rest, State(Watching, Doubled(s.backoff), s.failures + 1, false);
            && Possible(s, run) && Sleeps(s, run) == [s.backoff] + Sleeps(t, rest) && After(s, run) == After(t, rest)
  {
    hide Possible, Sleeps, After;
    var asleep := State(Sleeping, s.backoff, s.failures + 1, false);
    var spawning := State(Spawning, Doubled(s.backoff), s.failures + 1, false);
    OneOutcome(spawning, Spawned, rest);
    OneOutcome(asleep, SleptOut, [Spawned] + rest);
    OneOutcome(s, Exited(uptime), [SleptOut] + ([Spawned] + rest));
    assert Crash(uptime) + rest == [Exited(uptime)] + ([SleptOut] + ([Spawned] + rest));
  }

  lemma OneOutcome(s: State, o: Outcome, rest: seq<Outcome>)
    requires CanHappen(s, o) && Possible(Step(s, o), rest)
    ensures Possible(s, [o] + rest) && After(s, [o] + rest) == After(Step(s, o), rest)
    ensures Sleeps(s, [o] + rest) == (if s.phase.Sleeping? then [s.backoff] else []) + Sleeps(Step(s, o), rest)
  {
    hide CanHappen, Step;
    assert ([o] + rest)[1..] == rest;
  }

  /** A child that lives a minute starts everything anew: one second of waiting, and no giving up. */
  lemma {:induction false} LongLivedFrom(s: State, run: seq<Outcome>)
    requires Possible(s, run) && LongLived(run) && !s.phase.GaveUp?
    requires s.phase.Sleeping? ==> s.backoff == 1
    ensures !After(s, run).phase.GaveUp?
    ensures forall i :: 0 <= i < |Sleeps(s, run)| ==> Sleeps(s, run)[i] == 1
    decreases |run|
  {
    if run != [] {
      var rest := run[1..];
      assert forall i :: 0 <= i < |rest| ==> rest[i] == run[i + 1];
      LongLivedFrom(Step(s, run[0]), rest);
    }
  }

  lemma LongLivedChildren(run: seq<Outcome>)
    requires Possible(INITIAL, run) && LongLived(run)
    ensures !After(INITIAL, run).phase.GaveUp?
    ensures forall i :: 0 <= i < |Sleeps(INITIAL, run)| ==> Sleeps(INITIAL, run)[i] == 1
  {
    LongLivedFrom(INITIAL, run);
  }

  // ------------------------------------------------------------------- children

  /** A child starts although the wait for an earlier one failed. */
  ghost predicate StartsAfterLoss(run: seq<Outcome>) {
    exists i, j :: 0 <= i < j < |run| && run[i].LostTrack? && run[j].Spawned?
  }

  ghost predicate Starts(run: seq<Outcome>) {
    exists j :: 0 <= j < |run| && run[j].Spawned?
  }

  lemma StartsSplit(run: seq<Outcome>)
    requires run != []
    ensures Starts(run) <==> run[0].Spawned? || Starts(run[1..])
    ensures StartsAfterLoss(run) <==> (run[0].LostTrack? && Starts(run[1..])) || StartsAfterLoss(run[1..])
  {
    var rest := run[1..];
    assert forall j :: 0 < j < |run| ==> run[j] == rest[j - 1];
    assert forall j :: 0 <= j < |rest| ==> rest[j] == run[j + 1];
    if Starts(rest) {
      var j :| 0 <= j < |rest| && rest[j].Spawned?;
      assert run[j + 1].Spawned?;
    }
    if StartsAfterLoss(rest) {
      var i, j :| 0 <= i < j < |rest| && rest[i].LostTrack? && rest[j].Spawned?;
      assert run[i + 1].LostTrack? && run[j + 1].Spawned?;
    }
  }

  lemma {:induction false} ChildrenFrom(s: State, run: seq<Outcome>)
    requires Reachable(s) && Possible(s, run)
    ensures MostChildren(s, run) <= 2
    ensures MostChildren(s, run) == 2 <==> (s.stray && Starts(run)) || StartsAfterLoss(run)
    decreases |run|
  {
    hide Starts, StartsAfterLoss, BackoffAfter, Doubled;
    if run == [] {
      NothingStarts();
    } else {
      StepReachable(s, run[0]);
      ChildrenFrom(Step(s, run[0]), run[1..]);
      StartsSplit(run);
      OverIsOver(Step(s, run[0]), run[1..]);
      NothingStarts();
    }
  }

  lemma OverIsOver(s: State, run: seq<Outcome>)
    requires Possible(s, run)
    ensures Over(s) ==> run == []
  {
  }

  lemma NothingStarts()
    ensures !Starts([]) && !StartsAfterLoss([])
  {
  }

  /** At most one child runs at any time, except that two may if one starts after a failed wait; never more. */
  lemma TwoChildrenExactly(run: seq<Outcome>)
    requires Possible(INITIAL, run)
    ensures MostChildren(INITIAL, run) == if StartsAfterLoss(run) then 2 else 1
  {
    StartReachable();
    ChildrenFrom(INITIAL, run);
    AtLeastNow(INITIAL, run);
  }

  /** A supervisor that has stopped leaves no child, and one that watches has exactly its own. */
  lemma ChildrenAtRest(run: seq<Outcome>)
    requires Possible(INITIAL, run)
    ensures var s := After(INITIAL, run);
            && (Over(s) ==> Children(s) == 0)
            && (s.phase.Watching? ==> Children(s) == 1)
  {
    hide Possible, After;
    StartReachable();
    BackoffFollowsFailures(INITIAL, run);
  }

  // --------------------------------------------------------------- cancellation

  /**
   The outcomes once the token has fired. A sleep begun after that ends at once as cancelled, since
   its time has not passed; only one already under way, the first of these outcomes, may still end
   by itself. A child that happens to have exited may win over the token at any time.
   */
  predicate AfterToken(rest: seq<Outcome>) {
    forall i :: 0 < i < |rest| ==> !rest[i].SleptOut?
  }

  function OutcomesLeft(s: State): nat {
    match s.phase
    case Watching => 2
    case Sleeping => 1
    case Spawning => 3
    case _ => 0
  }

  lemma {:induction false} WithoutSleep(s: State, rest: seq<Outcome>)
    requires Possible(s, rest) && forall i :: 0 <= i < |rest| ==> !rest[i].SleptOut?
    ensures |rest| <= OutcomesLeft(s) && (|rest| == OutcomesLeft(s) ==> Over(After(s, rest)))
    ensures SpawnAttempts(rest) <= if s.phase.Spawning? then 1 else 0
    decreases |rest|
  {
    if rest != [] {
      assert CanHappen(s, rest[0]);
      WithoutSleep(Step(s, rest[0]), rest[1..]);
    }
  }

  /** After the token fires at most one more child is spawned, and within four outcomes all is over. */
  lemma CancellationEnds(s: State, rest: seq<Outcome>)
    requires Possible(s, rest) && AfterToken(rest)
    ensures SpawnAttempts(rest) <= 1
    ensures |rest| <= 4 && (|rest| == 4 ==> Over(After(s, rest)))
  {
    if rest != [] {
      assert CanHappen(s, rest[0]);
      WithoutSleep(Step(s, rest[0]), rest[1..]);
    }
  }
}
