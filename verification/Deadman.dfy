/**
 The dead man's switch: its controller (trigger.rs) and the daemon loop
 (daemon.rs) as a step machine whose atomic loads interleave with stores by
 other threads and with the passing of time.
 */
module Deadman {
  import opened Wrappers

  // ----- The controller -----

  datatype DeadmanState = Disarmed | Armed

  datatype DeadmanError = AlreadyArmed | NotArmed

  class DeadmanController {
    var armed: bool
    var state: DeadmanState
    var shutdown: bool

    ghost predicate Valid()
      reads this
    {
      armed <==> state == Armed
    }

    constructor ()
      ensures Valid() && !armed && !shutdown
    {
      armed, state, shutdown := false, Disarmed, false;
    }

    method Arm() returns (e: Option<DeadmanError>)
      requires Valid()
      modifies this
      ensures Valid() && armed && shutdown == old(shutdown)
      ensures e == if old(armed) then Some(AlreadyArmed) else None
    {
      if armed {
        return Some(AlreadyArmed);
      }
      armed := true;
      state := Armed;
      return None;
    }

    method Disarm() returns (e: Option<DeadmanError>)
      requires Valid()
      modifies this
      ensures Valid() && !armed
      ensures e == if old(armed) then None else Some(NotArmed)
      ensures shutdown == (old(shutdown) || old(armed))
    {
      if !armed {
        return Some(NotArmed);
      }
      armed := false;
      state := Disarmed;
      shutdown := true;
      return None;
    }
  }

  class DeadmanDaemon {
    const controller: DeadmanController
    var shutdown: bool

    constructor ()
      ensures fresh(controller) && controller.Valid() && !controller.armed && !shutdown
    {
      controller := new DeadmanController();
      shutdown := false;
    }

    /** Disarming stops the loop only when the switch was armed. */
    method Disarm() returns (e: Option<DeadmanError>)
      requires controller.Valid()
      modifies this, controller
      ensures controller.Valid() && !controller.armed
      ensures shutdown == (old(shutdown) || old(controller.armed))
      ensures e == if old(controller.armed) then None else Some(NotArmed)
    {
      e := controller.Disarm();
      if e == None {
        shutdown := true;
      }
    }
  }

  // ----- The daemon loop -----

  /** Time is counted in nanoseconds. */
  const SECOND: nat := 1_000_000_000

  datatype Config = Config(checkInterval: nat, gracePeriod: nat)

  datatype TriggerResult = Ok | Fired | Error

  datatype Outcome = ShutDown | Destroyed | StoodDown

  /** Where the loop is; every case but the sleeps and the check takes no time. */
  datatype Pc =
    | Top
    | ArmedTest
    | CheckTest
    | Checking
    | Idle(until: nat)
    | GraceTest
    | PollArmed
    | PollShutdown
    | GraceSleep(until: nat)
    | Done(outcome: Outcome)

  /** What one poll of the grace period loaded, and when. */
  datatype Poll = Poll(at: nat, armed: bool, shutdown: bool)

  /**
   The machine, and a history that ends with the loop: whether the current check
   was begun while armed, when the grace period began, when it was polled, when
   the loop ended, since when the switch has been off, when shutdown was stored.
   */
  datatype State = State(
    pc: Pc, now: nat, armed: bool, shutdown: bool,
    checkedArmed: bool, sawArmed: bool, graceStart: nat, polls: seq<Poll>, doneAt: nat,
    disarmedAt: Option<nat>, shutdownAt: Option<nat>)

  datatype Action =
    | Daemon(result: TriggerResult)
    | Tick(d: nat)
    | StoreArmed(b: bool)
    | StoreShutdown

  function Init(): State {
    State(Top, 0, false, false, false, false, 0, [], 0, Some(0), None)
  }

  /** One step; an action that is not possible in a state leaves it alone. */
  function Next(cfg: Config, s: State, a: Action): State {
    match a
    case StoreArmed(b) =>
      if s.pc.Done? then s.(armed := b)
      else s.(armed := b, disarmedAt := if b then None else if s.armed then Some(s.now) else s.disarmedAt)
    case StoreShutdown =>
      if s.pc.Done? || s.shutdown then s.(shutdown := true)
      else s.(shutdown := true, shutdownAt := Some(s.now))
    case Tick(d) => if MayWait(s, d) then s.(now := s.now + d) else s
    case Daemon(result) => DaemonStep(cfg, s, result)
  }

  /** Sleeps are exact, and only sleeps, checks and the end of the loop let time pass. */
  predicate MayWait(s: State, d: nat) {
    match s.pc
    case Checking => true
    case Done(_) => true
    case Idle(until) => s.now + d <= until
    case GraceSleep(until) => s.now + d <= until
    case _ => false
  }

  function Deadline(cfg: Config, s: State): nat {
    s.graceStart + cfg.gracePeriod
  }

  /** The loop up to its next atomic load, sleep or wait. */
  function DaemonStep(cfg: Config, s: State, result: TriggerResult): State {
    match s.pc
    case Top => if s.shutdown then Finish(s, ShutDown) else s.(pc := ArmedTest)
    case ArmedTest => if s.armed then s.(pc := CheckTest) else s.(pc := Idle(s.now + cfg.checkInterval))
    case CheckTest =>
      if s.armed then s.(pc := Checking, checkedArmed := true)
      else s.(pc := Idle(s.now + cfg.checkInterval))
    case Checking =>
      if result == Fired then s.(pc := GraceTest, graceStart := s.now, polls := [])
      else s.(pc := Idle(s.now + cfg.checkInterval), checkedArmed := false)
    case Idle(until) => if s.now == until then s.(pc := Top) else s
    case GraceTest => if s.now - s.graceStart < cfg.gracePeriod then s.(pc := PollArmed) else Finish(s, Destroyed)
    case PollArmed => if s.armed then s.(pc := PollShutdown, sawArmed := s.armed) else Finish(s, StoodDown)
    case PollShutdown =>
      if s.shutdown then Finish(s, StoodDown)
      else
        var remaining := Deadline(cfg, s) - s.now;
        s.(pc := GraceSleep(s.now + if remaining < SECOND then remaining else SECOND),
           polls := s.polls + [Poll(s.now, s.sawArmed, s.shutdown)])
    case GraceSleep(until) => if s.now == until then s.(pc := GraceTest) else s
    case Done(_) => s
  }

  function Finish(s: State, o: Outcome): State {
    s.(pc := Done(o), doneAt := s.now)
  }

  function Run(cfg: Config, s: State, actions: seq<Action>): State
    decreases |actions|
  {
    if actions == [] then s else Run(cfg, Next(cfg, s, actions[0]), actions[1..])
  }

  // ----- What every reachable state satisfies -----

  /** Poll times are the whole seconds of the grace period, all before its end. */
  ghost predicate PolledEverySecond(cfg: Config, s: State) {
    && (forall i | 0 <= i < |s.polls| :: s.polls[i] == Poll(s.graceStart + i * SECOND, true, false))
    && (|s.polls| > 0 ==> s.graceStart + (|s.polls| - 1) * SECOND < Deadline(cfg, s))
  }

  /** The switch went off, or shutdown was stored, no earlier than the last poll. */
  ghost predicate QuietAtLastPoll(s: State) {
    |s.polls| > 0 ==>
      && (s.disarmedAt.Some? ==> s.disarmedAt.value >= s.graceStart + (|s.polls| - 1) * SECOND)
      && (s.shutdownAt.Some? ==> s.shutdownAt.value >= s.graceStart + (|s.polls| - 1) * SECOND)
  }

  ghost predicate InGrace(s: State) {
    s.pc.GraceTest? || s.pc.PollArmed? || s.pc.PollShutdown? || s.pc.GraceSleep? || s.pc == Done(Destroyed)
  }

  /** The time at which the loop comes back to the grace test. */
  function NextTest(cfg: Config, s: State): nat {
    var t := s.graceStart + |s.polls| * SECOND;
    if t < Deadline(cfg, s) then t else Deadline(cfg, s)
  }

  ghost predicate Inv(cfg: Config, s: State) {
    && (s.disarmedAt.Some? ==> s.disarmedAt.value <= s.now)
    && (!s.pc.Done? ==> (s.disarmedAt.Some? <==> !s.armed) && (s.shutdownAt.Some? <==> s.shutdown))
    && (s.pc == Checking ==> s.checkedArmed)
    && (InGrace(s) ==>
          && s.checkedArmed
          && PolledEverySecond(cfg, s)
          && (s.pc != PollShutdown ==> QuietAtLastPoll(s))
          && (s.pc == PollShutdown ==> s.sawArmed && PollIsNow(s)))
    && (s.pc == GraceTest ==> s.now == NextTest(cfg, s))
    && (s.pc == PollArmed || s.pc == PollShutdown ==> s.now == s.graceStart + |s.polls| * SECOND < Deadline(cfg, s))
    && (s.pc.GraceSleep? ==>
          && |s.polls| > 0 && s.pc.until == NextTest(cfg, s)
          && s.polls[|s.polls| - 1].at <= s.now <= s.pc.until)
    && (s.pc == Done(StoodDown) ==> s.disarmedAt.Some? || s.shutdownAt.Some?)
    && (s.pc == Done(Destroyed) ==> s.doneAt == Deadline(cfg, s) == NextTest(cfg, s))
  }

  /** Between the two loads of a poll the switch cannot have been off for any time. */
  ghost predicate PollIsNow(s: State) {
    && (s.disarmedAt.Some? ==> s.disarmedAt.value == s.now)
    && (|s.polls| > 0 && s.shutdownAt.Some? ==> s.shutdownAt.value >= s.graceStart + (|s.polls| - 1) * SECOND)
  }

  lemma PollKeepsInv(cfg: Config, s: State, result: TriggerResult)
    requires Inv(cfg, s) && s.pc == PollShutdown
    ensures Inv(cfg, DaemonStep(cfg, s, result))
  {
  }

  lemma GraceKeepsInv(cfg: Config, s: State, result: TriggerResult)
    requires Inv(cfg, s) && (s.pc == GraceTest || s.pc == PollArmed || s.pc.GraceSleep?)
    ensures Inv(cfg, DaemonStep(cfg, s, result))
  {
  }

  lemma DaemonKeepsInv(cfg: Config, s: State, result: TriggerResult)
    requires Inv(cfg, s)
    ensures Inv(cfg, DaemonStep(cfg, s, result))
  {
    if s.pc == PollShutdown {
      PollKeepsInv(cfg, s, result);
    } else if s.pc == GraceTest || s.pc == PollArmed || s.pc.GraceSleep? {
      GraceKeepsInv(cfg, s, result);
    }
  }

  lemma ArmingKeepsInv(cfg: Config, s: State, b: bool)
    requires Inv(cfg, s)
    ensures Inv(cfg, Next(cfg, s, StoreArmed(b)))
  {
  }

  lemma ShutdownKeepsInv(cfg: Config, s: State)
    requires Inv(cfg, s)
    ensures Inv(cfg, Next(cfg, s, StoreShutdown))
  {
  }

  lemma NextKeepsInv(cfg: Config, s: State, a: Action)
    requires Inv(cfg, s)
    ensures Inv(cfg, Next(cfg, s, a))
  {
    match a
    case Daemon(result) => DaemonKeepsInv(cfg, s, result);
    case StoreArmed(b) => ArmingKeepsInv(cfg, s, b);
    case StoreShutdown => ShutdownKeepsInv(cfg, s);
    case Tick(d) =>
  }

  lemma {:induction false} RunKeepsInv(cfg: Config, s: State, actions: seq<Action>)
    requires Inv(cfg, s)
    ensures Inv(cfg, Run(cfg, s, actions))
    decreases |actions|
  {
    if actions != [] {
      NextKeepsInv(cfg, s, actions[0]);
      RunKeepsInv(cfg, Next(cfg, s, actions[0]), actions[1..]);
    }
  }

  /**
   Whatever the interleaving, destruction follows a check begun while armed,
   comes exactly at the end of the grace period, and every whole second of that
   period was polled.
   */
  lemma DestructionIsEarned(cfg: Config, actions: seq<Action>)
    requires Run(cfg, Init(), actions).pc == Done(Destroyed)
    ensures var s := Run(cfg, Init(), actions);
            && s.checkedArmed
            && s.doneAt == s.graceStart + cfg.gracePeriod
            && (forall i | 0 <= i < |s.polls| :: s.polls[i] == Poll(s.graceStart + i * SECOND, true, false))
            && s.graceStart + |s.polls| * SECOND >= s.doneAt
            && (|s.polls| > 0 ==> s.polls[|s.polls| - 1].at < s.doneAt)
  {
    RunKeepsInv(cfg, Init(), actions);
  }

  /** A disarm or shutdown more than a second before the end of the grace period always prevents destruction. */
  lemma StandDownIsHeeded(cfg: Config, actions: seq<Action>)
    requires cfg.gracePeriod > 0
    ensures var s := Run(cfg, Init(), actions);
            s.pc == Done(Destroyed) ==>
              && (s.disarmedAt.Some? ==> s.disarmedAt.value + SECOND >= s.graceStart + cfg.gracePeriod)
              && (s.shutdownAt.Some? ==> s.shutdownAt.value + SECOND >= s.graceStart + cfg.gracePeriod)
  {
    RunKeepsInv(cfg, Init(), actions);
  }

  /** The loop stands down only if the switch was turned off or shutdown was stored. */
  lemma StandDownHasReason(cfg: Config, actions: seq<Action>)
    requires Run(cfg, Init(), actions).pc == Done(StoodDown)
    ensures var s := Run(cfg, Init(), actions); s.disarmedAt.Some? || s.shutdownAt.Some?
  {
    RunKeepsInv(cfg, Init(), actions);
  }

  // ----- The bound is exact -----

  lemma {:induction false} RunConcat(cfg: Config, s: State, a: seq<Action>, b: seq<Action>)
    ensures Run(cfg, s, a + b) == Run(cfg, Run(cfg, s, a), b)
    decreases |a|
  {
    if a == [] {
      assert a + b == b;
    } else {
      assert (a + b)[1..] == a[1..] + b;
      RunConcat(cfg, Next(cfg, s, a[0]), a[1..], b);
    }
  }

  /** A state at the grace test with the switch on and n polls behind it. */
  ghost predicate AtTest(cfg: Config, s: State, n: nat) {
    && s.pc == GraceTest && s.armed && !s.shutdown && s.shutdownAt == None
    && s.graceStart == 0 && s.now == n * SECOND && |s.polls| == n
  }

  /** One undisturbed round: test, two loads, a second of sleep. */
  lemma QuietRound(cfg: Config, s: State, n: nat) returns (round: seq<Action>)
    requires AtTest(cfg, s, n) && (n + 1) * SECOND < cfg.gracePeriod
    ensures AtTest(cfg, Run(cfg, s, round), n + 1)
  {
    round := [Daemon(Ok), Daemon(Ok), Daemon(Ok), Tick(SECOND), Daemon(Ok)];
    var s1 := Next(cfg, s, round[0]);
    var s2 := Next(cfg, s1, round[1]);
    var s3 := Next(cfg, s2, round[2]);
    var s4 := Next(cfg, s3, round[3]);
    assert s3.pc == GraceSleep(s.now + SECOND);
    FiveSteps(cfg, s, round);
    assert Run(cfg, s, round) == Next(cfg, s4, round[4]);
  }

  lemma FiveSteps(cfg: Config, s: State, a: seq<Action>)
    requires |a| == 5
    ensures Run(cfg, s, a) == Next(cfg, Next(cfg, Next(cfg, Next(cfg, Next(cfg, s, a[0]), a[1]), a[2]), a[3]), a[4])
  {
    var s1 := Next(cfg, s, a[0]);
    var s2 := Next(cfg, s1, a[1]);
    var s3 := Next(cfg, s2, a[2]);
    assert a[1..][1..] == a[2..] && a[2..][1..] == a[3..] && a[3..][1..] == a[4..] && a[4..][1..] == [];
    assert Run(cfg, s, a) == Run(cfg, s1, a[1..]) == Run(cfg, s2, a[2..]) == Run(cfg, s3, a[3..]);
    var s4 := Next(cfg, s3, a[3]);
    var s5 := Next(cfg, s4, a[4]);
    assert Run(cfg, s3, a[3..]) == Run(cfg, s4, a[4..]) == Run(cfg, s5, []);
  }

  /** Quiet rounds up to the last whole second before the end of the grace period. */
  lemma {:induction false} QuietRounds(cfg: Config, s: State, n: nat) returns (actions: seq<Action>, m: nat)
    requires AtTest(cfg, s, n) && n * SECOND < cfg.gracePeriod
    ensures AtTest(cfg, Run(cfg, s, actions), m)
    ensures m * SECOND < cfg.gracePeriod <= (m + 1) * SECOND
    decreases cfg.gracePeriod - n * SECOND
  {
    if (n + 1) * SECOND < cfg.gracePeriod {
      var round := QuietRound(cfg, s, n);
      var rest;
      rest, m := QuietRounds(cfg, Run(cfg, s, round), n + 1);
      RunConcat(cfg, s, round, rest);
      actions := round + rest;
    } else {
      actions, m := [], n;
    }
  }

  /**
   For every grace period there is a run in which shutdown is stored at the very
   moment of the last poll, just after it, and destruction still follows: within
   the last second a request may come too late.
   */
  lemma LastSecondIsTooLate(cfg: Config) returns (actions: seq<Action>)
    requires cfg.gracePeriod > 0
    ensures var s := Run(cfg, Init(), actions);
            && s.pc == Done(Destroyed) && |s.polls| > 0
            && s.shutdownAt == Some(s.polls[|s.polls| - 1].at)
            && s.shutdownAt.value + SECOND >= s.doneAt
  {
    var start := [StoreArmed(true), Daemon(Ok), Daemon(Ok), Daemon(Ok), Daemon(Fired)];
    FiveSteps(cfg, Init(), start);
    var s := Run(cfg, Init(), start);
    var quiet, m := QuietRounds(cfg, s, 0);
    var last := LateStore(cfg, Run(cfg, s, quiet), m);
    RunConcat(cfg, s, quiet, last);
    RunConcat(cfg, Init(), start, quiet + last);
    actions := start + (quiet + last);
  }

  /** The last poll, the store it just misses, and the rest of the grace period. */
  lemma LateStore(cfg: Config, s: State, m: nat) returns (actions: seq<Action>)
    requires AtTest(cfg, s, m) && m * SECOND < cfg.gracePeriod <= (m + 1) * SECOND
    ensures var t := Run(cfg, s, actions);
            && t.pc == Done(Destroyed) && |t.polls| > 0
            && t.shutdownAt == Some(t.polls[|t.polls| - 1].at)
            && t.shutdownAt.value + SECOND >= t.doneAt
  {
    var poll := [Daemon(Ok), Daemon(Ok), Daemon(Ok), StoreShutdown, Tick(cfg.gracePeriod - s.now)];
    var end := [Daemon(Ok), Daemon(Ok)];
    FiveSteps(cfg, s, poll);
    var u := Run(cfg, s, poll);
    assert u.pc == GraceSleep(u.now) && u.now == cfg.gracePeriod;
    assert Run(cfg, u, end) == Next(cfg, Next(cfg, u, end[0]), end[1]) by {
      assert end[1..][1..] == [];
    }
    RunConcat(cfg, s, poll, end);
    actions := poll + end;
  }

  /**
   Without a grace period nothing is polled: once a trigger has fired, whatever is stored
   and however long it takes, the loop goes on to destruction and nowhere else.
   */
  lemma {:induction false} ZeroGraceIgnoresDisarm(cfg: Config, s: State, actions: seq<Action>)
    requires cfg.gracePeriod == 0 && (s.pc == GraceTest || s.pc == Done(Destroyed)) && s.graceStart <= s.now
    ensures var t := Run(cfg, s, actions); t.pc == GraceTest || t.pc == Done(Destroyed)
    ensures (exists k, r | 0 <= k < |actions| :: actions[k] == Daemon(r)) ==> Run(cfg, s, actions).pc == Done(Destroyed)
    decreases |actions|
  {
    if actions != [] {
      var s' := Next(cfg, s, actions[0]);
      if actions[0].Daemon? {
        DestroyedStays(cfg, s', actions[1..]);
      } else {
        ZeroGraceIgnoresDisarm(cfg, s', actions[1..]);
        if k, r :| 0 <= k < |actions| && actions[k] == Daemon(r) {
          assert actions[1..][k - 1] == Daemon(r);
        }
      }
    }
  }

  lemma {:induction false} DestroyedStays(cfg: Config, s: State, actions: seq<Action>)
    requires s.pc == Done(Destroyed)
    ensures Run(cfg, s, actions).pc == Done(Destroyed)
    decreases |actions|
  {
    if actions != [] {
      DestroyedStays(cfg, Next(cfg, s, actions[0]), actions[1..]);
    }
  }

  /** There are such runs: the switch turned off and shutdown stored five seconds before the trigger reports. */
  lemma ZeroGraceExample(cfg: Config) returns (actions: seq<Action>)
    requires cfg.gracePeriod == 0
    ensures var s := Run(cfg, Init(), actions);
            s.pc == Done(Destroyed) && !s.armed && s.shutdown && s.polls == []
            && s.disarmedAt.Some? && s.disarmedAt.value < s.graceStart
            && s.shutdownAt.Some? && s.shutdownAt.value < s.graceStart
  {
    var check := [StoreArmed(true), Daemon(Ok), Daemon(Ok), Daemon(Ok), StoreShutdown];
    var end := [StoreArmed(false), Tick(5 * SECOND), Daemon(Fired), Daemon(Ok), Daemon(Ok)];
    FiveSteps(cfg, Init(), check);
    FiveSteps(cfg, Run(cfg, Init(), check), end);
    RunConcat(cfg, Init(), check, end);
    actions := check + end;
  }
}
