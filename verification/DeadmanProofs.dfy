/** What brings the daemon loop into the grace period, what ends it, and how its rounds are spaced. */
module DeadmanProofs {
  import opened Deadman

  /** The loop has come to the grace period, which it may have left for good. */
  ghost predicate Entered(s: State) {
    InGrace(s) || s.pc == Done(StoodDown)
  }

  lemma Splits(cfg: Config, s: State, actions: seq<Action>, k: nat)
    requires k < |actions|
    ensures Run(cfg, s, actions[..k + 1]) == Run(cfg, Next(cfg, s, actions[0]), actions[1..][..k])
    ensures Run(cfg, s, actions[..0]) == s
  {
    assert actions[..k + 1][0] == actions[0] && actions[..k + 1][1..] == actions[1..][..k];
  }

  lemma Extends(cfg: Config, s: State, actions: seq<Action>, k: nat)
    requires k < |actions|
    ensures Run(cfg, s, actions[..k + 1]) == Next(cfg, Run(cfg, s, actions[..k]), actions[k])
  {
    assert actions[..k + 1] == actions[..k] + [actions[k]];
    RunConcat(cfg, s, actions[..k], [actions[k]]);
    assert [actions[k]][1..] == [];
    assert Run(cfg, Run(cfg, s, actions[..k]), [actions[k]]) == Next(cfg, Run(cfg, s, actions[..k]), actions[k]);
  }

  // ----- Into the grace period -----

  lemma GraceStep(cfg: Config, s: State, a: Action)
    requires Entered(s)
    ensures Entered(Next(cfg, s, a)) && Next(cfg, s, a).graceStart == s.graceStart
  {
  }

  lemma EnteringStep(cfg: Config, s: State, a: Action)
    requires !Entered(s) && Entered(Next(cfg, s, a))
    ensures a == Daemon(Fired) && s.pc == Checking && Next(cfg, s, a).graceStart == s.now
  {
  }

  /** Nothing leads out of the grace period but its two ends, and its start does not move. */
  lemma {:induction false} GraceIsForGood(cfg: Config, s: State, actions: seq<Action>)
    requires Entered(s)
    ensures Entered(Run(cfg, s, actions)) && Run(cfg, s, actions).graceStart == s.graceStart
    decreases |actions|
  {
    if actions != [] {
      GraceStep(cfg, s, actions[0]);
      GraceIsForGood(cfg, Next(cfg, s, actions[0]), actions[1..]);
    }
  }

  lemma {:induction false} EnteredByFiring(cfg: Config, s: State, actions: seq<Action>) returns (k: nat)
    requires !Entered(s) && Entered(Run(cfg, s, actions))
    ensures k < |actions| && actions[k] == Daemon(Fired)
    ensures var t := Run(cfg, s, actions[..k]);
            t.pc == Checking && t.now == Run(cfg, s, actions).graceStart
    decreases |actions|
  {
    var s' := Next(cfg, s, actions[0]);
    if Entered(s') {
      k := 0;
      EnteringStep(cfg, s, actions[0]);
      GraceIsForGood(cfg, s', actions[1..]);
      Splits(cfg, s, actions, 0);
    } else {
      var m := EnteredByFiring(cfg, s', actions[1..]);
      k := m + 1;
      Splits(cfg, s, actions, m);
    }
  }

  /** The check that is under way at step k began at step j, with the switch armed. */
  ghost predicate CheckBegan(cfg: Config, actions: seq<Action>, j: nat, k: nat)
    requires j < k <= |actions|
  {
    && actions[j].Daemon?
    && Run(cfg, Init(), actions[..j]).pc == CheckTest && Run(cfg, Init(), actions[..j]).armed
    && forall i | j < i <= k :: Run(cfg, Init(), actions[..i]).pc == Checking
  }

  lemma CheckStep(cfg: Config, s: State, a: Action)
    requires s.pc != Checking && Next(cfg, s, a).pc == Checking
    ensures a.Daemon? && s.pc == CheckTest && s.armed
  {
  }

  lemma {:induction false} ChecksBeginArmed(cfg: Config, actions: seq<Action>, k: nat) returns (j: nat)
    requires k <= |actions| && Run(cfg, Init(), actions[..k]).pc == Checking
    ensures j < k && CheckBegan(cfg, actions, j, k)
  {
    assert actions[..0] == [];
    Extends(cfg, Init(), actions, k - 1);
    if Run(cfg, Init(), actions[..k - 1]).pc == Checking {
      j := ChecksBeginArmed(cfg, actions, k - 1);
    } else {
      j := k - 1;
      CheckStep(cfg, Run(cfg, Init(), actions[..j]), actions[j]);
    }
  }

  /**
   Over all interleavings: if the loop destroys or stands down, then at the start of the
   grace period a check that was begun while armed reported that a trigger had fired.
   */
  lemma GraceFollowsFiring(cfg: Config, actions: seq<Action>) returns (j: nat, k: nat)
    requires Entered(Run(cfg, Init(), actions))
    ensures j < k < |actions| && actions[k] == Daemon(Fired) && CheckBegan(cfg, actions, j, k)
    ensures Run(cfg, Init(), actions[..k]).now == Run(cfg, Init(), actions).graceStart
  {
    k := EnteredByFiring(cfg, Init(), actions);
    j := ChecksBeginArmed(cfg, actions, k);
  }

  /** A run in which no check reports a firing never comes to the grace period, whatever errors they report. */
  lemma NoFiringNoGrace(cfg: Config, actions: seq<Action>)
    requires Daemon(Fired) !in actions
    ensures !Entered(Run(cfg, Init(), actions))
  {
    if Entered(Run(cfg, Init(), actions)) {
      var k := EnteredByFiring(cfg, Init(), actions);
    }
  }

  // ----- Out of it -----

  /** On the way to the poll that is due at this time. */
  ghost predicate BeforePoll(s: State, due: nat) {
    || (s.pc == GraceSleep(due) && s.now <= due)
    || ((s.pc == GraceTest || s.pc == PollArmed || s.pc == PollShutdown) && s.now == due)
  }

  /** What was asked for stays asked for, and the poll will see it. */
  ghost predicate AskedToStop(s: State) {
    s.shutdown || (!s.armed && s.pc != PollShutdown)
  }

  lemma StandDownStep(cfg: Config, s: State, a: Action, due: nat)
    requires BeforePoll(s, due) && due < Deadline(cfg, s) && s.graceStart <= s.now && AskedToStop(s)
    requires s.shutdown || a != StoreArmed(true)
    ensures var t := Next(cfg, s, a);
            if t.pc.Done? then t.pc == Done(StoodDown) && t.doneAt == due
            else
              && BeforePoll(t, due) && due < Deadline(cfg, t) && t.graceStart <= t.now
              && AskedToStop(t) && (s.shutdown ==> t.shutdown)
  {
  }

  /** A stored shutdown, or a switch that is off and stays off, ends the loop at its very next poll. */
  lemma {:induction false} StandsDownAtNextPoll(cfg: Config, s: State, actions: seq<Action>, due: nat)
    requires BeforePoll(s, due) && due < Deadline(cfg, s) && s.graceStart <= s.now && AskedToStop(s)
    requires s.shutdown || StoreArmed(true) !in actions
    ensures var t := Run(cfg, s, actions);
            BeforePoll(t, due) || (t.pc == Done(StoodDown) && t.doneAt == due)
    decreases |actions|
  {
    if actions != [] {
      var s' := Next(cfg, s, actions[0]);
      StandDownStep(cfg, s, actions[0], due);
      if s'.pc.Done? {
        DoneStays(cfg, s', actions[1..]);
      } else {
        StandsDownAtNextPoll(cfg, s', actions[1..], due);
      }
    }
  }

  lemma {:induction false} DoneStays(cfg: Config, s: State, actions: seq<Action>)
    requires s.pc.Done?
    ensures Run(cfg, s, actions).pc == s.pc && Run(cfg, s, actions).doneAt == s.doneAt
    decreases |actions|
  {
    if actions != [] {
      DoneStays(cfg, Next(cfg, s, actions[0]), actions[1..]);
    }
  }

  // ----- Between checks -----

  /** Between two rounds, the next of which begins at this time. */
  ghost predicate BeforeRound(s: State, due: nat) {
    (s.pc == Idle(due) && s.now <= due) || (s.pc == Top && s.now == due)
  }

  /** A shutdown that is stored between two rounds ends the loop when the next would begin, without another check. */
  lemma {:induction false} ShutdownEndsTheLoop(cfg: Config, s: State, actions: seq<Action>, due: nat)
    requires BeforeRound(s, due) && s.shutdown
    ensures var t := Run(cfg, s, actions);
            BeforeRound(t, due) || (t.pc == Done(ShutDown) && t.doneAt == due)
    decreases |actions|
  {
    if actions != [] {
      var s' := Next(cfg, s, actions[0]);
      if s'.pc.Done? {
        DoneStays(cfg, s', actions[1..]);
      } else {
        ShutdownEndsTheLoop(cfg, s', actions[1..], due);
      }
    }
  }

  lemma {:induction false} IdleEndsOnTime(cfg: Config, s: State, actions: seq<Action>, due: nat) returns (k: nat)
    requires s.pc == Idle(due) && s.now <= due && Run(cfg, s, actions).pc != Idle(due)
    ensures k <= |actions|
    ensures Run(cfg, s, actions[..k]).pc == Top && Run(cfg, s, actions[..k]).now == due
    decreases |actions|
  {
    var s' := Next(cfg, s, actions[0]);
    if s'.pc == Top {
      k := 1;
      assert actions[1..][..0] == [];
      Splits(cfg, s, actions, 0);
    } else {
      var m := IdleEndsOnTime(cfg, s', actions[1..], due);
      k := m + 1;
      if m < |actions[1..]| {
        Splits(cfg, s, actions, m);
      } else {
        assert actions[..k] == actions && actions[1..][..m] == actions[1..];
      }
    }
  }

  /**
   After a round that did not come to the grace period, be it unarmed, quiet or in error,
   the next one begins exactly one check interval later.
   */
  lemma RoundsAreSpaced(cfg: Config, s: State, result: TriggerResult, actions: seq<Action>) returns (k: nat)
    requires (s.pc == ArmedTest && !s.armed) || (s.pc == CheckTest && !s.armed) || (s.pc == Checking && result != Fired)
    ensures Next(cfg, s, Daemon(result)).pc == Idle(s.now + cfg.checkInterval)
    ensures var t := Next(cfg, s, Daemon(result));
            Run(cfg, t, actions).pc == t.pc ||
            (k <= |actions| && Run(cfg, t, actions[..k]).pc == Top
             && Run(cfg, t, actions[..k]).now == s.now + cfg.checkInterval)
  {
    var t := Next(cfg, s, Daemon(result));
    k := 0;
    if Run(cfg, t, actions).pc != t.pc {
      k := IdleEndsOnTime(cfg, t, actions, t.now + cfg.checkInterval);
    }
  }
}
