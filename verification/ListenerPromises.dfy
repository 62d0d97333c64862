/** The other half of listener recovery: a failure that lasts does lead to a restart, as soon as it may, and a
    restart that was requested does not stay pending for ever. */
module ListenerPromises {
  import opened Options
  import opened SlidingWindow
  import opened ListenerRecovery

  /** The last tick of the run is one recovery acts on, and finds the listener down. */
  predicate SeenDown(run: seq<Tick>)
    requires run != []
  {
    Last(run).serial && Last(run).enabled && !Last(run).supervisorOwns && JudgedAt(run) == ListenerDown
  }

  /** Without a restart, a tick that finds the listener down starts the timer, or leaves it where it started. */
  lemma TimerHolds(run: seq<Tick>)
    requires run != [] && SeenDown(run) && !After(Front(run)).restartPending && !Restarts(run)
    ensures After(run).downSince == Some(After(Front(run)).downSince.UnwrapOr(Last(run).now))
    ensures !After(run).restartPending
  {
  }

  /** Tick `d` found the listener down with the timer off and nothing pending, so did every tick since, and none
      of them restarted it. */
  ghost predicate DownStreak(run: seq<Tick>, d: nat) {
    && d < |run| && After(run[..d]).downSince.None? && !After(run[..d]).restartPending
    && forall k :: d <= k < |run| ==> StreakTick(run, k)
  }

  ghost predicate StreakTick(run: seq<Tick>, k: nat)
    requires k < |run|
  {
    SeenDown(run[..k + 1]) && !Restarts(run[..k + 1])
  }

  lemma {:induction false} StreakHoldsTheTimer(run: seq<Tick>, d: nat)
    requires DownStreak(run, d)
    ensures After(run).downSince == Some(run[d].now) && !After(run).restartPending
    decreases |run|
  {
    assert run[..|run|] == run && StreakTick(run, |run| - 1);
    if d == |run| - 1 {
      assert Front(run) == run[..d];
    } else {
      var front := Front(run);
      assert front[..d] == run[..d];
      forall k | d <= k < |front| ensures StreakTick(front, k) {
        assert front[..k + 1] == run[..k + 1] && StreakTick(run, k);
      }
      StreakHoldsTheTimer(front, d);
    }
    TimerHolds(run);
  }

  /** A failure that lasts restarts the listener: after a streak that began at tick `d`, the next tick that finds
      it down restarts it if and only if the configured time has passed since tick `d` and fewer than three
      restarts lie in the last half hour. */
  lemma PersistentFailureRestartsExactlyWhen(run: seq<Tick>, d: nat)
    requires run != [] && InOrder(run) && DownStreak(Front(run), d) && SeenDown(run)
    ensures Restarts(run)
            <==> Waited(Last(run).delaySetting, Last(run).now - run[d].now)
                 && BudgetLeft(RestartsSinceDisable(Front(run)), Last(run).now)
  {
    StreakHoldsTheTimer(Front(run), d);
    assert Front(run)[d] == run[d];
    RestartsExactlyWhen(run);
  }

  // ------------------------------------------------------------------ pending restarts

  /** A pending restart is the last one requested. */
  lemma {:induction false} PendingIsTheLastRestart(run: seq<Tick>)
    ensures After(run).restartPending ==>
              AllRestarts(run) != [] && After(run).restartRequestedAt == Some(AllRestarts(run)[|AllRestarts(run)| - 1])
    decreases |run|
  {
    if run != [] {
      PendingIsTheLastRestart(Front(run));
      if !Restarts(run) { assert AllRestarts(run) == AllRestarts(Front(run)); }
    }
  }

  /** Whether a restart is pending after a tick: one that did not raise makes it so; a tick that recovery acts on
      ends it when the listener is back, or a minute after it was requested; disabling recovery or a claim of
      the supervisor ends it; nothing else does. */
  lemma PendingExactlyWhen(run: seq<Tick>)
    requires run != []
    ensures var s, t := After(Front(run)), Last(run);
            After(run).restartPending <==>
              || (Restarts(run) && !t.restartRaises)
              || (s.restartPending && !t.serial)
              || (s.restartPending && t.enabled && !t.supervisorOwns
                  && !(t.listenerRunning && JudgedAt(run) != ListenerDown)
                  && t.now - RequestedAt(Front(run)) < 60.0)
  {
    PendingIsTheLastRestart(Front(run));
    PendingStep(After(Front(run)), Last(run), RequestedAt(Front(run)));
  }

  /** The same of one step, given when the pending restart was requested. */
  lemma PendingStep(s: State, t: Tick, requested: real)
    requires s.restartPending ==> s.restartRequestedAt == Some(requested)
    ensures Step(s, t).0.restartPending <==>
              || (Step(s, t).1 && !t.restartRaises)
              || (s.restartPending && !t.serial)
              || (s.restartPending && t.enabled && !t.supervisorOwns
                  && !(t.listenerRunning && Judged(s, t) != ListenerDown) && t.now - requested < 60.0)
  {
  }

  function RequestedAt(run: seq<Tick>): real {
    var log := AllRestarts(run);
    if log == [] then 0.0 else log[|log| - 1]
  }

  /** Switching recovery off forgets the timer, the pending restart and the budget. */
  lemma DisablingForgets(run: seq<Tick>)
    requires run != [] && Last(run).serial && !Last(run).enabled
    ensures After(run).downSince.None? && !After(run).restartPending && After(run).attempts == [] && !Restarts(run)
  {
  }
}
