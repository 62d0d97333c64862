/** Automatic reconnects of a Bluetooth radio (server.py).  Health ticks and the end of a worker thread are
    separate events in any order; settings, transport and identity may change at every tick.  The health
    loop does not call this machine on TCP ticks, which another supervisor serves. */
module TransportRecovery {
  import opened SlidingWindow

  const CONSECUTIVE_CYCLES := 2
  const MAX_ATTEMPTS := 3
  const WINDOW := 1800.0

  datatype Transport = Serial | Tcp | Bluetooth
  datatype Event =
    | Tick(now: real, enabled: bool, transport: Transport, broken: bool /* DISCONNECTED or ERROR */,
           refused: bool /* identity MISMATCH or NOT_FOUND */)
    | WorkerDone(now: real)

  /** `workers` counts the reconnect threads that have been started and have not finished. */
  datatype State = State(badCycles: nat, attempts: seq<real>, inProgress: bool, workers: nat)

  const START := State(0, [], false, 0)

  /** A tick that counts: broken, on the transport this machine serves, its identity not refused. */
  predicate Unhealthy(e: Event) {
    e.Tick? && e.enabled && e.transport == Bluetooth && e.broken && !e.refused
  }

  /** The health loop hands the tick to this machine. */
  predicate Seen(e: Event) {
    e.Tick? && e.transport != Tcp
  }

  function Step(s: State, e: Event): (State, bool) {
    match e
    case WorkerDone(_) =>
      if s.workers == 0 then (s, false) else (s.(workers := s.workers - 1, inProgress := false), false)
    case Tick(now, _, _, _, _) =>
      if !Seen(e) then (s, false)
      else if !Unhealthy(e) then (s.(badCycles := 0), false)
      else
        var s1 := s.(badCycles := s.badCycles + 1);
        if s1.badCycles < CONSECUTIVE_CYCLES || s1.inProgress then (s1, false)
        else
          var s2 := s1.(attempts := Recent(s1.attempts, now, WINDOW, false));
          if |s2.attempts| >= MAX_ATTEMPTS then (s2, false)
          else (State(0, s2.attempts + [now], true, s2.workers + 1), true)
  }

  class Reconnector {
    var badCycles: nat
    var attempts: seq<real>
    var inProgress: bool
    var workers: nat

    function View(): State
      reads this
    {
      State(badCycles, attempts, inProgress, workers)
    }

    constructor ()
      ensures View() == START
    {
      badCycles, attempts, inProgress, workers := 0, [], false, 0;
    }

    method PruneAttempts(now: real)
      modifies this`attempts
      ensures attempts == Recent(old(attempts), now, WINDOW, false)
    {
      var kept := [];
      for i := 0 to |attempts|
        invariant attempts == old(attempts)
        invariant kept == Recent(attempts[..i], now, WINDOW, false)
      {
        assert attempts[..i + 1] == attempts[..i] + [attempts[i]];
        RecentAppend(attempts[..i], attempts[i], now, WINDOW, false);
        if now - attempts[i] < WINDOW {
          kept := kept + [attempts[i]];
        }
      }
      assert attempts[..|attempts|] == attempts;
      attempts := kept;
    }

    method HealthTick(e: Event) returns (triggered: bool)
      requires e.Tick?
      modifies this
      ensures (View(), triggered) == Step(old(View()), e)
    {
      triggered := false;
      if e.transport == Tcp {
        return;
      }
      if !e.enabled || e.transport == Serial || !e.broken {
        badCycles := 0;
        return;
      }
      if e.refused {
        badCycles := 0;
        return;
      }
      badCycles := badCycles + 1;
      if badCycles < CONSECUTIVE_CYCLES {
        return;
      }
      if inProgress {
        return;
      }
      PruneAttempts(e.now);
      if |attempts| >= MAX_ATTEMPTS {
        return;
      }
      attempts := attempts + [e.now];
      inProgress := true;
      badCycles := 0;
      workers := workers + 1;
      triggered := true;
    }

    method FinishWorker(now: real)
      requires workers > 0
      modifies this
      ensures (View(), false) == Step(old(View()), WorkerDone(now))
    {
      workers := workers - 1;
      inProgress := false;
    }
  }

  // ------------------------------------------------------------------ whole runs

  ghost predicate InOrder(run: seq<Event>) {
    forall i, j :: 0 <= i <= j < |run| ==> run[i].now <= run[j].now
  }

  function Front(run: seq<Event>): seq<Event>
    requires run != []
  {
    run[..|run| - 1]
  }

  function Last(run: seq<Event>): Event
    requires run != []
  {
    run[|run| - 1]
  }

  function After(run: seq<Event>): State {
    if run == [] then START else Step(After(Front(run)), Last(run)).0
  }

  predicate Triggers(run: seq<Event>)
    requires run != []
  {
    Step(After(Front(run)), Last(run)).1
  }

  function Reconnects(run: seq<Event>): seq<real> {
    if run == [] then []
    else Reconnects(Front(run)) + (if Triggers(run) then [Last(run).now] else [])
  }

  ghost predicate Budgeted(run: seq<Event>) {
    if run == [] then After(run).attempts == [] && Reconnects(run) == []
    else Limited(After(run).attempts, Reconnects(run), Last(run).now, MAX_ATTEMPTS, WINDOW)
  }

  function LogAfter(s: State, t: Event, log: seq<real>): seq<real> {
    log + (if Step(s, t).1 then [t.now] else [])
  }

  lemma StepStaysLimited(s: State, t: Event, log: seq<real>, clock: real)
    requires Limited(s.attempts, log, clock, MAX_ATTEMPTS, WINDOW) && clock <= t.now
    ensures Limited(Step(s, t).0.attempts, LogAfter(s, t, log), t.now, MAX_ATTEMPTS, WINDOW)
  {
    LimitedStep(s.attempts, log, clock, t.now, MAX_ATTEMPTS, WINDOW);
    assert log + [] == log;
  }

  lemma {:induction false} RunIsBudgeted(run: seq<Event>)
    requires InOrder(run)
    ensures Budgeted(run)
    decreases |run|
  {
    if run != [] {
      var front, t := Front(run), Last(run);
      RunIsBudgeted(front);
      var clock := if front == [] then t.now else Last(front).now;
      StepStaysLimited(After(front), t, Reconnects(front), clock);
      assert Reconnects(run) == LogAfter(After(front), t, Reconnects(front));
    }
  }

  /** Over every run, disabling and enabling included, every half-open 30-minute window holds at most
      three automatic reconnects. */
  lemma AtMostThreeReconnectsInAnyWindow(run: seq<Event>, from: real)
    requires InOrder(run)
    ensures CountIn(Reconnects(run), from, from + 1800.0, false) <= 3
  {
    RunIsBudgeted(run);
    if run != [] { assert Limited(After(run).attempts, Reconnects(run), Last(run).now, MAX_ATTEMPTS, WINDOW); }
    AtMostLimitInAnyWindow(Reconnects(run), MAX_ATTEMPTS, WINDOW, from, false);
  }

  /** At most one reconnect thread is alive at any moment, and the flag says whether one is. */
  lemma {:induction false} AtMostOneReconnectInFlight(run: seq<Event>)
    ensures After(run).workers <= 1 && (After(run).inProgress <==> After(run).workers == 1)
    decreases |run|
  {
    if run != [] { AtMostOneReconnectInFlight(Front(run)); }
  }

  /** The last `n` of the ticks this machine saw were all unhealthy. */
  ghost predicate UnhealthyTicks(run: seq<Event>, n: nat)
    decreases |run|
  {
    n == 0 ||
    (run != [] &&
     if !Seen(Last(run)) then UnhealthyTicks(Front(run), n)
     else Unhealthy(Last(run)) && UnhealthyTicks(Front(run), n - 1))
  }

  lemma {:induction false} BadCyclesAreReal(run: seq<Event>)
    ensures UnhealthyTicks(run, After(run).badCycles)
    decreases |run|
  {
    if run != [] { BadCyclesAreReal(Front(run)); }
  }

  lemma {:induction false} FewerUnhealthyTicks(run: seq<Event>, n: nat, m: nat)
    requires UnhealthyTicks(run, n) && m <= n
    ensures UnhealthyTicks(run, m)
    decreases |run|
  {
    if run != [] && m > 0 {
      if !Seen(Last(run)) {
        FewerUnhealthyTicks(Front(run), n, m);
      } else {
        FewerUnhealthyTicks(Front(run), n - 1, m - 1);
      }
    }
  }

  /** Every reconnect ends at least two unhealthy ticks in a row, among the ticks this machine saw, identity
      not refused at either, with no reconnect in flight before it. */
  lemma ReconnectOnlyAfterTwoUnhealthyTicks(run: seq<Event>)
    requires run != [] && Triggers(run)
    ensures Unhealthy(Last(run)) && UnhealthyTicks(run, 2)
    ensures After(Front(run)).workers == 0 && After(run).workers == 1
  {
    BadCyclesAreReal(Front(run));
    AtMostOneReconnectInFlight(Front(run));
    FewerUnhealthyTicks(Front(run), After(Front(run)).badCycles, 1);
  }

  predicate HasTick(run: seq<Event>) {
    exists i :: 0 <= i < |run| && run[i].Tick?
  }

  /** The newest tick of the health loop, seen by this machine or not. */
  function NewestTick(run: seq<Event>): (e: Event)
    requires HasTick(run)
    ensures e.Tick? && e in run
    decreases |run|
  {
    if Last(run).Tick? then Last(run)
    else
      assert HasTick(Front(run)) by {
        var i :| 0 <= i < |run| && run[i].Tick?;
        assert Front(run)[i].Tick?;
      }
      NewestTick(Front(run))
  }

  lemma {:induction false} NewestUnhealthyTick(run: seq<Event>)
    requires UnhealthyTicks(run, 1)
    ensures HasTick(run)
    ensures Unhealthy(NewestTick(run)) <==> NewestTick(run).transport != Tcp
    decreases |run|
  {
    if Last(run).Tick? {
      assert run[|run| - 1].Tick?;
    } else {
      NewestUnhealthyTick(Front(run));
      var i :| 0 <= i < |Front(run)| && Front(run)[i].Tick?;
      assert run[i].Tick?;
    }
  }

  /** The health loop's own last two ticks were both unhealthy exactly when the one before the reconnect was
      not a TCP tick. */
  lemma ConsecutiveExactlyWhen(run: seq<Event>)
    requires run != [] && Triggers(run)
    ensures HasTick(Front(run))
    ensures Unhealthy(NewestTick(Front(run))) && Unhealthy(Last(run)) <==> NewestTick(Front(run)).transport != Tcp
  {
    ReconnectOnlyAfterTwoUnhealthyTicks(run);
    NewestUnhealthyTick(Front(run));
  }

  /** A run where it was one: a healthy TCP tick lies between the two broken Bluetooth ticks, and the
      reconnect still happens. */
  lemma TcpTicksAreInvisible()
    ensures var broken := Tick(0.0, true, Bluetooth, true, false);
            var run := [broken, broken.(now := 30.0, transport := Tcp, broken := false), broken.(now := 60.0)];
            Triggers(run) && !Unhealthy(run[1])
  {
    var broken := Tick(0.0, true, Bluetooth, true, false);
    var mid, end := broken.(now := 30.0, transport := Tcp, broken := false), broken.(now := 60.0);
    assert Front([broken]) == [];
    assert Front([broken, mid]) == [broken];
    assert Front([broken, mid, end]) == [broken, mid];
    assert After([broken]) == START.(badCycles := 1);
    assert After([broken, mid]) == START.(badCycles := 1);
    assert Recent([], 60.0, WINDOW, false) == [];
  }

  /** A tick of this machine's own transport that finds it broken, with recovery on and its identity accepted. */
  predicate FoundBroken(e: Event) {
    e.Tick? && e.enabled && e.transport == Bluetooth && e.broken && !e.refused
  }

  /** The event at `k` requested a reconnect. */
  predicate TriggeredAt(run: seq<Event>, k: nat)
    requires k < |run|
  {
    Triggers(run[..k + 1])
  }

  /** The tick at `k` is the newest that is not TCP's; it found the radio broken and requested no reconnect. */
  ghost predicate BrokenAt(run: seq<Event>, k: nat) {
    && k < |run| && FoundBroken(run[k]) && !TriggeredAt(run, k)
    && forall j :: k < j < |run| ==> !(run[j].Tick? && run[j].transport != Tcp)
  }

  ghost predicate BrokenAlready(run: seq<Event>) {
    exists k: nat :: BrokenAt(run, k)
  }

  /** The event at `k` requested a reconnect and no worker has finished since. */
  ghost predicate ReconnectingSince(run: seq<Event>, k: nat) {
    k < |run| && TriggeredAt(run, k) && forall j :: k < j < |run| ==> !run[j].WorkerDone?
  }

  ghost predicate Reconnecting(run: seq<Event>) {
    exists k: nat :: ReconnectingSince(run, k)
  }

  lemma TriggersStay(run: seq<Event>, k: nat)
    requires k < |run|
    ensures k < |run| - 1 ==> TriggeredAt(run, k) == TriggeredAt(Front(run), k) && run[k] == Front(run)[k]
    ensures k == |run| - 1 ==> TriggeredAt(run, k) == Triggers(run)
  {
    if k < |run| - 1 {
      assert Front(run)[..k + 1] == run[..k + 1];
    } else {
      assert run[..k + 1] == run;
    }
  }

  lemma BrokenAtStep(run: seq<Event>, k: nat)
    requires run != []
    ensures BrokenAt(run, k) <==>
              if k == |run| - 1 then FoundBroken(Last(run)) && !Triggers(run)
              else BrokenAt(Front(run), k) && !Seen(Last(run))
  {
    if k < |run| {
      TriggersStay(run, k);
      assert forall j :: k < j < |run| - 1 ==> run[j] == Front(run)[j];
    }
  }

  lemma ReconnectingStep(run: seq<Event>, k: nat)
    requires run != []
    ensures ReconnectingSince(run, k) <==>
              if k == |run| - 1 then Triggers(run) else ReconnectingSince(Front(run), k) && !Last(run).WorkerDone?
  {
    if k < |run| {
      TriggersStay(run, k);
      assert forall j :: k < j < |run| - 1 ==> run[j] == Front(run)[j];
    }
  }

  lemma {:induction false} CountedExactlyWhen(run: seq<Event>)
    ensures After(run).badCycles >= 1 <==> BrokenAlready(run)
    decreases |run|
  {
    if run != [] {
      CountedExactlyWhen(Front(run));
      forall k: nat
        ensures BrokenAt(run, k) <==>
                  if k == |run| - 1 then FoundBroken(Last(run)) && !Triggers(run)
                  else BrokenAt(Front(run), k) && !Seen(Last(run))
      {
        BrokenAtStep(run, k);
      }
      if BrokenAlready(Front(run)) {
        var k: nat :| BrokenAt(Front(run), k);
        assert BrokenAt(run, k) <==> !Seen(Last(run));
      }
      assert BrokenAt(run, |run| - 1) <==> FoundBroken(Last(run)) && !Triggers(run);
    }
  }

  /** The flag, and the one live worker, mean exactly that a reconnect was requested and none has ended since. */
  lemma {:induction false} BusyExactlyWhen(run: seq<Event>)
    ensures After(run).workers == 1 <==> Reconnecting(run)
    ensures After(run).inProgress <==> Reconnecting(run)
    decreases |run|
  {
    AtMostOneReconnectInFlight(run);
    if run != [] {
      AtMostOneReconnectInFlight(Front(run));
      BusyExactlyWhen(Front(run));
      forall k: nat
        ensures ReconnectingSince(run, k) <==>
                  if k == |run| - 1 then Triggers(run)
                  else ReconnectingSince(Front(run), k) && !Last(run).WorkerDone?
      {
        ReconnectingStep(run, k);
      }
      if Reconnecting(Front(run)) {
        var k: nat :| ReconnectingSince(Front(run), k);
        assert ReconnectingSince(run, k) <==> !Last(run).WorkerDone?;
      }
      assert ReconnectingSince(run, |run| - 1) <==> Triggers(run);
    }
  }

  /** Exactly when: the radio is found broken at this tick and was at the one before, no reconnect is under
      way, and fewer than three lie in the last half hour. */
  lemma TriggersExactlyWhen(run: seq<Event>)
    requires run != [] && InOrder(run)
    ensures var log := Reconnects(Front(run));
            Triggers(run) <==>
              && FoundBroken(Last(run)) && BrokenAlready(Front(run)) && !Reconnecting(Front(run))
              && (|log| < 3 || Last(run).now - log[|log| - 3] >= 1800.0)
  {
    RunIsBudgeted(Front(run));
    CountedExactlyWhen(Front(run));
    BusyExactlyWhen(Front(run));
    var e, log := Last(run), Reconnects(Front(run));
    var clock := if Front(run) == [] then e.now else Last(Front(run)).now;
    LimitedStep(After(Front(run)).attempts, log, clock, e.now, MAX_ATTEMPTS, WINDOW);
    RoomExactlyWhen(log, MAX_ATTEMPTS, e.now, WINDOW, false);
  }
}
