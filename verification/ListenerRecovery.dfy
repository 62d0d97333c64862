/** Automatic restarts of the serial listener, with the escalation of a stuck PAUSED state
    (server.py).  One tick is one pass of the radio health loop: first the PAUSED tracker, then the
    recovery machine.  Settings, transport and the supervisor's claim may differ at every tick. */
module ListenerRecovery {
  import opened Options
  import opened SlidingWindow

  const MAX_ATTEMPTS := 3
  const WINDOW := 1800.0
  const RESULT_TIMEOUT := 60.0
  const ESCALATE_AFTER := 180.0

  /** The health status, as far as recovery tells statuses apart. */
  datatype Status = ListenerDown | Paused | OtherStatus

  datatype Tick = Tick(
    now: real,
    status: Status,
    listenerRunning: bool,
    serial: bool,             // the active transport is the serial one
    enabled: bool,            // settings: listener_autorecovery.enabled
    delaySetting: Option<int>, // settings: listener_autorecovery.delay, None when it is no integer
    supervisorOwns: bool,     // listener_supervisor.owns_recovery()
    restartRaises: bool       // stopping the listener raised
  )

  datatype State = State(
    downSince: Option<real>,
    attempts: seq<real>,
    restartPending: bool,
    restartRequestedAt: Option<real>,
    pausedSince: Option<real>
  )

  const START := State(None, [], false, None, None)

  function DelaySeconds(setting: Option<int>): (d: int)
    ensures d >= 30
  {
    if setting.Some? && setting.value in {30, 60, 90, 120, 180, 300} then setting.value else 60
  }

  /** The confirmation time is over: the configured one if it is one of those on offer, otherwise a minute. */
  predicate Waited(setting: Option<int>, elapsed: real) {
    if setting in {Some(30), Some(60), Some(90), Some(120), Some(180), Some(300)}
    then elapsed >= setting.value as real else elapsed >= 60.0
  }

  lemma DelayIsTheSetting(setting: Option<int>, elapsed: real)
    ensures elapsed >= DelaySeconds(setting) as real <==> Waited(setting, elapsed)
  {
  }

  /** `resolve_paused_recovery_status`: the tracker, and the status recovery is to act on. */
  function TrackPause(pausedSince: Option<real>, status: Status, now: real): (Option<real>, Status) {
    if status != Paused then (None, status)
    else
      var since := pausedSince.UnwrapOr(now);
      (Some(since), if now - since >= ESCALATE_AFTER then ListenerDown else Paused)
  }

  /** `process_listener_autorecovery` on the judged status; second result: a restart was requested. */
  function Recover(s: State, judged: Status, t: Tick): (State, bool) {
    if !t.serial then (s, false)
    else if !t.enabled then
      (State(None, [], false, None, s.pausedSince), false)
    else if t.supervisorOwns then
      (s.(downSince := None, restartPending := false, restartRequestedAt := None), false)
    else
      var s1 := s.(attempts := Recent(s.attempts, t.now, WINDOW, false));
      if s1.restartPending then
        if t.listenerRunning && judged != ListenerDown then
          (s1.(restartPending := false, restartRequestedAt := None, downSince := None), false)
        else if t.now - s1.restartRequestedAt.UnwrapOr(t.now) >= RESULT_TIMEOUT then
          (s1.(restartPending := false, restartRequestedAt := None, downSince := Some(t.now)), false)
        else (s1, false)
      else if judged != ListenerDown then
        (s1.(downSince := None), false)
      else if s1.downSince.None? then
        (s1.(downSince := Some(t.now)), false)
      else if t.now - s1.downSince.value < DelaySeconds(t.delaySetting) as real || |s1.attempts| >= MAX_ATTEMPTS then
        (s1, false)
      else if t.restartRaises then
        (s1.(attempts := s1.attempts + [t.now], restartPending := false, restartRequestedAt := None,
            downSince := Some(t.now)), true)
      else
        (s1.(attempts := s1.attempts + [t.now], restartPending := true, restartRequestedAt := Some(t.now),
            downSince := None), true)
  }

  function Judged(s: State, t: Tick): Status {
    TrackPause(s.pausedSince, t.status, t.now).1
  }

  function Step(s: State, t: Tick): (State, bool) {
    var (since, judged) := TrackPause(s.pausedSince, t.status, t.now);
    Recover(s.(pausedSince := since), judged, t)
  }

  class Supervisor {
    var downSince: Option<real>
    var attempts: seq<real>
    var restartPending: bool
    var restartRequestedAt: Option<real>
    var pausedSince: Option<real>

    function View(): State
      reads this
    {
      State(downSince, attempts, restartPending, restartRequestedAt, pausedSince)
    }

    constructor ()
      ensures View() == START
    {
      downSince, attempts, restartPending, restartRequestedAt, pausedSince := None, [], false, None, None;
    }

    method ResolvePaused(status: Status, now: real) returns (judged: Status)
      modifies this`pausedSince
      ensures (pausedSince, judged) == TrackPause(old(pausedSince), status, now)
    {
      if status != Paused {
        pausedSince := None;
        return status;
      }
      if pausedSince.None? {
        pausedSince := Some(now);
      }
      judged := if now - pausedSince.value >= ESCALATE_AFTER then ListenerDown else status;
    }

    method PruneAttempts(now: real)
      modifies this`attempts
      ensures attempts == Recent(old(attempts), now, WINDOW, false)
    {
      var kept := [];
      for i := 0 to |attempts|
        invariant attempts == old(attempts)
        invariant kept == Recent(attempts[..i], now, WINDOW, false)
      {
        assert attempts[..i + 1] == attempts[..i] + [attempts[i]];
        RecentAppend(attempts[..i], attempts[i], now, WINDOW, false);
        if now - attempts[i] < WINDOW {
          kept := kept + [attempts[i]];
        }
      }
      assert attempts[..|attempts|] == attempts;
      attempts := kept;
    }

    method HealthTick(t: Tick) returns (restarted: bool)
      modifies this
      ensures (View(), restarted) == Step(old(View()), t)
    {
      var judged := ResolvePaused(t.status, t.now);
      restarted := false;
      if !t.serial {
        return;
      }
      if !t.enabled {
        downSince, restartPending, restartRequestedAt, attempts := None, false, None, [];
        return;
      }
      if t.supervisorOwns {
        downSince, restartPending, restartRequestedAt := None, false, None;
        return;
      }
      PruneAttempts(t.now);
      if restartPending {
        var requestedAt := restartRequestedAt.UnwrapOr(t.now);
        if t.listenerRunning && judged != ListenerDown {
          restartPending, restartRequestedAt, downSince := false, None, None;
          return;
        }
        if t.now - requestedAt >= RESULT_TIMEOUT {
          restartPending, restartRequestedAt, downSince := false, None, Some(t.now);
        }
        return;
      }
      if judged != ListenerDown {
        downSince := None;
        return;
      }
      if downSince.None? {
        downSince := Some(t.now);
        return;
      }
      if t.now - downSince.value < DelaySeconds(t.delaySetting) as real {
        return;
      }
      if |attempts| >= MAX_ATTEMPTS {
        return;
      }
      restarted := true;
      attempts := attempts + [t.now];
      restartPending, restartRequestedAt, downSince := true, Some(t.now), None;
      if t.restartRaises {
        restartPending, restartRequestedAt, downSince := false, None, Some(t.now);
      }
    }
  }

  // ------------------------------------------------------------------ whole runs

  ghost predicate InOrder(run: seq<Tick>) {
    forall i, j :: 0 <= i <= j < |run| ==> run[i].now <= run[j].now
  }

  function After(run: seq<Tick>): State {
    if run == [] then START else Step(After(Front(run)), Last(run)).0
  }

  function Front(run: seq<Tick>): seq<Tick>
    requires run != []
  {
    run[..|run| - 1]
  }

  function Last(run: seq<Tick>): Tick
    requires run != []
  {
    run[|run| - 1]
  }

  /** Did the last tick of the run request a restart? */
  predicate Restarts(run: seq<Tick>)
    requires run != []
  {
    Step(After(Front(run)), Last(run)).1
  }

  /** The status the last tick of the run was judged to have. */
  function JudgedAt(run: seq<Tick>): Status
    requires run != []
  {
    Judged(After(Front(run)), Last(run))
  }

  /** The times of all restarts of a run. */
  function AllRestarts(run: seq<Tick>): seq<real> {
    if run == [] then []
    else AllRestarts(Front(run)) + (if Restarts(run) then [Last(run).now] else [])
  }

  predicate Disables(t: Tick) {
    t.serial && !t.enabled
  }

  /** The times of the restarts since recovery was last seen disabled. */
  function RestartsSinceDisable(run: seq<Tick>): seq<real> {
    if run == [] || Disables(Last(run)) then []
    else RestartsSinceDisable(Front(run)) + (if Restarts(run) then [Last(run).now] else [])
  }

  ghost predicate Budgeted(run: seq<Tick>) {
    if run == [] then After(run).attempts == [] && RestartsSinceDisable(run) == []
    else Limited(After(run).attempts, RestartsSinceDisable(run), Last(run).now, MAX_ATTEMPTS, WINDOW)
  }

  /** How one tick extends the log of restarts since recovery was last disabled. */
  function LogAfter(s: State, t: Tick, log: seq<real>): seq<real> {
    if Disables(t) then [] else log + (if Step(s, t).1 then [t.now] else [])
  }

  lemma StepStaysLimited(s: State, t: Tick, log: seq<real>, clock: real)
    requires Limited(s.attempts, log, clock, MAX_ATTEMPTS, WINDOW) && clock <= t.now
    ensures Limited(Step(s, t).0.attempts, LogAfter(s, t, log), t.now, MAX_ATTEMPTS, WINDOW)
  {
    LimitedStep(s.attempts, log, clock, t.now, MAX_ATTEMPTS, WINDOW);
    assert log + [] == log;
  }

  lemma {:induction false} RunIsBudgeted(run: seq<Tick>)
    requires InOrder(run)
    ensures Budgeted(run)
    decreases |run|
  {
    if run != [] {
      var front, t := Front(run), Last(run);
      RunIsBudgeted(front);
      var clock := if front == [] then t.now else Last(front).now;
      StepStaysLimited(After(front), t, RestartsSinceDisable(front), clock);
      assert RestartsSinceDisable(run) == LogAfter(After(front), t, RestartsSinceDisable(front));
    }
  }

  /** Between two disable events, every half-open 30-minute window of every run holds at most three
      automatic restarts. */
  lemma AtMostThreeRestartsInAnyWindow(run: seq<Tick>, from: real)
    requires InOrder(run)
    ensures CountIn(RestartsSinceDisable(run), from, from + 1800.0, false) <= 3
  {
    RunIsBudgeted(run);
    if run != [] {
      assert Limited(After(run).attempts, RestartsSinceDisable(run), Last(run).now, MAX_ATTEMPTS, WINDOW);
    }
    AtMostLimitInAnyWindow(RestartsSinceDisable(run), MAX_ATTEMPTS, WINDOW, from, false);
  }

  /** Fewer than three events so far, or the third last is half an hour old. */
  predicate BudgetLeft(log: seq<real>, now: real) {
    |log| < 3 || now - log[|log| - 3] >= 1800.0
  }

  /** Exactly when a tick restarts: the forgetful attempt list decides as the complete log would. */
  lemma RestartsExactlyWhen(run: seq<Tick>)
    requires run != [] && InOrder(run)
    ensures var s, t := After(Front(run)), Last(run);
            Restarts(run) <==>
              && t.serial && t.enabled && !t.supervisorOwns && !s.restartPending
              && JudgedAt(run) == ListenerDown
              && s.downSince.Some? && Waited(t.delaySetting, t.now - s.downSince.value)
              && BudgetLeft(RestartsSinceDisable(Front(run)), t.now)
  {
    RunIsBudgeted(Front(run));
    var t, log := Last(run), RestartsSinceDisable(Front(run));
    var clock := if Front(run) == [] then t.now else Last(Front(run)).now;
    LimitedStep(After(Front(run)).attempts, log, clock, t.now, MAX_ATTEMPTS, WINDOW);
    RoomExactlyWhen(log, MAX_ATTEMPTS, t.now, WINDOW, false);
  }

  // ------------------------------------------------------------------ spacing over the whole run

  ghost predicate Spaced(run: seq<Tick>) {
    var log := AllRestarts(run);
    && Sorted(log) && Spread(log, 1, 30.0, false)
    && (run != [] ==> NotAfter(log, Last(run).now))
    && (After(run).downSince.Some? ==> NotAfter(log, After(run).downSince.value))
    && (run == [] ==> log == [])
  }

  lemma SpacingStep(run: seq<Tick>)
    requires run != [] && InOrder(run) && Spaced(Front(run))
    ensures Spaced(run)
  {
    if Restarts(run) {
      RestartIsSpaced(run);
    } else {
      assert AllRestarts(run) == AllRestarts(Front(run));
    }
  }

  lemma RestartIsSpaced(run: seq<Tick>)
    requires run != [] && InOrder(run) && Spaced(Front(run)) && Restarts(run)
    ensures Spaced(run)
  {
    var log, now := AllRestarts(Front(run)), Last(run).now;
    var since := After(Front(run)).downSince.value;
    assert AllRestarts(run) == log + [now] && (After(run).downSince.None? || After(run).downSince == Some(now));
    assert NotAfter(log, since) && now - since >= 30.0;
    OneMoreIsSpaced(log, now);
  }

  lemma OneMoreIsSpaced(log: seq<real>, now: real)
    requires Sorted(log) && Spread(log, 1, 30.0, false) && forall i :: 0 <= i < |log| ==> now - log[i] >= 30.0
    ensures Sorted(log + [now]) && Spread(log + [now], 1, 30.0, false) && NotAfter(log + [now], now)
  {
    assert forall i :: 0 <= i < |log| ==> (log + [now])[i] == log[i];
  }

  /** Over every run, whatever is toggled, consecutive automatic restarts are at least 30 s apart. */
  lemma {:induction false} RestartsAreThirtySecondsApart(run: seq<Tick>)
    requires InOrder(run)
    ensures Spaced(run)
    ensures Sorted(AllRestarts(run)) && Spread(AllRestarts(run), 1, 30.0, false)
    decreases |run|
  {
    if run != [] {
      RestartsAreThirtySecondsApart(Front(run));
      SpacingStep(run);
    }
  }

  // ------------------------------------------------------------------ what a restart tells about the past

  /** Tick `d` started the confirmation timer, and every later tick that recovery looked at (the
      serial ones) was enabled, unclaimed and judged LISTENER_DOWN. */
  ghost predicate DownEverSince(run: seq<Tick>, d: nat) {
    && d < |run|
    && forall k :: d < k < |run| && run[k].serial ==>
         run[k].enabled && !run[k].supervisorOwns && JudgedAt(run[..k + 1]) == ListenerDown
  }

  ghost predicate TimerIsHonest(run: seq<Tick>) {
    After(run).downSince.Some? ==>
      exists d: nat :: DownEverSince(run, d) && run[d].now == After(run).downSince.value
  }

  lemma DownSinceExtends(run: seq<Tick>, d: nat)
    requires run != [] && DownEverSince(Front(run), d)
    requires Last(run).serial ==> Last(run).enabled && !Last(run).supervisorOwns && JudgedAt(run) == ListenerDown
    ensures DownEverSince(run, d)
  {
    forall k | d < k < |run| && run[k].serial
      ensures run[k].enabled && !run[k].supervisorOwns && JudgedAt(run[..k + 1]) == ListenerDown
    {
      if k < |run| - 1 {
        assert Front(run)[..k + 1] == run[..k + 1];
        assert Front(run)[k] == run[k];
      } else {
        assert run[..k + 1] == run;
      }
    }
  }

  /** While a restart is pending the timer is off; recovery without a pending restart has no request time. */
  lemma {:induction false} PendingMeansNoTimer(run: seq<Tick>)
    ensures After(run).restartPending ==> After(run).downSince.None?
    decreases |run|
  {
    if run != [] { PendingMeansNoTimer(Front(run)); }
  }

  lemma {:induction false} TimerIsAlwaysHonest(run: seq<Tick>)
    ensures TimerIsHonest(run)
    decreases |run|
  {
    if run != [] {
      TimerIsAlwaysHonest(Front(run));
      PendingMeansNoTimer(Front(run));
      var before, after := After(Front(run)), After(run);
      if after.downSince.Some? {
        if before.downSince == after.downSince {
          var d: nat :| DownEverSince(Front(run), d) && Front(run)[d].now == before.downSince.value;
          DownSinceExtends(run, d);
        } else {
          assert DownEverSince(run, |run| - 1);
        }
      }
    }
  }

  /** Tick `d` is the one whose time the confirmation timer held when the last tick restarted. */
  ghost predicate Recorded(run: seq<Tick>, d: nat) {
    && run != [] && d < |run| - 1 && DownEverSince(run, d)
    && After(Front(run)).downSince == Some(run[d].now)
  }

  /** A restart at time T happens only if some tick d started the timer at least the configured delay
      before T, and every tick recovery looked at since then up to T was judged LISTENER_DOWN. */
  lemma RestartOnlyAfterPersistentFailure(run: seq<Tick>)
    requires run != [] && Restarts(run)
    ensures exists d: nat :: Recorded(run, d)
    ensures Waited(Last(run).delaySetting, Last(run).now - After(Front(run)).downSince.value)
  {
    TimerIsAlwaysHonest(Front(run));
    var d: nat :| DownEverSince(Front(run), d) && Front(run)[d].now == After(Front(run)).downSince.value;
    DownSinceExtends(run, d);
    assert Recorded(run, d);
  }

  /** Ticks on another transport are not looked at, so the plain reading ("every tick since") fails:
      here the middle tick is healthy, on Bluetooth, and the restart still happens. */
  lemma OtherTransportTicksAreInvisible()
    ensures var down := Tick(0.0, ListenerDown, false, true, true, Some(60), false, false);
            var run := [down, down.(now := 30.0, status := OtherStatus, serial := false), down.(now := 60.0)];
            Restarts(run) && JudgedAt(run[..2]) == OtherStatus
  {
    var down := Tick(0.0, ListenerDown, false, true, true, Some(60), false, false);
    var mid := down.(now := 30.0, status := OtherStatus, serial := false);
    var end := down.(now := 60.0);
    assert Front([down]) == [];
    assert Front([down, mid]) == [down];
    assert Front([down, mid, end]) == [down, mid];
    assert [down, mid, end][..2] == [down, mid];
    assert After([down]) == START.(downSince := Some(0.0));
    assert After([down, mid]) == START.(downSince := Some(0.0));
  }

  ghost predicate DownAt(run: seq<Tick>, k: nat)
    requires k < |run|
  {
    JudgedAt(run[..k + 1]) == ListenerDown
  }

  /** What the health status can be: only the serial transport has a listener that is down.  PAUSED occurs on
      every transport, during a planned restart. */
  predicate Possible(t: Tick) {
    !t.serial ==> t.status != ListenerDown
  }

  /** At tick `k` the status has been PAUSED without a break for at least 180 s. */
  ghost predicate LongPaused(run: seq<Tick>, k: nat)
    requires k < |run|
  {
    exists p: nat :: PausedEverSince(run[..k + 1], p) && run[k].now - run[p].now >= 180.0
  }

  /** Among the ticks since the recorded down-time, all were judged LISTENER_DOWN if and only if each that was
      not on the serial transport came after 180 s of PAUSED without a break. */
  lemma EveryTickSinceWasDownExactlyWhen(run: seq<Tick>, d: nat)
    requires InOrder(run) && Recorded(run, d) && forall k :: 0 <= k < |run| ==> Possible(run[k])
    ensures (forall k :: d < k < |run| ==> DownAt(run, k))
            <==> (forall k :: d < k < |run| && !run[k].serial ==> LongPaused(run, k))
  {
    forall k | d < k < |run| ensures DownAt(run, k) <==> run[k].serial || LongPaused(run, k) {
      if !run[k].serial { JudgedDownExactlyWhen(run, k); }
    }
  }

  /** So, without a planned restart on another transport, if and only if all of them were serial. */
  lemma EveryTickSinceWasDownExactlyOnSerial(run: seq<Tick>, d: nat)
    requires InOrder(run) && Recorded(run, d) && forall k :: 0 <= k < |run| ==> Possible(run[k])
    requires forall k :: d < k < |run| && !run[k].serial ==> run[k].status != Paused
    ensures (forall k :: d < k < |run| ==> DownAt(run, k)) <==> (forall k :: d < k < |run| ==> run[k].serial)
  {
    EveryTickSinceWasDownExactlyWhen(run, d);
    forall k | d < k < |run| && !run[k].serial ensures !LongPaused(run, k) {
      assert run[..k + 1][k] == run[k];
    }
  }

  // ------------------------------------------------------------------ the pause tracker

  ghost predicate PausedEverSince(run: seq<Tick>, p: nat) {
    p < |run| && forall k :: p <= k < |run| ==> run[k].status == Paused
  }

  lemma {:induction false} PauseTrackerIsHonest(run: seq<Tick>)
    ensures After(run).pausedSince.Some? ==>
              exists p: nat :: PausedEverSince(run, p) && run[p].now == After(run).pausedSince.value
    decreases |run|
  {
    if run != [] && After(run).pausedSince.Some? {
      PauseTrackerIsHonest(Front(run));
      if After(Front(run)).pausedSince.Some? {
        var p: nat :| PausedEverSince(Front(run), p) && Front(run)[p].now == After(Front(run)).pausedSince.value;
        forall k | p <= k < |run| ensures run[k].status == Paused {
          if k < |run| - 1 { assert Front(run)[k] == run[k]; }
        }
        assert PausedEverSince(run, p);
      } else {
        assert PausedEverSince(run, |run| - 1);
      }
    }
  }

  /** The tracker remembers the whole pause, not a part of it. */
  lemma {:induction false} PauseTrackerIsEarliest(run: seq<Tick>, p: nat)
    requires InOrder(run) && PausedEverSince(run, p)
    ensures After(run).pausedSince.Some? && After(run).pausedSince.value <= run[p].now
    decreases |run|
  {
    if p < |run| - 1 {
      assert forall k :: p <= k < |Front(run)| ==> Front(run)[k] == run[k];
      PauseTrackerIsEarliest(Front(run), p);
    } else if After(Front(run)).pausedSince.Some? {
      PauseTrackerIsHonest(Front(run));
      var q: nat :| PausedEverSince(Front(run), q) && Front(run)[q].now == After(Front(run)).pausedSince.value;
      assert Front(run)[q] == run[q];
    }
  }

  /** A tick is judged LISTENER_DOWN if and only if that is its status, or a pause has lasted 180 s. */
  lemma JudgedDownExactlyWhen(run: seq<Tick>, k: nat)
    requires InOrder(run) && k < |run|
    ensures DownAt(run, k) <==> run[k].status == ListenerDown || LongPaused(run, k)
  {
    var upTo := run[..k + 1];
    assert Last(upTo) == run[k] && forall i :: 0 <= i <= k ==> upTo[i] == run[i];
    if run[k].status == Paused {
      PauseTrackerIsHonest(upTo);
      if DownAt(run, k) {
        var p: nat :| PausedEverSince(upTo, p) && upTo[p].now == After(upTo).pausedSince.value;
        assert run[k].now - run[p].now >= 180.0;
      }
      if LongPaused(run, k) {
        var p: nat :| PausedEverSince(upTo, p) && run[k].now - run[p].now >= 180.0;
        PauseTrackerIsEarliest(upTo, p);
      }
    } else {
      assert !LongPaused(run, k) by { assert upTo[k].status != Paused; }
    }
  }

  /** A restart on a raw PAUSED status: it has been PAUSED without a break for at least 180 s. */
  lemma PausedRestartOnlyAfterThreeMinutes(run: seq<Tick>)
    requires run != [] && Restarts(run) && Last(run).status == Paused
    ensures exists p: nat :: PausedEverSince(run, p) && Last(run).now - run[p].now >= 180.0
  {
    PauseTrackerIsHonest(run);
    var p: nat :| PausedEverSince(run, p) && run[p].now == After(run).pausedSince.value;
  }
}
