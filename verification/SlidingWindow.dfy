/** Sequences of event times and the windows that slide over them. */
module SlidingWindow {

  predicate Sorted(ts: seq<real>) {
    forall i, j :: 0 <= i <= j < |ts| ==> ts[i] <= ts[j]
  }

  /** Any `limit + 1` events in a row span at least (`strictly`: more than) `window` seconds. */
  ghost predicate Spread(ts: seq<real>, limit: nat, window: real, strictly: bool) {
    forall i, j :: 0 <= i <= j < |ts| && j == i + limit ==>
      if strictly then ts[j] - ts[i] > window else ts[j] - ts[i] >= window
  }

  /** `lo <= t < hi`, or `lo <= t <= hi` for a closed window. */
  predicate Inside(t: real, lo: real, hi: real, closed: bool) {
    lo <= t && (if closed then t <= hi else t < hi)
  }

  function CountIn(ts: seq<real>, lo: real, hi: real, closed: bool): nat {
    if ts == [] then 0
    else (if Inside(ts[0], lo, hi, closed) then 1 else 0) + CountIn(ts[1..], lo, hi, closed)
  }

  lemma {:induction false} OnlyAPrefixCounts(ts: seq<real>, n: nat, lo: real, hi: real, closed: bool)
    requires forall i :: n <= i < |ts| ==> !Inside(ts[i], lo, hi, closed)
    ensures CountIn(ts, lo, hi, closed) <= n
  {
    if ts != [] {
      OnlyAPrefixCounts(ts[1..], if n == 0 then 0 else n - 1, lo, hi, closed);
    }
  }

  /** A spread-out sequence has at most `limit` events in any window, wherever it is placed. */
  lemma {:induction false} AtMostLimitInAnyWindow(ts: seq<real>, limit: nat, window: real, lo: real, closed: bool)
    requires Sorted(ts) && Spread(ts, limit, window, closed)
    ensures CountIn(ts, lo, lo + window, closed) <= limit
  {
    if ts == [] {
    } else if ts[0] < lo {
      assert forall i, j :: 0 <= i <= j < |ts[1..]| && j == i + limit ==>
          ts[1..][i] == ts[i + 1] && ts[1..][j] == ts[j + 1];
      AtMostLimitInAnyWindow(ts[1..], limit, window, lo, closed);
    } else {
      forall i | limit <= i < |ts| ensures !Inside(ts[i], lo, lo + window, closed) {
        assert ts[0] <= ts[i - limit];
      }
      OnlyAPrefixCounts(ts, limit, lo, lo + window, closed);
    }
  }

  /** The events less than (`closed`: at most) `window` seconds before `now`. */
  predicate Fresh(t: real, now: real, window: real, closed: bool) {
    if closed then now - t <= window else now - t < window
  }

  function Recent(ts: seq<real>, now: real, window: real, closed: bool): seq<real> {
    if ts == [] then []
    else (if Fresh(ts[0], now, window, closed) then [ts[0]] else []) + Recent(ts[1..], now, window, closed)
  }

  lemma {:induction false} RecentAppend(ts: seq<real>, t: real, now: real, window: real, closed: bool)
    ensures Recent(ts + [t], now, window, closed)
         == Recent(ts, now, window, closed) + (if Fresh(t, now, window, closed) then [t] else [])
  {
    if ts == [] {
      assert ts + [t] == [t];
    } else {
      var head := if Fresh(ts[0], now, window, closed) then [ts[0]] else [];
      var last := if Fresh(t, now, window, closed) then [t] else [];
      assert (ts + [t])[1..] == ts[1..] + [t] && (ts + [t])[0] == ts[0];
      RecentAppend(ts[1..], t, now, window, closed);
      assert head + (Recent(ts[1..], now, window, closed) + last)
          == (head + Recent(ts[1..], now, window, closed)) + last;
    }
  }

  /** Dropping old events early never changes a later answer. */
  lemma {:induction false} RecentOfRecent(ts: seq<real>, early: real, now: real, window: real, closed: bool)
    requires early <= now
    ensures Recent(Recent(ts, early, window, closed), now, window, closed) == Recent(ts, now, window, closed)
  {
    if ts != [] {
      RecentOfRecent(ts[1..], early, now, window, closed);
      var rest := Recent(ts[1..], early, window, closed);
      if Fresh(ts[0], early, window, closed) {
        assert ([ts[0]] + rest)[1..] == rest;
      } else {
        assert [] + rest == rest;
        assert [] + Recent(ts[1..], now, window, closed) == Recent(ts[1..], now, window, closed);
      }
    }
  }

  lemma {:induction false} RecentOfFresh(ts: seq<real>, now: real, window: real, closed: bool)
    requires forall i :: 0 <= i < |ts| ==> Fresh(ts[i], now, window, closed)
    ensures Recent(ts, now, window, closed) == ts
  {
    if ts != [] { RecentOfFresh(ts[1..], now, window, closed); }
  }

  /** In a sorted log the recent events are a suffix. */
  lemma {:induction false} FreshFromHereOn(ts: seq<real>, k: nat, now: real, window: real, closed: bool)
    requires Sorted(ts) && k < |ts| && Fresh(ts[k], now, window, closed)
    ensures |Recent(ts, now, window, closed)| >= |ts| - k
  {
    if k == 0 {
      forall i | 0 <= i < |ts| ensures Fresh(ts[i], now, window, closed) { assert ts[0] <= ts[i]; }
      RecentOfFresh(ts, now, window, closed);
    } else {
      FreshFromHereOn(ts[1..], k - 1, now, window, closed);
    }
  }

  /** Room for one more: fewer than `limit` events so far, or the `limit`-th last has left the window. */
  predicate Room(ts: seq<real>, limit: nat, now: real, window: real, closed: bool) {
    || |ts| < limit
    || (limit > 0 && if closed then now - ts[|ts| - limit] > window else now - ts[|ts| - limit] >= window)
  }

  lemma {:induction false} StaleUpTo(ts: seq<real>, k: nat, now: real, window: real, closed: bool)
    requires k <= |ts| && forall i :: 0 <= i < k ==> !Fresh(ts[i], now, window, closed)
    ensures |Recent(ts, now, window, closed)| <= |ts| - k
  {
    if k > 0 {
      StaleUpTo(ts[1..], k - 1, now, window, closed);
    } else if ts != [] {
      StaleUpTo(ts[1..], 0, now, window, closed);
    }
  }

  /** Counting the recent events of a sorted log decides as looking at one event of it does. */
  lemma RoomExactlyWhen(ts: seq<real>, limit: nat, now: real, window: real, closed: bool)
    requires Sorted(ts)
    ensures |Recent(ts, now, window, closed)| < limit <==> Room(ts, limit, now, window, closed)
  {
    if |ts| < limit {
      StaleUpTo(ts, 0, now, window, closed);
    } else if limit > 0 {
      var k := |ts| - limit;
      if Fresh(ts[k], now, window, closed) {
        FreshFromHereOn(ts, k, now, window, closed);
      } else {
        forall i | 0 <= i < k + 1 ensures !Fresh(ts[i], now, window, closed) { assert ts[i] <= ts[k]; }
        StaleUpTo(ts, k + 1, now, window, closed);
      }
    }
  }

  /** A limiter that admits an event only when fewer than `limit` are recent keeps its log spread. */
  lemma AdmittingKeepsSpread(ts: seq<real>, limit: nat, window: real, now: real, closed: bool)
    requires Sorted(ts) && Spread(ts, limit, window, closed)
    requires forall i :: 0 <= i < |ts| ==> ts[i] <= now
    requires |Recent(ts, now, window, closed)| < limit
    ensures Sorted(ts + [now]) && Spread(ts + [now], limit, window, closed)
  {
    var us := ts + [now];
    forall i, j | 0 <= i <= j < |us| && j == i + limit
      ensures if closed then us[j] - us[i] > window else us[j] - us[i] >= window
    {
      if j < |ts| {
        assert us[i] == ts[i] && us[j] == ts[j];
      } else if Fresh(us[i], now, window, closed) {
        FreshFromHereOn(ts, i, now, window, closed);
        assert false;
      }
    }
  }

  ghost predicate NotAfter(ts: seq<real>, now: real) {
    forall i :: 0 <= i < |ts| ==> ts[i] <= now
  }

  /** A pruned list stands for a whole log: from `clock` on, both have the same recent part. */
  ghost predicate StandsFor(pruned: seq<real>, log: seq<real>, clock: real, window: real) {
    forall now :: now >= clock ==> Recent(pruned, now, window, false) == Recent(log, now, window, false)
  }

  lemma StandsForPruned(pruned: seq<real>, log: seq<real>, clock: real, window: real)
    requires StandsFor(pruned, log, clock, window)
    ensures StandsFor(Recent(pruned, clock, window, false), log, clock, window)
  {
    forall now | now >= clock
      ensures Recent(Recent(pruned, clock, window, false), now, window, false) == Recent(log, now, window, false)
    {
      RecentOfRecent(pruned, clock, now, window, false);
    }
  }

  lemma StandsForAppended(pruned: seq<real>, log: seq<real>, clock: real, window: real)
    requires StandsFor(pruned, log, clock, window)
    ensures StandsFor(pruned + [clock], log + [clock], clock, window)
  {
    forall now | now >= clock
      ensures Recent(pruned + [clock], now, window, false) == Recent(log + [clock], now, window, false)
    {
      RecentAppend(pruned, clock, now, window, false);
      RecentAppend(log, clock, now, window, false);
    }
  }

  /** The log of an admission limiter, and the pruned list it decides by. */
  ghost predicate Limited(pruned: seq<real>, log: seq<real>, clock: real, limit: nat, window: real) {
    && Sorted(log) && Spread(log, limit, window, false) && NotAfter(log, clock)
    && StandsFor(pruned, log, clock, window)
  }

  /** Waiting, pruning, and admitting within the limit all keep the log within the limit. */
  lemma LimitedStep(pruned: seq<real>, log: seq<real>, clock: real, now: real, limit: nat, window: real)
    requires Limited(pruned, log, clock, limit, window) && clock <= now
    ensures Limited(pruned, log, now, limit, window)
    ensures |Recent(pruned, now, window, false)| == |Recent(log, now, window, false)|
    ensures Limited(Recent(pruned, now, window, false), log, now, limit, window)
    ensures |Recent(pruned, now, window, false)| < limit ==>
              Limited(Recent(pruned, now, window, false) + [now], log + [now], now, limit, window)
  {
    assert StandsFor(pruned, log, now, window);
    StandsForPruned(pruned, log, now, window);
    if |Recent(pruned, now, window, false)| < limit {
      AdmittingKeepsSpread(log, limit, window, now, false);
      StandsForAppended(Recent(pruned, now, window, false), log, now, window);
    }
  }
}
