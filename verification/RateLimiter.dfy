/** The write limiter of api/api_camera_sources.py: a deque of admitted call times. */
module RateLimiter {
  import opened SlidingWindow

  class Limiter {
    const limit: nat
    const window: real
    var hits: seq<real>
    ghost var admitted: seq<real>   // every admitted call since construction
    ghost var clock: real

    /** The deque holds exactly the admitted calls no older than the window was at the last call. */
    ghost predicate Valid()
      reads this
    {
      && window >= 0.0
      && Sorted(admitted)
      && (forall i :: 0 <= i < |admitted| ==> admitted[i] <= clock)
      && Spread(admitted, limit, window, true)
      && hits == Recent(admitted, clock, window, true)
      && Sorted(hits)
    }

    constructor (limit: nat, window: real, ghost now: real)
      requires window >= 0.0
      ensures Valid() && this.limit == limit && this.window == window && admitted == [] && clock == now
    {
      this.limit, this.window := limit, window;
      hits, admitted, clock := [], [], now;
    }

    /** Admits exactly when fewer than `limit` calls were admitted so far or the `limit`-th last of them is
        more than `window` seconds ago. */
    method Allow(now: real) returns (ok: bool)
      requires Valid() && clock <= now
      modifies this
      ensures Valid() && clock == now
      ensures ok <==> |old(admitted)| < limit || (limit > 0 && now - old(admitted)[|old(admitted)| - limit] > window)
      ensures admitted == if ok then old(admitted) + [now] else old(admitted)
    {
      RecentOfRecent(admitted, clock, now, window, true);
      RoomExactlyWhen(admitted, limit, now, window, true);
      while hits != [] && now - hits[0] > window
        invariant Sorted(hits) && Recent(hits, now, window, true) == Recent(admitted, now, window, true)
        modifies this`hits
        decreases |hits|
      {
        hits := hits[1..];
      }
      SortedFreshHead(hits, now, window);
      clock := now;
      if |hits| >= limit {
        return false;
      }
      AdmittingKeepsSpread(admitted, limit, window, now, true);
      RecentAppend(admitted, now, now, window, true);
      hits := hits + [now];
      admitted := admitted + [now];
      SortedRecent(admitted, now, window);
      return true;
    }
  }

  /** Once the head is fresh, everything is. */
  lemma SortedFreshHead(ts: seq<real>, now: real, window: real)
    requires Sorted(ts) && (ts == [] || now - ts[0] <= window)
    ensures Recent(ts, now, window, true) == ts
  {
    forall i | 0 <= i < |ts| ensures Fresh(ts[i], now, window, true) { assert ts[0] <= ts[i]; }
    RecentOfFresh(ts, now, window, true);
  }

  lemma {:induction false} SortedRecent(ts: seq<real>, now: real, window: real)
    requires Sorted(ts)
    ensures Sorted(Recent(ts, now, window, true))
    ensures forall t :: t in Recent(ts, now, window, true) ==> t in ts
  {
    if ts != [] {
      SortedRecent(ts[1..], now, window);
      var rest := Recent(ts[1..], now, window, true);
      forall t | t in rest ensures t in ts && ts[0] <= t {
        var k :| 0 <= k < |ts[1..]| && ts[1..][k] == t;
        assert ts[k + 1] == t;
      }
      assert forall i :: 0 <= i < |rest| ==> rest[i] in rest;
    }
  }

  /** A run of calls: which of them a never-forgetting limiter would admit. */
  function Admitted(limit: nat, window: real, calls: seq<real>): seq<real> {
    if calls == [] then []
    else
      var before := Admitted(limit, window, calls[..|calls| - 1]);
      var now := calls[|calls| - 1];
      if Room(before, limit, now, window, true) then before + [now] else before
  }

  /** Whatever the calls, no closed interval of length `window` holds more than `limit` admitted ones. */
  lemma {:induction false} EveryWindowIsBounded(limit: nat, window: real, calls: seq<real>, lo: real)
    requires Sorted(calls)
    ensures var log := Admitted(limit, window, calls);
            && Sorted(log) && Spread(log, limit, window, true)
            && (forall t :: t in log ==> t in calls)
            && CountIn(log, lo, lo + window, true) <= limit
  {
    if calls != [] {
      var prefix, now := calls[..|calls| - 1], calls[|calls| - 1];
      EveryWindowIsBounded(limit, window, prefix, lo);
      var before := Admitted(limit, window, prefix);
      forall i | 0 <= i < |before| ensures before[i] <= now { assert before[i] in prefix; }
      if Room(before, limit, now, window, true) {
        RoomExactlyWhen(before, limit, now, window, true);
        AdmittingKeepsSpread(before, limit, window, now, true);
      }
    }
    AtMostLimitInAnyWindow(Admitted(limit, window, calls), limit, window, lo, true);
  }

  function Answers(limit: nat, window: real, calls: seq<real>): seq<bool> {
    if calls == [] then []
    else
      var prefix := calls[..|calls| - 1];
      Answers(limit, window, prefix)
          + [Room(Admitted(limit, window, prefix), limit, calls[|calls| - 1], window, true)]
  }

  lemma OneMoreCall(limit: nat, window: real, calls: seq<real>, k: nat)
    requires k < |calls|
    ensures var before := Admitted(limit, window, calls[..k]);
            var ok := Room(before, limit, calls[k], window, true);
            && Admitted(limit, window, calls[..k + 1]) == (if ok then before + [calls[k]] else before)
            && Answers(limit, window, calls[..k + 1]) == Answers(limit, window, calls[..k]) + [ok]
  {
    assert calls[..k + 1][..k] == calls[..k];
  }

  /** The deque answers every call of every run as the never-forgetting limiter does. */
  method Serve(limit: nat, window: real, calls: seq<real>) returns (answers: seq<bool>)
    requires Sorted(calls) && window >= 0.0
    ensures answers == Answers(limit, window, calls)
  {
    var limiter := new Limiter(limit, window, if calls == [] then 0.0 else calls[0]);
    answers := [];
    for k := 0 to |calls|
      invariant limiter.Valid() && limiter.limit == limit && limiter.window == window && fresh(limiter)
      invariant k < |calls| ==> limiter.clock <= calls[k]
      invariant limiter.admitted == Admitted(limit, window, calls[..k])
      invariant answers == Answers(limit, window, calls[..k])
    {
      var ok := limiter.Allow(calls[k]);
      answers := answers + [ok];
      OneMoreCall(limit, window, calls, k);
    }
    assert calls[..|calls|] == calls;
  }
}
