/** The packet-id tracker (`_SeenPacketIds` in server.py): a dict kept in order of last sighting, trimmed
    by age and by count.  The early-stopping trim is compared with a tracker that never forgets. */
module SeenPackets {
  datatype Entry = Entry(pid: int, ts: real)

  predicate Sorted(s: seq<Entry>) {
    forall i, j :: 0 <= i < j < |s| ==> s[i].ts <= s[j].ts
  }

  predicate Distinct(s: seq<Entry>) {
    forall i, j :: 0 <= i < j < |s| ==> s[i].pid != s[j].pid
  }

  predicate AllBefore(s: seq<Entry>, now: real) {
    forall i :: 0 <= i < |s| ==> s[i].ts <= now
  }

  function Drop(s: seq<Entry>, pid: int): (r: seq<Entry>)
    ensures |r| <= |s|
  {
    if s == [] then [] else (if s[0].pid == pid then [] else [s[0]]) + Drop(s[1..], pid)
  }

  lemma {:induction false} DropMembers(s: seq<Entry>, pid: int, e: Entry)
    ensures e in Drop(s, pid) <==> e in s && e.pid != pid
  {
    if s != [] {
      assert e in s <==> e == s[0] || e in s[1..];
      DropMembers(s[1..], pid, e);
    }
  }

  function Added(s: seq<Entry>, pid: int, now: real): seq<Entry> {
    Drop(s, pid) + [Entry(pid, now)]
  }

  predicate IsStale(e: Entry, now: real, maxAge: real) {
    now - e.ts > maxAge
  }

  /** Reference: every entry still within the age limit, found by looking at all of them. */
  function Fresh(s: seq<Entry>, now: real, maxAge: real): (r: seq<Entry>)
    ensures |r| <= |s|
  {
    if s == [] then [] else (if IsStale(s[0], now, maxAge) then [] else [s[0]]) + Fresh(s[1..], now, maxAge)
  }

  function Newest(s: seq<Entry>, n: nat): seq<Entry> {
    if |s| <= n then s else s[|s| - n..]
  }

  // ------------------------------------------------------------------ the class

  class Tracker {
    var timestamps: seq<Entry>   // the dict, in insertion order

    ghost predicate Valid()
      reads this
    {
      Sorted(timestamps) && Distinct(timestamps)
    }

    constructor ()
      ensures Valid() && timestamps == []
    {
      timestamps := [];
    }

    method Add(pid: int, now: real)
      requires Valid() && AllBefore(timestamps, now)
      modifies this
      ensures Valid() && timestamps == Added(old(timestamps), pid, now)
    {
      var i := 0;
      while i < |timestamps| && timestamps[i].pid != pid
        invariant 0 <= i <= |timestamps|
        invariant forall j :: 0 <= j < i ==> timestamps[j].pid != pid
      {
        i := i + 1;
      }
      assert Sorted(Added(timestamps, pid, now)) && Distinct(Added(timestamps, pid, now)) by {
        AddKeepsOrder(timestamps, pid, now);
      }
      ghost var others := if i < |timestamps| then timestamps[..i] + timestamps[i + 1..] else timestamps;
      assert Drop(timestamps, pid) == others by {
        DropAt(timestamps, i, pid);
      }
      if i < |timestamps| {
        timestamps := timestamps[..i] + timestamps[i + 1..];
      }
      timestamps := timestamps + [Entry(pid, now)];
    }

    /** The scan stops at the first entry that is young enough, yet nothing stale survives. */
    method Trim(now: real, maxCount: nat, maxAge: real)
      requires Valid()
      modifies this
      ensures Valid() && timestamps == Newest(Fresh(old(timestamps), now, maxAge), maxCount)
    {
      var stale := 0;
      while stale < |timestamps| && now - timestamps[stale].ts > maxAge
        invariant 0 <= stale <= |timestamps|
        invariant forall i :: 0 <= i < stale ==> IsStale(timestamps[i], now, maxAge)
      {
        stale := stale + 1;
      }
      assert Fresh(timestamps, now, maxAge) == timestamps[stale..] by { FreshAt(timestamps, stale, now, maxAge); }
      SuffixInOrder(timestamps, stale);
      timestamps := timestamps[stale..];
      var excess := |timestamps| - maxCount;
      if excess > 0 {
        SuffixInOrder(timestamps, excess);
        timestamps := timestamps[excess..];
      }
    }
  }

  // ------------------------------------------------------------------ order and freshness

  lemma {:induction false} DropAbsent(s: seq<Entry>, pid: int)
    requires forall i :: 0 <= i < |s| ==> s[i].pid != pid
    ensures Drop(s, pid) == s
  {
    if s != [] { DropAbsent(s[1..], pid); }
  }

  lemma {:induction false} DropKeepsOrder(s: seq<Entry>, pid: int)
    requires Sorted(s) && Distinct(s)
    ensures Sorted(Drop(s, pid)) && Distinct(Drop(s, pid))
  {
    if s != [] {
      var rest := Drop(s[1..], pid);
      DropKeepsOrder(s[1..], pid);
      forall i | 0 <= i < |rest| ensures s[0].ts <= rest[i].ts && s[0].pid != rest[i].pid {
        DropMembers(s[1..], pid, rest[i]);
        assert rest[i] in s[1..];
      }
    }
  }

  lemma AddKeepsOrder(s: seq<Entry>, pid: int, now: real)
    requires Sorted(s) && Distinct(s) && AllBefore(s, now)
    ensures Sorted(Added(s, pid, now)) && Distinct(Added(s, pid, now)) && AllBefore(Added(s, pid, now), now)
  {
    DropKeepsOrder(s, pid);
    var r := Drop(s, pid);
    forall i | 0 <= i < |r| ensures r[i].ts <= now && r[i].pid != pid {
      DropMembers(s, pid, r[i]);
    }
  }

  /** In an ordered list that starts with a young entry everything is young. */
  lemma {:induction false} FreshFromTheFirst(s: seq<Entry>, now: real, maxAge: real)
    requires Sorted(s) && (s != [] ==> !IsStale(s[0], now, maxAge))
    ensures Fresh(s, now, maxAge) == s
  {
    if s != [] { FreshFromTheFirst(s[1..], now, maxAge); }
  }

  lemma {:induction false} DropOfConcat(a: seq<Entry>, b: seq<Entry>, pid: int)
    ensures Drop(a + b, pid) == Drop(a, pid) + Drop(b, pid)
  {
    if a == [] {
      assert a + b == b;
    } else {
      assert (a + b)[1..] == a[1..] + b;
      DropOfConcat(a[1..], b, pid);
    }
  }

  /** If the first `k` entries are the stale ones, the rest is what is fresh. */
  lemma {:induction false} FreshAt(s: seq<Entry>, k: nat, now: real, maxAge: real)
    requires Sorted(s) && k <= |s| && (k < |s| ==> !IsStale(s[k], now, maxAge))
    requires forall i :: 0 <= i < k ==> IsStale(s[i], now, maxAge)
    ensures Fresh(s, now, maxAge) == s[k..]
  {
    if k == 0 {
      FreshFromTheFirst(s, now, maxAge);
    } else {
      FreshAt(s[1..], k - 1, now, maxAge);
      assert s[1..][k - 1..] == s[k..];
    }
  }

  lemma {:induction false} FirstFresh(s: seq<Entry>, now: real, maxAge: real) returns (k: nat)
    ensures k <= |s| && (k < |s| ==> !IsStale(s[k], now, maxAge))
    ensures forall i :: 0 <= i < k ==> IsStale(s[i], now, maxAge)
  {
    k := 0;
    while k < |s| && IsStale(s[k], now, maxAge)
      invariant k <= |s| && forall i :: 0 <= i < k ==> IsStale(s[i], now, maxAge)
    {
      k := k + 1;
    }
  }

  lemma SuffixInOrder(s: seq<Entry>, k: nat)
    requires k <= |s| && Sorted(s) && Distinct(s)
    ensures Sorted(s[k..]) && Distinct(s[k..])
  {
  }

  lemma {:induction false} DropAt(s: seq<Entry>, k: nat, pid: int)
    requires Distinct(s) && k <= |s| && (k < |s| ==> s[k].pid == pid)
    requires forall j :: 0 <= j < k ==> s[j].pid != pid
    ensures Drop(s, pid) == if k < |s| then s[..k] + s[k + 1..] else s
  {
    if k == |s| {
      DropAbsent(s, pid);
    } else {
      var before, from, after := s[..k], s[k..], s[k + 1..];
      assert Drop(s, pid) == Drop(before, pid) + Drop(from, pid) by {
        assert s == before + from;
        DropOfConcat(before, from, pid);
      }
      assert Drop(before, pid) == before by { DropAbsent(before, pid); }
      assert Drop(from, pid) == after by {
        assert from[1..] == after && from[0] == s[k];
        DropAbsent(after, pid);
      }
    }
  }

  // ------------------------------------------------------------------ whole runs

  datatype Event = Add(pid: int, now: real) | Trim(now: real)

  datatype Limits = Limits(maxCount: nat, maxAge: real)

  predicate ClockRuns(events: seq<Event>) {
    forall i, j :: 0 <= i < j < |events| ==> events[i].now <= events[j].now
  }

  function Step(s: seq<Entry>, e: Event, limits: Limits): seq<Entry> {
    match e
    case Add(pid, now) => Added(s, pid, now)
    case Trim(now) => Newest(Fresh(s, now, limits.maxAge), limits.maxCount)
  }

  function Tracked(events: seq<Event>, limits: Limits): seq<Entry> {
    if events == [] then [] else Step(Tracked(events[..|events| - 1], limits), events[|events| - 1], limits)
  }

  /** The tracker that never forgets: the last sighting of every id, oldest first. */
  function Sightings(events: seq<Event>): seq<Entry> {
    if events == [] then []
    else
      var before := Sightings(events[..|events| - 1]);
      match events[|events| - 1]
      case Add(pid, now) => Added(before, pid, now)
      case Trim(_) => before
  }

  ghost predicate IsLastSighting(events: seq<Event>, e: Entry) {
    exists i :: 0 <= i < |events| && events[i] == Add(e.pid, e.ts)
                && forall j :: i < j < |events| && events[j].Add? ==> events[j].pid != e.pid
  }

  lemma {:induction false} SightingsAreLast(events: seq<Event>, e: Entry)
    ensures e in Sightings(events) <==> IsLastSighting(events, e)
  {
    if events != [] {
      var front, last := events[..|events| - 1], events[|events| - 1];
      SightingsAreLast(front, e);
      if last.Add? { DropMembers(Sightings(front), last.pid, e); }
      LastSightingStep(events, front, last, e);
    }
  }

  lemma LastSightingStep(events: seq<Event>, front: seq<Event>, last: Event, e: Entry)
    requires events == front + [last]
    ensures IsLastSighting(events, e)
            <==> last == Add(e.pid, e.ts) || (IsLastSighting(front, e) && (last.Add? ==> last.pid != e.pid))
  {
    assert events[|front|] == last && forall j :: 0 <= j < |front| ==> events[j] == front[j];
    if IsLastSighting(front, e) && (last.Add? ==> last.pid != e.pid) {
      var i :| 0 <= i < |front| && front[i] == Add(e.pid, e.ts)
               && forall j :: i < j < |front| && front[j].Add? ==> front[j].pid != e.pid;
      assert events[i] == Add(e.pid, e.ts);
    }
    if IsLastSighting(events, e) {
      var i :| 0 <= i < |events| && events[i] == Add(e.pid, e.ts)
               && forall j :: i < j < |events| && events[j].Add? ==> events[j].pid != e.pid;
      if i < |front| { assert front[i] == Add(e.pid, e.ts); }
    }
  }

  lemma {:induction false} SightingsInOrder(events: seq<Event>)
    requires ClockRuns(events)
    ensures Sorted(Sightings(events)) && Distinct(Sightings(events))
    ensures events != [] ==> AllBefore(Sightings(events), events[|events| - 1].now)
    ensures events == [] ==> Sightings(events) == []
  {
    if events != [] {
      var front, last := events[..|events| - 1], events[|events| - 1];
      SightingsInOrder(front);
      var s := Sightings(front);
      assert AllBefore(s, last.now) by {
        if front != [] { assert front[|front| - 1] == events[|front| - 1]; }
      }
      if last.Add? { AddKeepsOrder(s, last.pid, last.now); }
    }
  }

  /** What was forgotten is stale, or enough newer ids are still tracked. */
  ghost predicate Forgotten(full: seq<Entry>, kept: seq<Entry>, now: real, limits: Limits) {
    && |kept| <= |full| && kept == full[|full| - |kept|..]
    && (|kept| >= limits.maxCount
        || forall i :: 0 <= i < |full| - |kept| ==> IsStale(full[i], now, limits.maxAge))
  }

  lemma ForgottenLater(full: seq<Entry>, kept: seq<Entry>, now: real, later: real, limits: Limits)
    requires Forgotten(full, kept, now, limits) && now <= later
    ensures Forgotten(full, kept, later, limits)
  {
  }

  lemma AddForgets(full: seq<Entry>, kept: seq<Entry>, pid: int, now: real, limits: Limits)
    requires Forgotten(full, kept, now, limits) && Distinct(full)
    ensures Forgotten(Added(full, pid, now), Added(kept, pid, now), now, limits)
  {
    var gone := full[..|full| - |kept|];
    assert full == gone + kept;
    DropOfConcat(gone, kept, pid);
    DroppedLength(kept, pid);
    var full', kept' := Added(full, pid, now), Added(kept, pid, now);
    assert full' == Drop(gone, pid) + kept';
    forall i | 0 <= i < |full'| - |kept'| ensures full'[i] in gone {
      assert full'[i] == Drop(gone, pid)[i];
      DropMembers(gone, pid, full'[i]);
    }
  }

  lemma {:induction false} DroppedLength(s: seq<Entry>, pid: int)
    requires Distinct(s)
    ensures |Drop(s, pid)| >= |s| - 1
  {
    if s != [] {
      if s[0].pid == pid { DropAbsent(s[1..], pid); } else { DroppedLength(s[1..], pid); }
    }
  }

  /** A trim of what is still tracked gives what a trim of everything would give. */
  lemma TrimForgets(full: seq<Entry>, kept: seq<Entry>, now: real, limits: Limits)
    requires Forgotten(full, kept, now, limits) && Sorted(full)
    ensures Newest(Fresh(kept, now, limits.maxAge), limits.maxCount)
        == Newest(Fresh(full, now, limits.maxAge), limits.maxCount)
    ensures Forgotten(full, Newest(Fresh(kept, now, limits.maxAge), limits.maxCount), now, limits)
  {
    var g := |full| - |kept|;
    var k := FirstFresh(full, now, limits.maxAge);
    assert Fresh(full, now, limits.maxAge) == full[k..] by { FreshAt(full, k, now, limits.maxAge); }
    var k' := if k >= g then k else g;
    assert Fresh(kept, now, limits.maxAge) == full[k'..] by { FreshOfSuffix(full, g, k, now, limits.maxAge); }
    var n := limits.maxCount;
    var m := if |full| - k <= n then k else |full| - n;
    if k < g {
      assert !IsStale(full[k], now, limits.maxAge);
      assert |kept| >= n;
    }
    assert Newest(full[k..], n) == full[m..] by { NewestOfSuffix(full, k, n); }
    assert Newest(full[k'..], n) == full[m..] by { NewestOfSuffix(full, k', n); }
    ForgottenAt(full, m, now, limits);
  }

  lemma ForgottenAt(full: seq<Entry>, m: nat, now: real, limits: Limits)
    requires m <= |full|
    requires |full| - m >= limits.maxCount || forall i :: 0 <= i < m ==> IsStale(full[i], now, limits.maxAge)
    ensures Forgotten(full, full[m..], now, limits)
  {
  }

  lemma FreshOfSuffix(s: seq<Entry>, g: nat, k: nat, now: real, maxAge: real)
    requires Sorted(s) && g <= |s| && k <= |s| && (k < |s| ==> !IsStale(s[k], now, maxAge))
    requires forall i :: 0 <= i < k ==> IsStale(s[i], now, maxAge)
    ensures Fresh(s[g..], now, maxAge) == s[if k >= g then k else g..]
  {
    var t, k' := s[g..], if k >= g then k - g else 0;
    assert forall i :: 0 <= i < |t| ==> t[i] == s[g + i];
    if k < g < |s| { assert s[k].ts <= s[g].ts; }
    FreshAt(t, k', now, maxAge);
    assert t[k'..] == s[g + k'..];
  }

  lemma NewestOfSuffix(s: seq<Entry>, k: nat, n: nat)
    requires k <= |s|
    ensures Newest(s[k..], n) == s[if |s| - k <= n then k else |s| - n..]
  {
  }

  lemma {:induction false} RunForgets(events: seq<Event>, limits: Limits)
    requires ClockRuns(events) && events != []
    ensures Forgotten(Sightings(events), Tracked(events, limits), events[|events| - 1].now, limits)
  {
    var front, last := events[..|events| - 1], events[|events| - 1];
    var full, kept := Sightings(front), Tracked(front, limits);
    assert Forgotten(full, kept, last.now, limits) by {
      if front != [] {
        RunForgets(front, limits);
        ForgottenLater(full, kept, front[|front| - 1].now, last.now, limits);
      }
    }
    SightingsInOrder(front);
    match last
    case Add(pid, now) => AddForgets(full, kept, pid, now, limits);
    case Trim(now) => TrimForgets(full, kept, now, limits);
  }

  /** After every trim of every run, however often and whenever it was trimmed before: the tracker holds
      exactly the newest `maxCount` of the ids whose last sighting is within the age limit. */
  lemma TrimmedTrackerIsExact(events: seq<Event>, now: real, limits: Limits)
    requires ClockRuns(events + [Trim(now)])
    ensures Tracked(events + [Trim(now)], limits)
        == Newest(Fresh(Sightings(events), now, limits.maxAge), limits.maxCount)
  {
    var all := events + [Trim(now)];
    assert all[..|all| - 1] == events;
    assert all[|all| - 1] == Trim(now);
    if events != [] {
      assert forall i :: 0 <= i < |events| ==> all[i] == events[i];
      assert ClockRuns(events);
      assert events[|events| - 1].now <= now by { assert all[|events| - 1].now <= all[|events|].now; }
      RunForgets(events, limits);
      ForgottenLater(Sightings(events), Tracked(events, limits), events[|events| - 1].now, now, limits);
      SightingsInOrder(events);
      TrimForgets(Sightings(events), Tracked(events, limits), now, limits);
    }
  }

  lemma {:induction false} FreshMembers(s: seq<Entry>, now: real, maxAge: real, e: Entry)
    ensures e in Fresh(s, now, maxAge) <==> e in s && now - e.ts <= maxAge
  {
    if s != [] {
      assert e in s <==> e == s[0] || e in s[1..];
      FreshMembers(s[1..], now, maxAge, e);
    }
  }

  /** After every trim of every run the tracker holds last sightings within the age limit, at most `maxCount` of
      them; all of them, unless it is full; and then none that is missing was seen after one that is kept. */
  lemma TrimKeepsTheNewest(events: seq<Event>, now: real, limits: Limits, e: Entry)
    requires ClockRuns(events + [Trim(now)])
    ensures var kept := Tracked(events + [Trim(now)], limits);
            && |kept| <= limits.maxCount
            && (e in kept ==> IsLastSighting(events, e) && now - e.ts <= limits.maxAge)
            && (IsLastSighting(events, e) && now - e.ts <= limits.maxAge && e !in kept ==>
                  |kept| == limits.maxCount && forall k :: 0 <= k < |kept| ==> e.ts <= kept[k].ts)
  {
    var young := Fresh(Sightings(events), now, limits.maxAge);
    TrimmedTrackerIsExact(events, now, limits);
    SightingsAreLast(events, e);
    FreshMembers(Sightings(events), now, limits.maxAge, e);
    assert Sorted(young) by {
      assert forall i :: 0 <= i < |events| ==> (events + [Trim(now)])[i] == events[i];
      SightingsInOrder(events);
      var k := FirstFresh(Sightings(events), now, limits.maxAge);
      FreshAt(Sightings(events), k, now, limits.maxAge);
    }
    if e in young && e !in Newest(young, limits.maxCount) {
      var i :| 0 <= i < |young| && young[i] == e;
      assert i < |young| - limits.maxCount;
    }
  }

  /** Between trims nothing young is forgotten unless at least `maxCount` newer ids are tracked. */
  lemma RecentIdIsRemembered(events: seq<Event>, limits: Limits, e: Entry)
    requires ClockRuns(events) && events != [] && IsLastSighting(events, e)
    requires !IsStale(e, events[|events| - 1].now, limits.maxAge) && |Tracked(events, limits)| < limits.maxCount
    ensures e in Tracked(events, limits)
  {
    SightingsAreLast(events, e);
    RunForgets(events, limits);
    var full, kept := Sightings(events), Tracked(events, limits);
    var i :| 0 <= i < |full| && full[i] == e;
    assert full[i] == kept[i - (|full| - |kept|)];
  }
}
