/** The radio's channel list (`discover_radio_channels` in api/api_chat.py): one cached list, one read of
    the radio at a time, back-off after failures.  Any number of request threads interleave. */
module ChannelCache {
  import opened Options
  import opened SortedKeys

  const TTL := 21600.0
  const SOFT_REFRESH_MIN_AGE := 600.0

  datatype Info = Info(index: int, name: string)

  /** A listed channel.  An empty name stands for the label derived from the slot index. */
  datatype Channel = Channel(index: int, name: string)
  datatype Error = PortAbsent | PortBusy | OtherError
  datatype Force = Unforced | Soft | Hard

  function BackOff(e: Error): real {
    match e
    case PortAbsent => 30.0
    case PortBusy => 15.0
    case OtherError => 60.0
  }

  function ToChannel(info: Info): Channel {
    Channel(info.index, info.name)
  }

  const FALLBACK: seq<Channel> := [Channel(0, "")]

  // ------------------------------------------------------------------ one item per slot, in slot order

  predicate InSlotOrder(cs: seq<Channel>) {
    forall i, j :: 0 <= i < j < |cs| ==> cs[i].index < cs[j].index
  }

  /** The dict keyed by slot: a later item replaces an earlier one. */
  function BySlot(items: seq<Info>): (m: map<int, Channel>)
    ensures forall i :: i in m ==> m[i].index == i
  {
    if items == [] then map[]
    else BySlot(items[..|items| - 1])[items[|items| - 1].index := ToChannel(items[|items| - 1])]
  }

  function Ordered(items: seq<Info>): (cs: seq<Channel>)
    ensures InSlotOrder(cs)
  {
    var slots := BySlot(items);
    var keys := Ascending(slots.Keys);
    assert forall k :: 0 <= k < |keys| ==> keys[k] in slots;
    seq(|keys|, k requires 0 <= k < |keys| => slots[keys[k]])
  }

  /** Every slot the radio reported is listed, with its last report, and no other slot is. */
  lemma {:induction false} BySlotIsLastReport(items: seq<Info>, c: Channel)
    ensures c.index in BySlot(items) && BySlot(items)[c.index] == c
            <==> exists i :: 0 <= i < |items| && IsLastReport(items, i) && ToChannel(items[i]) == c
  {
    if items != [] {
      var front, last := items[..|items| - 1], items[|items| - 1];
      BySlotIsLastReport(front, c);
      assert forall i :: 0 <= i < |front| ==> front[i] == items[i];
      if last.index == c.index {
        assert IsLastReport(items, |items| - 1);
      } else {
        forall i | 0 <= i < |front| && ToChannel(items[i]) == c
          ensures IsLastReport(items, i) <==> IsLastReport(front, i) {}
      }
    }
  }

  predicate IsLastReport(items: seq<Info>, i: int)
    requires 0 <= i < |items|
  {
    forall j :: i < j < |items| ==> items[j].index != items[i].index
  }

  lemma OrderedIsExact(items: seq<Info>, c: Channel)
    ensures c in Ordered(items)
            <==> exists i :: 0 <= i < |items| && IsLastReport(items, i)
                             && c.index == items[i].index && c.name == items[i].name
  {
    BySlotIsLastReport(items, c);
    var slots := BySlot(items);
    var keys := Ascending(slots.Keys);
    if c.index in slots && slots[c.index] == c {
      var k :| 0 <= k < |keys| && keys[k] == c.index;
      assert Ordered(items)[k] == c;
    }
  }

  lemma OrderedIsInhabited(items: seq<Info>)
    ensures Ordered(items) == [] <==> items == []
  {
    if items != [] {
      assert items[|items| - 1].index in BySlot(items);
      assert items[|items| - 1].index in Ascending(BySlot(items).Keys);
    }
  }

  // ------------------------------------------------------------------ the state machine

  datatype Cache = Cache(timestamp: real, channels: seq<Channel>, generation: int)

  /** How a read of the radio ends: transports build the whole list before they return it. */
  datatype Answer = Listed(items: seq<Info>) | Raised(error: Error)

  /** A request thread: turned away by the lock, past the lock, or waiting for the radio. */
  datatype Phase =
    | TurnedAway
    | Entered(force: Force)
    | Reading(force: Force, startedAt: real, generation: int, copy: seq<Channel>)

  /** A finished read: why it started, on which connection, what came back, and on which connection then. */
  datatype Read = Read(force: Force, startedAt: real, generation: int, answer: Answer, endGeneration: int)

  /** A list handed to a caller, and how many finished reads were known by then. */
  datatype Returned = Returned(channels: seq<Channel>, known: nat)

  datatype State = State(
    cache: Cache, backoffUntil: real, lock: Option<nat>, threads: map<nat, Phase>, clock: real,
    log: seq<Read>,                    // every finished read, oldest first
    returned: seq<Returned>            // every answer, oldest first
  )

  datatype Event =
    | Enter(tid: nat, force: Force)
    | Serve(tid: nat)
    | Decide(tid: nat, now: real, generation: int, radioAvailable: bool)
    | Finish(tid: nat, answer: Answer, generation: int)

  function OrFallback(cs: seq<Channel>): seq<Channel> {
    if cs != [] then cs else FALLBACK
  }

  /** The cached list may be used as it is. */
  predicate CacheHit(c: Cache, force: Force, now: real, generation: int) {
    && c.channels != [] && c.generation == generation && force != Hard
    && now - c.timestamp < TTL && !(force == Soft && now - c.timestamp >= SOFT_REFRESH_MIN_AGE)
  }

  function Leave(s: State, tid: nat, result: seq<Channel>): State {
    s.(lock := if s.lock == Some(tid) then None else s.lock, threads := s.threads - {tid},
       returned := s.returned + [Returned(result, |s.log|)])
  }

  /** The radio answered the read `r`. */
  function AfterRead(s: State, r: Phase, answer: Answer, generation: int): State
    requires r.Reading?
  {
    var t := s.(log := s.log + [Read(r.force, r.startedAt, r.generation, answer, generation)]);
    var fallback := Cache(r.startedAt, FALLBACK, s.cache.generation);
    match answer
    case Raised(error) =>
      var u := t.(backoffUntil := r.startedAt + BackOff(error));
      if r.copy != [] then u else u.(cache := fallback)
    case Listed(items) =>
      if items != [] then t.(backoffUntil := 0.0, cache := Cache(r.startedAt, Ordered(items), generation))
      else t.(cache := fallback)
  }

  function ResultOf(r: Phase, answer: Answer): seq<Channel>
    requires r.Reading?
  {
    match answer
    case Raised(_) => OrFallback(r.copy)
    case Listed(items) => if items != [] then Ordered(items) else FALLBACK
  }

  function Next(s: State, e: Event): State {
    match e
    case Enter(tid, force) =>
      if tid in s.threads then s
      else if s.lock.Some? then s.(threads := s.threads[tid := TurnedAway])
      else s.(lock := Some(tid), threads := s.threads[tid := Entered(force)])
    case Serve(tid) =>
      if tid in s.threads && s.threads[tid].TurnedAway? then Leave(s, tid, OrFallback(s.cache.channels)) else s
    case Decide(tid, now, generation, radioAvailable) =>
      if !(tid in s.threads && s.threads[tid].Entered? && now >= s.clock) then s
      else
        var t, force := s.(clock := now), s.threads[tid].force;
        if CacheHit(s.cache, force, now, generation) then Leave(t, tid, s.cache.channels)
        else if !radioAvailable || now < s.backoffUntil then Leave(t, tid, OrFallback(s.cache.channels))
        else t.(threads := s.threads[tid := Reading(force, now, generation, s.cache.channels)])
    case Finish(tid, answer, generation) =>
      if !(tid in s.threads && s.threads[tid].Reading?) then s
      else Leave(AfterRead(s, s.threads[tid], answer, generation), tid, ResultOf(s.threads[tid], answer))
  }

  function Run(s: State, events: seq<Event>): State
    decreases |events|
  {
    if events == [] then s else Run(Next(s, events[0]), events[1..])
  }

  predicate Start(s: State) {
    s == State(Cache(0.0, [], 0), 0.0, None, map[], s.clock, [], [])
  }

  // ------------------------------------------------------------------ the log as the reference

  /** The list as the log tells it: what the radio last listed, whatever reads raised since then. */
  function LastListed(log: seq<Read>): seq<Channel> {
    if log == [] then []
    else
      match log[|log| - 1].answer
      case Listed(items) => OrFallback(Ordered(items))
      case Raised(_) => OrFallback(LastListed(log[..|log| - 1]))
  }

  /** The whole cache as the log tells it: a list brings its own time and connection; an empty one, or a
      failure before there was any list, brings the primary channel and its time alone. */
  function CacheFrom(log: seq<Read>): (c: Cache)
    ensures c.channels == LastListed(log)
  {
    if log == [] then Cache(0.0, [], 0)
    else
      var c, r := CacheFrom(log[..|log| - 1]), log[|log| - 1];
      match r.answer
      case Raised(_) => if c.channels != [] then c else Cache(r.startedAt, [Channel(0, "")], c.generation)
      case Listed(items) =>
        OrderedIsInhabited(items);
        if items != [] then Cache(r.startedAt, Ordered(items), r.endGeneration)
        else Cache(r.startedAt, [Channel(0, "")], c.generation)
  }

  /** Until when the log forbids another read: a failure forbids it for a time, a list lifts the ban, and an
      empty list leaves it as it was. */
  function BackoffFrom(log: seq<Read>): real {
    if log == [] then 0.0
    else
      match log[|log| - 1].answer
      case Raised(PortAbsent) => log[|log| - 1].startedAt + 30.0
      case Raised(PortBusy) => log[|log| - 1].startedAt + 15.0
      case Raised(OtherError) => log[|log| - 1].startedAt + 60.0
      case Listed(items) => if items != [] then 0.0 else BackoffFrom(log[..|log| - 1])
  }

  /** A read at `now` on connection `generation` was due after the read `last`: the back-off that one earned
      is over, and the list it brought has outlived its time, comes from another connection, or the
      caller insisted. */
  predicate Due(last: Read, force: Force, now: real, generation: int) {
    match last.answer
    case Raised(PortAbsent) => now >= last.startedAt + 30.0
    case Raised(PortBusy) => now >= last.startedAt + 15.0
    case Raised(OtherError) => now >= last.startedAt + 60.0
    case Listed(items) =>
      items != [] && generation == last.endGeneration ==>
        || force == Hard
        || now - last.startedAt >= 21600.0
        || (force == Soft && now - last.startedAt >= 600.0)
  }

  // ------------------------------------------------------------------ the invariant

  /** Only the owner of the lock is past it, and a lock that is held has such an owner. */
  ghost predicate SingleFlight(s: State) {
    && (forall tid :: tid in s.threads && !s.threads[tid].TurnedAway? ==> s.lock == Some(tid))
    && (s.lock.Some? ==> s.lock.value in s.threads && !s.threads[s.lock.value].TurnedAway?)
  }

  /** The copy a reader took is still the cached list. */
  ghost predicate CopiesCurrent(s: State) {
    forall tid :: tid in s.threads && s.threads[tid].Reading? ==> s.threads[tid].copy == s.cache.channels
  }

  /** The answer is what the radio had last listed by then, or the primary channel if it had listed nothing. */
  ghost predicate Told(answer: Returned, log: seq<Read>) {
    answer.known <= |log| && answer.channels == OrFallback(LastListed(log[..answer.known]))
  }

  ghost predicate GoodLists(s: State) {
    forall i :: 0 <= i < |s.returned| ==> Told(s.returned[i], s.log)
  }

  /** Cache and back-off are what the log tells. */
  predicate Carries(s: State) {
    s.cache == CacheFrom(s.log) && s.backoffUntil == BackoffFrom(s.log)
  }

  predicate DueNow(log: seq<Read>, force: Force, now: real, generation: int) {
    log != [] ==> Due(log[|log| - 1], force, now, generation)
  }

  ghost predicate ReadsDue(s: State) {
    && (forall i :: 1 <= i < |s.log| ==> Due(s.log[i - 1], s.log[i].force, s.log[i].startedAt, s.log[i].generation))
    && (forall tid :: tid in s.threads && s.threads[tid].Reading? ==>
          var r := s.threads[tid]; DueNow(s.log, r.force, r.startedAt, r.generation))
  }

  ghost predicate Inv(s: State) {
    SingleFlight(s) && CopiesCurrent(s) && GoodLists(s) && Carries(s) && ReadsDue(s)
  }

  lemma LeaveInv(s: State, tid: nat)
    requires Inv(s)
    ensures Inv(Leave(s, tid, OrFallback(s.cache.channels)))
  {
    var t := Leave(s, tid, OrFallback(s.cache.channels));
    assert s.log[..|s.log|] == s.log;
    assert GoodLists(t);
  }

  lemma EnterInv(s: State, tid: nat, force: Force)
    requires Inv(s)
    ensures Inv(Next(s, Enter(tid, force)))
  {
    if tid !in s.threads {
      if s.lock.Some? {
        NewcomerInv(s, s.lock, tid, TurnedAway);
      } else {
        NewcomerInv(s, Some(tid), tid, Entered(force));
      }
    }
  }

  /** A thread that is not reading joins; past the lock only as its new owner. */
  lemma NewcomerInv(s: State, lock: Option<nat>, tid: nat, phase: Phase)
    requires Inv(s) && tid !in s.threads && !phase.Reading?
    requires lock == s.lock || (s.lock.None? && lock == Some(tid) && phase.Entered?)
    requires phase.Entered? ==> lock == Some(tid)
    ensures Inv(s.(lock := lock, threads := s.threads[tid := phase]))
  {
    var t := s.(lock := lock, threads := s.threads[tid := phase]);
    assert forall x :: x in t.threads && t.threads[x].Reading? ==> x in s.threads && s.threads[x] == t.threads[x];
    assert GoodLists(t) && Carries(t);
    assert CopiesCurrent(t);
    assert ReadsDue(t);
  }

  /** A read starts only when it is due. */
  lemma MissIsDue(s: State, force: Force, now: real, generation: int)
    requires Inv(s) && !CacheHit(s.cache, force, now, generation) && now >= s.backoffUntil
    ensures DueNow(s.log, force, now, generation)
  {
    if s.log != [] && s.log[|s.log| - 1].answer.Listed? { OrderedIsInhabited(s.log[|s.log| - 1].answer.items); }
  }

  lemma StartReadInv(s: State, tid: nat, force: Force, now: real, generation: int)
    requires Inv(s) && tid in s.threads && s.threads[tid].Entered? && DueNow(s.log, force, now, generation)
    ensures Inv(s.(threads := s.threads[tid := Reading(force, now, generation, s.cache.channels)]))
  {
  }

  lemma DecideInv(s: State, tid: nat, now: real, generation: int, radioAvailable: bool)
    requires Inv(s)
    ensures Inv(Next(s, Decide(tid, now, generation, radioAvailable)))
  {
    if tid in s.threads && s.threads[tid].Entered? && now >= s.clock {
      var t, force := s.(clock := now), s.threads[tid].force;
      assert Inv(t);
      if CacheHit(s.cache, force, now, generation) {
        LeaveInv(t, tid);
      } else if !radioAvailable || now < s.backoffUntil {
        LeaveInv(t, tid);
      } else {
        MissIsDue(t, force, now, generation);
        StartReadInv(t, tid, force, now, generation);
      }
    }
  }

  lemma LogInv(s: State, t: State, r: Read)
    requires ReadsDue(s) && DueNow(s.log, r.force, r.startedAt, r.generation) && t.log == s.log + [r]
    requires forall tid :: tid in t.threads ==> !t.threads[tid].Reading?
    ensures ReadsDue(t)
  {
    forall i | 1 <= i < |t.log| ensures Due(t.log[i - 1], t.log[i].force, t.log[i].startedAt, t.log[i].generation) {
      assert t.log[i - 1] == s.log[i - 1];
    }
  }

  lemma ListsInv(s: State, r: Phase, answer: Answer, generation: int)
    requires Carries(s) && r.Reading? && r.copy == s.cache.channels
    ensures var t := AfterRead(s, r, answer, generation);
            Carries(t) && ResultOf(r, answer) == OrFallback(LastListed(t.log))
  {
    if answer.Listed? { OrderedIsInhabited(answer.items); }
    var t := AfterRead(s, r, answer, generation);
    assert t.log[..|t.log| - 1] == s.log;
  }

  lemma ToldInv(answer: Returned, log: seq<Read>, r: Read)
    requires Told(answer, log)
    ensures Told(answer, log + [r])
  {
    assert (log + [r])[..answer.known] == log[..answer.known];
  }

  lemma AnswersInv(s: State, t: State, r: Read, result: seq<Channel>)
    requires GoodLists(s) && t.log == s.log + [r] && t.returned == s.returned + [Returned(result, |t.log|)]
    requires result == OrFallback(LastListed(t.log))
    ensures GoodLists(t)
  {
    forall i | 0 <= i < |t.returned| ensures Told(t.returned[i], t.log) {
      if i < |s.returned| { ToldInv(s.returned[i], s.log, r); } else { assert t.log[..|t.log|] == t.log; }
    }
  }

  lemma FinishInv(s: State, tid: nat, answer: Answer, generation: int)
    requires Inv(s)
    ensures Inv(Next(s, Finish(tid, answer, generation)))
  {
    if tid in s.threads && s.threads[tid].Reading? {
      var r, t := s.threads[tid], Next(s, Finish(tid, answer, generation));
      var read := Read(r.force, r.startedAt, r.generation, answer, generation);
      assert forall x :: x in t.threads ==> t.threads[x].TurnedAway?;
      ListsInv(s, r, answer, generation);
      assert GoodLists(t) by { AnswersInv(s, t, read, ResultOf(r, answer)); }
      assert ReadsDue(t) by { LogInv(s, t, read); }
    }
  }

  lemma ServeInv(s: State, tid: nat)
    requires Inv(s)
    ensures Inv(Next(s, Serve(tid)))
  {
    if tid in s.threads && s.threads[tid].TurnedAway? { LeaveInv(s, tid); }
  }

  lemma InvStep(s: State, e: Event)
    requires Inv(s)
    ensures Inv(Next(s, e))
  {
    match e
    case Enter(tid, force) => EnterInv(s, tid, force);
    case Serve(tid) => ServeInv(s, tid);
    case Decide(tid, now, generation, radioAvailable) => DecideInv(s, tid, now, generation, radioAvailable);
    case Finish(tid, answer, generation) => FinishInv(s, tid, answer, generation);
  }

  lemma {:induction false} InvRun(s: State, events: seq<Event>)
    requires Inv(s)
    ensures Inv(Run(s, events))
    decreases |events|
  {
    if events != [] {
      InvStep(s, events[0]);
      InvRun(Next(s, events[0]), events[1..]);
    }
  }

  // ------------------------------------------------------------------ what the cache promises

  /** In every reachable state at most one thread reads the radio. */
  lemma AtMostOneRead(s: State, events: seq<Event>, a: nat, b: nat)
    requires Start(s)
    requires var t := Run(s, events); a in t.threads && b in t.threads && t.threads[a].Reading? && t.threads[b].Reading?
    ensures a == b
  {
    InvRun(s, events);
  }

  /** In every reachable state the lock is free exactly when no thread is past it. */
  lemma LockIsFreeExactlyWhen(s: State, events: seq<Event>)
    requires Start(s)
    ensures var t := Run(s, events);
            t.lock.None? <==> forall tid :: tid in t.threads ==> t.threads[tid].TurnedAway?
  {
    InvRun(s, events);
  }

  /** In every run every answer is what the radio had last listed when it was given; the answer of a read
      counts that read itself. */
  lemma EveryAnswerIsTheLastList(s: State, events: seq<Event>, i: nat)
    requires Start(s) && i < |Run(s, events).returned|
    ensures var t := Run(s, events);
            var listed := LastListed(t.log[..if t.returned[i].known <= |t.log| then t.returned[i].known else 0]);
            && t.returned[i].known <= |t.log|
            && t.returned[i].channels == if listed != [] then listed else [Channel(0, "")]
  {
    InvRun(s, events);
    assert Told(Run(s, events).returned[i], Run(s, events).log);
  }

  /** What the radio last listed: the list of the last read that brought one, the primary channel for an
      empty list or when every read failed, and nothing before the first read. */
  lemma {:induction false} LastListedIs(log: seq<Read>, k: nat)
    requires k < |log| && log[k].answer.Listed? && forall j :: k < j < |log| ==> log[j].answer.Raised?
    ensures log[k].answer.items != [] ==> LastListed(log) == Ordered(log[k].answer.items)
    ensures log[k].answer.items == [] ==> LastListed(log) == [Channel(0, "")]
  {
    OrderedIsInhabited(log[k].answer.items);
    if k < |log| - 1 {
      LastListedIs(log[..|log| - 1], k);
    }
  }

  lemma {:induction false} NothingListedYet(log: seq<Read>)
    requires forall j :: 0 <= j < |log| ==> log[j].answer.Raised?
    ensures LastListed(log) == if log == [] then [] else [Channel(0, "")]
  {
    if log != [] { NothingListedYet(log[..|log| - 1]); }
  }

  lemma {:induction false} LastListedIsInOrder(log: seq<Read>)
    ensures InSlotOrder(LastListed(log))
  {
    if log != [] { LastListedIsInOrder(log[..|log| - 1]); }
  }

  /** Every list a caller ever gets is non-empty and in strictly increasing slot order. */
  lemma EveryAnswerIsUsable(s: State, events: seq<Event>, i: nat)
    requires Start(s) && i < |Run(s, events).returned|
    ensures var cs := Run(s, events).returned[i].channels; cs != [] && InSlotOrder(cs)
  {
    EveryAnswerIsTheLastList(s, events, i);
    LastListedIsInOrder(Run(s, events).log[..Run(s, events).returned[i].known]);
  }

  /** The request of a thread past the lock reads the radio exactly when the radio is there, the back-off the
      log tells is over, and the list the log tells is not good enough for it: there is none, it comes from
      another connection, it is six hours old (ten minutes for a soft refresh), or the caller insists. */
  lemma ReadStartsExactlyWhen(s: State, events: seq<Event>, tid: nat, now: real, generation: int, radioAvailable: bool)
    requires Start(s)
    requires var t := Run(s, events); tid in t.threads && t.threads[tid].Entered? && now >= t.clock
    ensures var t := Run(s, events);
            var force, c := t.threads[tid].force, CacheFrom(t.log);
            var u := Next(t, Decide(tid, now, generation, radioAvailable));
            (tid in u.threads && u.threads[tid].Reading?) <==>
              && radioAvailable && now >= BackoffFrom(t.log)
              && (|| c.channels == [] || c.generation != generation || force == Hard
                  || now - c.timestamp >= 21600.0 || (force == Soft && now - c.timestamp >= 600.0))
  {
    InvRun(s, events);
  }

  /** A step of a waiting request leaves it waiting for the radio, or ends it: one more answer is given,
      counting the reads finished by then, and the lock is let go.  Other requests stay as they are. */
  lemma RequestsEndWithAnAnswer(s: State, e: Event)
    requires e.tid in s.threads && (e.Decide? ==> e.now >= s.clock)
    requires match s.threads[e.tid]
             case TurnedAway => e.Serve?
             case Entered(_) => e.Decide?
             case Reading(_, _, _, _) => e.Finish?
    ensures var t := Next(s, e);
            if e.tid in t.threads then t.threads[e.tid].Reading? && t.returned == s.returned && t.lock == s.lock
            else && |t.returned| == |s.returned| + 1 && t.returned[..|s.returned|] == s.returned
                 && t.returned[|s.returned|].known == |t.log| && t.lock != Some(e.tid)
    ensures !e.Decide? ==> e.tid !in Next(s, e).threads
    ensures forall x :: x != e.tid ==>
              (x in Next(s, e).threads <==> x in s.threads)
              && (x in s.threads ==> Next(s, e).threads[x] == s.threads[x])
  {
    assert (s.returned + [Returned([], 0)])[..|s.returned|] == s.returned;
  }

  /** In every run every read but the first was due: no read starts inside the back-off of the one before
      it, nor, on the same connection and uninsisted, before the list that one brought is six hours old
      (ten minutes for a soft refresh). */
  lemma EveryReadWasDue(s: State, events: seq<Event>, i: nat)
    requires Start(s) && 1 <= i < |Run(s, events).log|
    ensures var log := Run(s, events).log; Due(log[i - 1], log[i].force, log[i].startedAt, log[i].generation)
  {
    InvRun(s, events);
  }

  /** In every run the cached list is what the radio last listed: reads that raise never change a non-empty
      list, and a list that came back empty leaves the primary channel alone. */
  lemma CacheIsTheLastList(s: State, events: seq<Event>)
    requires Start(s)
    ensures Run(s, events).cache.channels == LastListed(Run(s, events).log)
  {
    InvRun(s, events);
  }
}
