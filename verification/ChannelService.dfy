/** The mutable cache behind `ChannelCache`: the shared dicts and the lock as fields, one critical section
    per method, each proved to take the matching step. */
module ChannelService {
  import opened Options
  import opened SortedKeys
  import opened ChannelCache

  class Service {
    var cache: Cache
    var backoffUntil: real
    var lock: Option<nat>
    var threads: map<nat, Phase>
    ghost var clock: real
    ghost var log: seq<Read>
    ghost var returned: seq<Returned>

    ghost function View(): State
      reads this
    {
      State(cache, backoffUntil, lock, threads, clock, log, returned)
    }

    constructor ()
      ensures Start(View())
    {
      cache, backoffUntil, lock, threads := Cache(0.0, [], 0), 0.0, None, map[];
      clock, log, returned := 0.0, [], [];
    }

    method Release(tid: nat, result: seq<Channel>)
      modifies this`lock, this`threads, this`returned
      ensures View() == Leave(old(View()), tid, result)
    {
      if lock == Some(tid) { lock := None; }
      threads := threads - {tid};
      returned := returned + [Returned(result, |log|)];
    }

    /** A request arrives; the lock is tried without waiting. */
    method Enter(tid: nat, force: Force) returns (entered: bool)
      requires tid !in threads
      modifies this`lock, this`threads
      ensures View() == Next(old(View()), ChannelCache.Enter(tid, force))
      ensures entered == old(lock).None?
      ensures tid in threads && threads[tid] == if entered then Entered(force) else TurnedAway
    {
      entered := lock.None?;
      if entered {
        lock := Some(tid);
        threads := threads[tid := Entered(force)];
      } else {
        threads := threads[tid := TurnedAway];
      }
    }

    method ServeCached(tid: nat) returns (result: seq<Channel>)
      requires tid in threads && threads[tid].TurnedAway?
      modifies this`lock, this`threads, this`returned
      ensures View() == Next(old(View()), Serve(tid))
      ensures returned == old(returned) + [Returned(result, |log|)]
      ensures result == if old(cache).channels != [] then old(cache).channels else FALLBACK
    {
      result := OrFallback(cache.channels);
      Release(tid, result);
    }

    /** Answers from the cache, or leaves the thread waiting for the radio (None). */
    method Decide(tid: nat, now: real, generation: int, radioAvailable: bool) returns (result: Option<seq<Channel>>)
      requires tid in threads && threads[tid].Entered? && now >= clock
      modifies this
      ensures View() == Next(old(View()), ChannelCache.Decide(tid, now, generation, radioAvailable))
      ensures returned == if result.Some? then old(returned) + [Returned(result.value, |log|)] else old(returned)
      ensures result.Some? ==>
                result.value == if old(cache).channels != [] then old(cache).channels else [Channel(0, "")]
      ensures result.None? <==> tid in threads && threads[tid].Reading?
    {
      var force, cached, age := threads[tid].force, cache.channels, now - cache.timestamp;
      clock := now;
      if cached != [] && cache.generation == generation && force != Hard
         && age < TTL && !(force == Soft && age >= SOFT_REFRESH_MIN_AGE) {
        Release(tid, cached);
        return Some(cached);
      }
      if !radioAvailable || now < backoffUntil {
        result := Some(OrFallback(cached));
        Release(tid, result.value);
        return;
      }
      threads := threads[tid := Reading(force, now, generation, cached)];
      return None;
    }

    /** One item per slot, in slot order. */
    method Arrange(items: seq<Info>) returns (channels: seq<Channel>)
      ensures channels == Ordered(items)
    {
      var bySlot: map<int, Channel> := map[];
      for i := 0 to |items|
        invariant bySlot == BySlot(items[..i])
      {
        assert items[..i + 1][..i] == items[..i];
        bySlot := bySlot[items[i].index := ToChannel(items[i])];
      }
      assert items[..|items|] == items;
      var keys := Ascending(bySlot.Keys);
      assert forall k :: 0 <= k < |keys| ==> keys[k] in bySlot;
      channels := seq(|keys|, k requires 0 <= k < |keys| => bySlot[keys[k]]);
    }

    /** The radio's answer to the read `r`. */
    method TakeAnswer(r: Phase, answer: Answer, generation: int) returns (result: seq<Channel>)
      requires r.Reading?
      modifies this`cache, this`backoffUntil, this`log
      ensures View() == AfterRead(old(View()), r, answer, generation)
      ensures result == ResultOf(r, answer)
    {
      log := log + [Read(r.force, r.startedAt, r.generation, answer, generation)];
      if answer.Raised? {
        backoffUntil := r.startedAt + BackOff(answer.error);
        if r.copy != [] {
          return r.copy;
        }
      } else if answer.items != [] {
        backoffUntil := 0.0;
        result := Arrange(answer.items);
        cache := Cache(r.startedAt, result, generation);
        return;
      }
      result := FALLBACK;
      cache := cache.(timestamp := r.startedAt, channels := FALLBACK);
    }

    method FinishRead(tid: nat, answer: Answer, generation: int) returns (result: seq<Channel>)
      requires tid in threads && threads[tid].Reading?
      modifies this
      ensures View() == Next(old(View()), Finish(tid, answer, generation))
      ensures returned == old(returned) + [Returned(result, |log|)]
    {
      result := TakeAnswer(threads[tid], answer, generation);
      Release(tid, result);
    }
  }
}
