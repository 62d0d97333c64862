/** What each step of `SendLifecycle` does to the messages and jobs it is about, stated without the functions
    that compute it: acknowledgements, results, sends, retries, deletions, restarts, and the order of jobs. */
module SendOutcomes {
  import opened Options
  import opened NodeIds
  import opened SendLifecycle

  // ------------------------------------------------------------------ which message is meant

  /** `k` is the newest message with this packet id. */
  ghost predicate NewestWithPacket(ms: seq<Message>, k: nat, packetId: int) {
    k < |ms| && ms[k].packetId == Some(packetId) && forall j :: k < j < |ms| ==> ms[j].packetId != Some(packetId)
  }

  lemma {:induction false} PacketSearchIsExact(ms: seq<Message>, packetId: int)
    ensures FindPacket(ms, packetId).None? ==> forall j :: 0 <= j < |ms| ==> ms[j].packetId != Some(packetId)
    ensures FindPacket(ms, packetId).Some? ==> NewestWithPacket(ms, FindPacket(ms, packetId).value, packetId)
  {
    if ms != [] {
      var front := ms[..|ms| - 1];
      PacketSearchIsExact(front, packetId);
      assert forall j :: 0 <= j < |front| ==> front[j] == ms[j];
    }
  }

  /** Ids are unique, so a message is found by its id and chat wherever it is. */
  lemma SearchFindsIt(ms: seq<Message>, k: nat)
    requires UniqueIds(ms) && k < |ms|
    ensures FindMessage(ms, KeyOf(ms[k])) == Some(k) && FindOldest(ms, KeyOf(ms[k])) == Some(k)
  {
    var a, b := FindMessage(ms, KeyOf(ms[k])), FindOldest(ms, KeyOf(ms[k]));
    assert a.Some? && b.Some?;
    assert ms[a.value].id == ms[k].id && ms[b.value].id == ms[k].id;
  }

  // ------------------------------------------------------------------ acknowledgements

  /** A reply about the newest message with its packet id, still waiting: an error from anybody makes it
      unconfirmed, no error from its destination makes it delivered, and anything else changes nothing. */
  lemma ReplyDecides(s: State, k: nat, requestId: int, isError: bool, from: Option<int>, saved: bool)
    requires NewestWithPacket(s.messages, k, requestId) && s.messages[k].status == Sent && s.messages[k].ackRequested
    ensures var m, ms := s.messages[k], Next(s, RoutingReply(requestId, isError, from, saved)).messages;
            if isError then ms == s.messages[k := m.(status := Unconfirmed, ackDeadline := None)]
            else if from.Some? && DmDestination(m.chatId) == from
            then ms == s.messages[k := m.(status := Delivered, ackDeadline := None)]
            else ms == s.messages
  {
    PacketSearchIsExact(s.messages, requestId);
  }

  /** A reply about no message, or about one that is not waiting, changes nothing. */
  lemma OtherRepliesAreIgnored(s: State, requestId: int, isError: bool, from: Option<int>, saved: bool)
    requires forall k :: 0 <= k < |s.messages| && NewestWithPacket(s.messages, k, requestId) ==>
               s.messages[k].status != Sent || !s.messages[k].ackRequested
    ensures Next(s, RoutingReply(requestId, isError, from, saved)) == s
  {
    PacketSearchIsExact(s.messages, requestId);
  }

  // ------------------------------------------------------------------ results

  /** What a finished send makes of its message.  A direct chat's id begins with an exclamation mark. */
  ghost predicate Settled(m: Message, m': Message, r: Result, observable: bool, now: real) {
    var asks := m.chatId != "" && m.chatId[0] == '!' && observable;
    match r
    case Rejected => m' == m.(status := Failed)
    case Accepted(packetId, ack) =>
      var sent := m.(status := Sent, packetId := if packetId.Some? then packetId else m.packetId);
      && (!asks ==> m' == sent)
      && (asks && ack == NothingSeen ==> m' == sent.(ackRequested := true, ackDeadline := Some(now + 60.0)))
      && (asks && ack == AckSeen ==> m' == sent.(ackRequested := true, status := Delivered, ackDeadline := None))
      && (asks && ack == NakSeen ==> m' == sent.(ackRequested := true, status := Unconfirmed, ackDeadline := None))
  }

  lemma ResultSettles(m: Message, r: Result, observable: bool, now: real)
    ensures Settled(m, AfterResult(m, r, observable, now), r, observable, now)
  {
  }

  /** The next job's result settles its message and touches no other. */
  lemma ResultDecides(s: State, k: nat, r: Result, observable: bool, now: real, saved: bool)
    requires UniqueIds(s.messages) && s.worker.Working? && s.worker.todo != []
    requires k < |s.messages| && KeyOf(s.messages[k]) == s.worker.todo[0]
    ensures var ms := Next(s, HandleResult(r, observable, now, saved)).messages;
            |ms| == |s.messages| && ms == s.messages[k := ms[k]] && Settled(s.messages[k], ms[k], r, observable, now)
  {
    var m := AfterResult(s.messages[k], r, observable, now);
    assert Next(s, HandleResult(r, observable, now, saved)).messages == s.messages[k := m] by {
      SearchFindsIt(s.messages, k);
    }
    ResultSettles(s.messages[k], r, observable, now);
  }

  /** A result whose message is gone changes no message. */
  lemma ResultWithoutMessage(s: State, r: Result, observable: bool, now: real, saved: bool)
    requires s.worker.Working? && s.worker.todo != []
    requires forall k :: 0 <= k < |s.messages| ==> KeyOf(s.messages[k]) != s.worker.todo[0]
    ensures Next(s, HandleResult(r, observable, now, saved)).messages == s.messages
  {
  }

  /** The catch-all fails the message of its next job, answered jobs first. */
  lemma CatchAllDecides(s: State, k: nat, saved: bool)
    requires UniqueIds(s.messages) && s.worker.Failing? && s.worker.stale + s.worker.todo != []
    requires k < |s.messages| && KeyOf(s.messages[k]) == (s.worker.stale + s.worker.todo)[0]
    ensures Next(s, FailNext(saved)).messages == s.messages[k := s.messages[k].(status := Failed)]
  {
    SearchFindsIt(s.messages, k);
  }

  // ------------------------------------------------------------------ sends and retries

  /** The last `n` of them. */
  ghost predicate IsTail(t: seq<Message>, ms: seq<Message>, n: nat) {
    |t| == (if |ms| <= n then |ms| else n) && t == ms[|ms| - |t|..]
  }

  /** A send stores its message as pending, at the end of the history, under a new id, and hands over one job. */
  lemma SendDecides(s: State, chatId: string, text: string, saved: bool)
    requires chatId != s.cfg.localId
    ensures var t := Next(s, Send(chatId, text, saved));
            var m := Message(s.nextId, chatId, true, text, Pending, None, false, None);
            && IsTail(t.messages, s.messages + [m], s.cfg.historyCap) && t.nextId == s.nextId + 1
            && t.handoff == s.handoff + multiset{Job(s.nextId, chatId)}
            && (if saved then t.disk == t.messages else t.disk == s.disk)
  {
  }

  /** A received message is stored at the end of the history as final, with the packet id it came with. */
  lemma ReceiveDecides(s: State, chatId: string, mine: bool, packetId: Option<int>, saved: bool)
    ensures var t := Next(s, Receive(chatId, mine, packetId, saved));
            exists m :: IsTail(t.messages, s.messages + [m], s.cfg.historyCap) && m.id == s.nextId && m.status == Sent
                        && m.packetId == packetId && m.mine == mine && (chatId != s.cfg.localId ==> m.chatId == chatId)
  {
    var m := Message(s.nextId, FiledUnder(s.cfg, chatId), mine, "", Sent, packetId, false, None);
    assert IsTail(Next(s, Receive(chatId, mine, packetId, saved)).messages, s.messages + [m], s.cfg.historyCap);
  }

  /** A failed message of our own that has a text is pending again and handed over under its own id; any
      other retry changes nothing. */
  lemma RetryDecides(s: State, k: nat, saved: bool)
    requires UniqueIds(s.messages) && k < |s.messages|
    ensures var m, t := s.messages[k], Next(s, Retry(KeyOf(s.messages[k]), saved));
            if m.mine && m.status == Failed && m.text != "" then
              t.messages == s.messages[k := m.(status := Pending)] && t.handoff == s.handoff + multiset{KeyOf(m)}
            else t == s
  {
    SearchFindsIt(s.messages, k);
  }

  lemma RetryOfNothing(s: State, job: Job, saved: bool)
    requires forall k :: 0 <= k < |s.messages| ==> KeyOf(s.messages[k]) != job
    ensures Next(s, Retry(job, saved)) == s
  {
  }

  // ------------------------------------------------------------------ jobs in order

  /** The jobs on their way, first come first: the worker's, then the queue. */
  function InLine(s: State): seq<Job> {
    Unhandled(s.worker) + s.queue
  }

  /** The step deals with the first job in line. */
  predicate Serves(s: State, e: Event) {
    || (e.HandleResult? && s.worker.Working? && s.worker.todo != [])
    || (e.FailNext? && s.worker.Failing? && s.worker.stale == [] && s.worker.todo != [])
  }

  /** Jobs join the line at its end, leave it at its front, one per result, and are moved along in between. */
  lemma JobsAreServedInOrder(s: State, e: Event)
    requires !e.Restart?
    ensures var t := Next(s, e);
            if e.Put? && e.job in s.handoff then InLine(t) == InLine(s) + [e.job]
            else if Serves(s, e)
            then InLine(t) == InLine(s)[1..]
            else InLine(t) == InLine(s)
  {
    match e
    case Gather =>
      if s.queue != [] && s.worker.Gathering? {
        assert s.worker.jobs + s.queue == (s.worker.jobs + [s.queue[0]]) + s.queue[1..];
      }
    case HandleResult(_, _, _, _) =>
      if s.worker.Working? && s.worker.todo != [] { FrontLeaves(s.worker.todo, s.queue); }
    case FailNext(_) =>
      if s.worker.Failing? && s.worker.stale == [] && s.worker.todo != [] { FrontLeaves(s.worker.todo, s.queue); }
    case _ =>
  }

  lemma FrontLeaves(todo: seq<Job>, queue: seq<Job>)
    requires todo != []
    ensures todo[1..] + queue == (todo + queue)[1..]
  {
  }

  // ------------------------------------------------------------------ deletions and restarts

  /** Deleting one message, written to both files, removes it and nothing else, in memory and on disk; if a
      write fails memory is as before. */
  lemma DeleteDecides(s: State, k: nat, writes: DeletionWrites)
    requires UniqueIds(s.messages) && k < |s.messages|
    ensures var t := Next(s, DeleteMessage(KeyOf(s.messages[k]), writes));
            if writes.messages && writes.chats
            then t.messages == s.messages[..k] + s.messages[k + 1..] && IsTail(t.disk, t.messages, s.cfg.historyCap)
            else t.messages == s.messages
  {
    SearchFindsIt(s.messages, k);
  }

  /** Deleting chats, written to both files, removes exactly their messages; if a write fails memory is as
      before. */
  lemma DeleteChatsDecides(s: State, chatIds: set<string>, writes: DeletionWrites, m: Message)
    ensures var t := Next(s, DeleteChats(chatIds, writes));
            if writes.messages && writes.chats
            then multiset(t.messages)[m] == (if m.chatId in chatIds then 0 else multiset(s.messages)[m])
            else t.messages == s.messages
  {
    KeptCount(s.messages, chatIds, m);
  }

  lemma {:induction false} KeptCount(ms: seq<Message>, chatIds: set<string>, m: Message)
    ensures multiset(KeepOtherChats(ms, chatIds))[m] == if m.chatId in chatIds then 0 else multiset(ms)[m]
  {
    if ms != [] {
      KeptCount(ms[1..], chatIds, m);
      assert ms == [ms[0]] + ms[1..];
    }
  }

  /** A new process has the tail of the file, what was pending in it failed and nothing else changed, and no
      jobs. */
  lemma RestartDecides(s: State, saved: bool)
    ensures var t := Next(s, Restart(saved));
            && |t.messages| == (if |s.disk| <= s.cfg.historyCap then |s.disk| else s.cfg.historyCap)
            && (forall i :: 0 <= i < |t.messages| ==>
                  var m := s.disk[|s.disk| - |t.messages| + i];
                  t.messages[i] == if m.status == Pending then m.(status := Failed) else m)
            && InLine(t) == [] && t.handoff == multiset{}
  {
  }
}
