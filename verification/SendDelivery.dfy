/** When a message counts as delivered (api/api_chat.py, server.py), over every run of `SendLifecycle`. */
module SendDelivery {
  import opened Options
  import opened NodeIds
  import opened SendLifecycle

  /** What turns a message into a delivered one: its own send saw the acknowledgement, or an error-free
      routing reply for its packet id came from the node its chat id names. */
  predicate Proves(s: State, e: Event, m: Message) {
    || (e.HandleResult? && s.worker.Working? && s.worker.todo != [] && s.worker.todo[0] == KeyOf(m)
        && e.result.Accepted? && e.result.ack == AckSeen && e.observable && IsDm(m.chatId))
    || (e.RoutingReply? && !e.isError && Some(e.requestId) == m.packetId && IsWaiting(m)
        && e.from.Some? && e.from == DmDestination(m.chatId))
  }

  function ProvenBy(s: State, e: Event): set<nat> {
    set m | m in s.messages && Proves(s, e, m) :: m.id
  }

  /** The ids of the messages whose delivery was proved by some step of the run. */
  function ProvenIn(s: State, events: seq<Event>): set<nat>
    decreases |events|
  {
    if events == [] then {} else ProvenBy(s, events[0]) + ProvenIn(Next(s, events[0]), events[1..])
  }

  function DeliveredIds(ms: seq<Message>): set<nat> {
    set m | m in ms && m.status == Delivered :: m.id
  }

  lemma ResultDelivers(s: State, result: Result, observable: bool, now: real, saved: bool, x: Message)
    requires var e := HandleResult(result, observable, now, saved); x in Next(s, e).messages && x.status == Delivered
    ensures x in s.messages || x.id in ProvenBy(s, HandleResult(result, observable, now, saved))
  {
    var e := HandleResult(result, observable, now, saved);
    var i :| 0 <= i < |Next(s, e).messages| && Next(s, e).messages[i] == x;
    if x !in s.messages {
      var m := s.messages[i];
      assert x == AfterResult(m, result, observable, now) && Proves(s, e, m);
    }
  }

  /** A reply makes at most one message delivered, and only on proof. */
  lemma ResolvedOnProof(s: State, e: Event, k: nat)
    requires e.RoutingReply? && ResolveAck(s.messages, e.requestId, e.isError, e.from).Some?
    requires FindPacket(s.messages, e.requestId) == Some(k)
    ensures var ms := ResolveAck(s.messages, e.requestId, e.isError, e.from).value;
            ms == s.messages[k := ms[k]] && ms[k].id == s.messages[k].id
            && (ms[k].status == Delivered ==> Proves(s, e, s.messages[k]))
  {
  }

  lemma ReplyDelivers(s: State, requestId: int, isError: bool, from: Option<int>, saved: bool, x: Message)
    requires var e := RoutingReply(requestId, isError, from, saved); x in Next(s, e).messages && x.status == Delivered
    ensures x in s.messages || x.id in ProvenBy(s, RoutingReply(requestId, isError, from, saved))
  {
    var e := RoutingReply(requestId, isError, from, saved);
    var resolved := ResolveAck(s.messages, requestId, isError, from);
    if resolved.Some? && x !in s.messages {
      var k := FindPacket(s.messages, requestId).value;
      ResolvedOnProof(s, e, k);
      var i :| 0 <= i < |resolved.value| && resolved.value[i] == x;
      assert i == k && s.messages[k] in s.messages;
    }
  }

  lemma FailureDeliversNothing(s: State, saved: bool, x: Message)
    requires x in Next(s, FailNext(saved)).messages && x.status == Delivered
    ensures x in s.messages
  {
    var t := Next(s, FailNext(saved));
    var i :| 0 <= i < |t.messages| && t.messages[i] == x;
    assert x == s.messages[i];
  }

  lemma RestartDeliversNothing(s: State, saved: bool, x: Message)
    requires x in Next(s, Restart(saved)).messages && x.status == Delivered
    ensures x in s.disk
  {
    var ms := TakeLast(s.disk, s.cfg.historyCap);
    var i :| 0 <= i < |ms| && Reconcile(ms[i]) == x;
  }

  lemma RetryDeliversNothing(s: State, job: Job, saved: bool, x: Message)
    requires x in Next(s, Retry(job, saved)).messages && x.status == Delivered
    ensures x in s.messages
  {
    var t := Next(s, Retry(job, saved));
    var i :| 0 <= i < |t.messages| && t.messages[i] == x;
    assert x == s.messages[i];
  }

  /** All other steps make no delivered message that was not there before. */
  lemma OtherStepsDeliverNothing(s: State, e: Event, x: Message)
    requires !e.HandleResult? && !e.RoutingReply?
    requires x in Next(s, e).messages && x.status == Delivered
    ensures x in s.messages || x in s.disk
  {
    match e
    case DeleteChats(_, _) => DeletionBringsNothing(s, e);
    case DeleteMessage(_, _) => DeletionBringsNothing(s, e);
    case FailNext(saved) => FailureDeliversNothing(s, saved, x);
    case Send(_, _, _) => assert x in s.messages;
    case Receive(_, _, _, _) => assert x in s.messages;
    case Sweep(now, _) => var i :| 0 <= i < |s.messages| && SweepMessage(s.messages[i], now) == x;
    case Restart(saved) => RestartDeliversNothing(s, saved, x);
    case Retry(job, saved) => RetryDeliversNothing(s, job, saved, x);
    case _ =>
  }

  lemma DiskComesFromMemory(s: State, e: Event, x: Message)
    requires x in Next(s, e).disk
    ensures x in s.disk || x in s.messages || x in Next(s, e).messages
  {
    if e.DeleteMessage? || e.DeleteChats? { DeletionBringsNothing(s, e); } else { SavedDisk(s, e); }
  }

  lemma DeliveredStep(s: State, e: Event)
    ensures DeliveredIds(Next(s, e).messages) + DeliveredIds(Next(s, e).disk)
         <= DeliveredIds(s.messages) + DeliveredIds(s.disk) + ProvenBy(s, e)
  {
    var t := Next(s, e);
    forall x | (x in t.messages || x in t.disk) && x.status == Delivered
      ensures x in s.messages || x in s.disk || x.id in ProvenBy(s, e)
    {
      if x !in t.messages { DiskComesFromMemory(s, e, x); }
      if x in t.messages {
        match e
        case HandleResult(result, observable, now, saved) => ResultDelivers(s, result, observable, now, saved, x);
        case RoutingReply(requestId, isError, from, saved) => ReplyDelivers(s, requestId, isError, from, saved, x);
        case _ => OtherStepsDeliverNothing(s, e, x);
      }
    }
  }

  /** In every run, with no exception for self-sends or the worker's catch-all: a delivered message, in
      memory or on disk, had its delivery proved by an earlier step of that run. */
  lemma {:induction false} DeliveredOnlyOnProof(s: State, events: seq<Event>)
    ensures DeliveredIds(Run(s, events).messages) + DeliveredIds(Run(s, events).disk)
         <= DeliveredIds(s.messages) + DeliveredIds(s.disk) + ProvenIn(s, events)
    decreases |events|
  {
    if events != [] {
      DeliveredStep(s, events[0]);
      DeliveredOnlyOnProof(Next(s, events[0]), events[1..]);
    }
  }

  /** An error-free reply from anyone but the destination (a relay) changes nothing at all. */
  lemma RelayAckChangesNothing(s: State, requestId: int, from: Option<int>, saved: bool)
    requires var k := FindPacket(s.messages, requestId);
             k.Some? ==> from.None? || DmDestination(s.messages[k.value].chatId) == None
                         || from.value != DmDestination(s.messages[k.value].chatId).value
    ensures Next(s, RoutingReply(requestId, false, from, saved)) == s
  {
  }
}
