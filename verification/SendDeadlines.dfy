/** Messages waiting for their acknowledgement (api/api_chat.py, server.py), over every run of
    `SendLifecycle`: exactly when each of them has a deadline, and what the sweep does. */
module SendDeadlines {
  import opened Options
  import opened SendLifecycle

  // ------------------------------------------------------------------ exactly when a deadline is lost

  /** Every message still waiting for its acknowledgement has a deadline. */
  predicate Timed(ms: seq<Message>) {
    forall i :: 0 <= i < |ms| && IsWaiting(ms[i]) ==> ms[i].ackDeadline.Some?
  }

  ghost predicate AllTimed(s: State) {
    Timed(s.messages) && Timed(s.disk)
  }

  /** An accepted send reports to a message that once asked for its acknowledgement and has no deadline any
      more, and asks for no new one: a channel message, or a transport that cannot see acknowledgements. */
  predicate LosesDeadline(s: State, e: Event) {
    && e.HandleResult? && e.result.Accepted? && s.worker.Working? && s.worker.todo != []
    && var k := FindMessage(s.messages, s.worker.todo[0]);
       k.Some? && s.messages[k.value].ackRequested && s.messages[k.value].ackDeadline.None?
       && !(IsDm(s.messages[k.value].chatId) && e.observable)
  }

  lemma TimedLast(ms: seq<Message>, n: nat)
    requires Timed(ms)
    ensures Timed(TakeLast(ms, n))
  {
  }

  /** What a step stores or changes, deletions and losses aside, has a deadline if it waits. */
  lemma TimedMessages(s: State, e: Event)
    requires AllTimed(s) && !LosesDeadline(s, e) && !e.DeleteMessage? && !e.DeleteChats?
    ensures Timed(Next(s, e).messages)
  {
    match e
    case Send(chatId, text, _) =>
      TimedAdded(s, Message(s.nextId, FiledUnder(s.cfg, chatId), true, text, Pending, None, false, None));
    case Receive(chatId, mine, packetId, _) =>
      TimedAdded(s, Message(s.nextId, FiledUnder(s.cfg, chatId), mine, "", Sent, packetId, false, None));
    case HandleResult(result, observable, now, _) => TimedResult(s, e);
    case FailNext(_) => TimedFailure(s, e);
    case Restart(saved) =>
      TimedLast(s.disk, s.cfg.historyCap);
      TimedReconciled(TakeLast(s.disk, s.cfg.historyCap));
    case Sweep(now, _) => assert Timed(SweepAll(s.messages, now));
    case _ =>
  }

  lemma TimedAdded(s: State, m: Message)
    requires Timed(s.messages) && !IsWaiting(m)
    ensures Timed(Add(s, m).messages)
  {
    assert Timed(s.messages + [m]);
    TimedLast(s.messages + [m], s.cfg.historyCap);
  }

  lemma TimedResult(s: State, e: Event)
    requires Timed(s.messages) && e.HandleResult? && !LosesDeadline(s, e)
    ensures Timed(Next(s, e).messages)
  {
  }

  lemma TimedFailure(s: State, e: Event)
    requires Timed(s.messages) && e.FailNext?
    ensures Timed(Next(s, e).messages)
  {
  }

  lemma TimedReconciled(ms: seq<Message>)
    requires Timed(ms)
    ensures Timed(ReconcileAll(ms))
  {
  }

  lemma TimedDeletion(s: State, e: Event)
    requires AllTimed(s) && (e.DeleteMessage? || e.DeleteChats?)
    ensures AllTimed(Next(s, e))
  {
    var t := Next(s, e);
    DeletionBringsNothing(s, e);
    forall i | 0 <= i < |t.messages| && IsWaiting(t.messages[i]) ensures t.messages[i].ackDeadline.Some? {
      assert t.messages[i] in t.messages;
    }
    forall i | 0 <= i < |t.disk| && IsWaiting(t.disk[i]) ensures t.disk[i].ackDeadline.Some? {
      assert t.disk[i] in t.disk;
    }
  }

  lemma TimedStep(s: State, e: Event)
    requires AllTimed(s) && !LosesDeadline(s, e)
    ensures AllTimed(Next(s, e))
  {
    if e.DeleteMessage? || e.DeleteChats? {
      TimedDeletion(s, e);
    } else {
      TimedMessages(s, e);
      TimedLast(Next(s, e).messages, s.cfg.historyCap);
      SavedDisk(s, e);
    }
  }

  /** For every step from every state: all waiting messages keep a deadline, in memory and on disk, if and
      only if the step is no accepted send that loses one. */
  lemma StepKeepsDeadlinesExactlyWhen(s: State, e: Event)
    requires AllTimed(s)
    ensures AllTimed(Next(s, e)) <==> !LosesDeadline(s, e)
  {
    if LosesDeadline(s, e) {
      var k := FindMessage(s.messages, s.worker.todo[0]).value;
      var m := Next(s, e).messages[k];
      assert IsWaiting(m) && m.ackDeadline.None?;
    } else {
      TimedStep(s, e);
    }
  }

  predicate NeverLoses(s: State, events: seq<Event>)
    decreases |events|
  {
    events == [] || (!LosesDeadline(s, events[0]) && NeverLoses(Next(s, events[0]), events[1..]))
  }

  /** Over whole runs: every waiting message has a deadline at every moment if and only if no step loses one. */
  lemma {:induction false} DeadlinesKeptExactlyWhen(s: State, events: seq<Event>)
    requires AllTimed(s)
    ensures NeverLoses(s, events) <==> forall n :: 0 <= n <= |events| ==> AllTimed(Run(s, events[..n]))
    decreases |events|
  {
    if events != [] {
      var s', rest := Next(s, events[0]), events[1..];
      StepKeepsDeadlinesExactlyWhen(s, events[0]);
      forall n | 0 <= n < |events| ensures Run(s, events[..n + 1]) == Run(s', rest[..n]) {
        assert events[..n + 1][1..] == rest[..n];
      }
      if LosesDeadline(s, events[0]) {
        assert Run(s', rest[..0]) == s';
        assert !AllTimed(Run(s, events[..1]));
      } else {
        DeadlinesKeptExactlyWhen(s', rest);
        if NeverLoses(s, events) {
          forall n | 0 <= n <= |events| ensures AllTimed(Run(s, events[..n])) {
            if n > 0 { assert Run(s, events[..n]) == Run(s', rest[..n - 1]); }
          }
        } else {
          var n :| 0 <= n <= |rest| && !AllTimed(Run(s', rest[..n]));
          assert !AllTimed(Run(s, events[..n + 1]));
        }
      }
    }
  }

  // ------------------------------------------------------------------ runs that lose none

  /** Acknowledgement fields: asked for only once sent, and a waiting message has a deadline. */
  predicate AckFieldsOk(m: Message) {
    && (m.ackRequested ==> m.status == Sent || m.status == Delivered || m.status == Unconfirmed)
    && (IsWaiting(m) ==> m.ackDeadline.Some?)
  }

  predicate AllAckFieldsOk(ms: seq<Message>) {
    forall i :: 0 <= i < |ms| ==> AckFieldsOk(ms[i])
  }

  ghost predicate AckInv(s: State) {
    AllAckFieldsOk(s.messages) && AllAckFieldsOk(s.disk)
  }

  /** The catch-all fails an answered message that had already asked for its acknowledgement. */
  predicate Unsettles(s: State, e: Event) {
    FailsStale(s, e) &&
    var k := FindMessage(s.messages, s.worker.stale[0]); k.Some? && s.messages[k.value].ackRequested
  }

  lemma AckOfAdded(s: State, m: Message)
    requires AllAckFieldsOk(s.messages) && AckFieldsOk(m)
    ensures AllAckFieldsOk(Add(s, m).messages)
  {
    assert AllAckFieldsOk(s.messages + [m]);
  }

  lemma AckOfRestart(s: State, saved: bool)
    requires AllAckFieldsOk(s.disk)
    ensures AllAckFieldsOk(Next(s, Restart(saved)).messages)
  {
    var ms := TakeLast(s.disk, s.cfg.historyCap);
    assert AllAckFieldsOk(ms);
    forall i | 0 <= i < |ms| ensures AckFieldsOk(Reconcile(ms[i])) {}
  }

  /** The job handled next belongs to a pending message, which has asked for no acknowledgement yet. */
  lemma AckOfResult(s: State, own: set<nat>, result: Result, observable: bool, now: real)
    requires Inv(s, own) && AllAckFieldsOk(s.messages) && !s.worker.Gathering? && s.worker.todo != []
    ensures AllAckFieldsOk(UpdateMessage(s.messages, s.worker.todo[0], result, observable, now))
  {
    var k := FindMessage(s.messages, s.worker.todo[0]);
    if k.Some? {
      FirstJob(s);
      assert s.messages[k.value].status == Pending;
      assert AckFieldsOk(AfterResult(s.messages[k.value], result, observable, now));
    }
  }

  lemma AckOfReply(s: State, requestId: int, isError: bool, from: Option<int>)
    requires AllAckFieldsOk(s.messages)
    ensures ResolveAck(s.messages, requestId, isError, from).Some? ==>
              AllAckFieldsOk(ResolveAck(s.messages, requestId, isError, from).value)
  {
  }

  lemma AckOfMessages(s: State, own: set<nat>, e: Event)
    requires Inv(s, own) && AckInv(s) && !Unsettles(s, e) && !e.DeleteMessage? && !e.DeleteChats?
    ensures AllAckFieldsOk(Next(s, e).messages)
  {
    match e
    case Send(chatId, text, _) =>
      AckOfAdded(s, Message(s.nextId, FiledUnder(s.cfg, chatId), true, text, Pending, None, false, None));
    case Receive(chatId, mine, packetId, _) =>
      AckOfAdded(s, Message(s.nextId, FiledUnder(s.cfg, chatId), mine, "", Sent, packetId, false, None));
    case HandleResult(result, observable, now, _) =>
      if s.worker.Working? && s.worker.todo != [] { AckOfResult(s, own, result, observable, now); }
    case FailNext(_) => AckOfFailure(s, own, e);
    case RoutingReply(requestId, isError, from, _) => AckOfReply(s, requestId, isError, from);
    case Restart(saved) => AckOfRestart(s, saved);
    case Sweep(now, _) => assert AllAckFieldsOk(SweepAll(s.messages, now));
    case _ =>
  }

  lemma AckOfFailure(s: State, own: set<nat>, e: Event)
    requires Inv(s, own) && AllAckFieldsOk(s.messages) && e.FailNext? && !Unsettles(s, e)
    ensures AllAckFieldsOk(Next(s, e).messages)
  {
    if !FailsStale(s, e) && s.worker.Failing? && s.worker.todo != [] { AckOfResult(s, own, Rejected, false, 0.0); }
  }

  lemma AckOfDeletion(s: State, e: Event)
    requires AckInv(s) && (e.DeleteMessage? || e.DeleteChats?)
    ensures AckInv(Next(s, e))
  {
    var t := Next(s, e);
    DeletionBringsNothing(s, e);
    forall i | 0 <= i < |t.messages| ensures AckFieldsOk(t.messages[i]) { assert t.messages[i] in t.messages; }
    forall i | 0 <= i < |t.disk| ensures AckFieldsOk(t.disk[i]) { assert t.disk[i] in t.disk; }
  }

  lemma AckOfLast(ms: seq<Message>, n: nat)
    requires AllAckFieldsOk(ms)
    ensures AllAckFieldsOk(TakeLast(ms, n))
  {
  }

  lemma AckStep(s: State, own: set<nat>, e: Event)
    requires Inv(s, own) && AckInv(s) && !Unsettles(s, e)
    ensures AckInv(Next(s, e))
  {
    if e.DeleteMessage? || e.DeleteChats? {
      AckOfDeletion(s, e);
    } else {
      AckOfMessages(s, own, e);
      AckOfLast(Next(s, e).messages, s.cfg.historyCap);
      SavedDisk(s, e);
    }
  }

  predicate NeverUnsettles(s: State, events: seq<Event>)
    decreases |events|
  {
    events == [] || (!Unsettles(s, events[0]) && NeverUnsettles(Next(s, events[0]), events[1..]))
  }

  /** A run from a first start, messages to the own node included, in which the catch-all fails no message
      that was queued again or had asked for its acknowledgement, loses no deadline. */
  lemma SettledRunsLoseNoDeadline(s: State, events: seq<Event>)
    requires Start(s) && NeverFailsRequeued(s, events) && NeverUnsettles(s, events)
    ensures NeverLoses(s, events) && AllTimed(Run(s, events))
  {
    StartInv(s);
    AckRun(s, {}, events);
  }

  lemma {:induction false} AckRun(s: State, own: set<nat>, events: seq<Event>)
    requires Inv(s, own) && AckInv(s) && NeverFailsRequeued(s, events) && NeverUnsettles(s, events)
    ensures NeverLoses(s, events) && AllTimed(Run(s, events))
    decreases |events|
  {
    if events != [] {
      StepInv(s, own, events[0]);
      AckStep(s, own, events[0]);
      assert !LosesDeadline(s, events[0]) by { StepKeepsDeadlinesExactlyWhen(s, events[0]); }
      AckRun(Next(s, events[0]), OwnAfter(s, own, events[0]), events[1..]);
    }
  }

  // ------------------------------------------------------------------ the sweep

  /** After a sweep at `now` no waiting message has a deadline at or before `now`, every message that had
      one is unconfirmed, and no other message changed. */
  lemma SweepIsExact(s: State, now: real, saved: bool, i: nat)
    requires Timed(s.messages) && i < |s.messages|
    ensures var m, m' := s.messages[i], Next(s, Sweep(now, saved)).messages[i];
            var due := m.status == Sent && m.ackRequested && m.ackDeadline.Some? && now >= m.ackDeadline.value;
            && m' == (if due then m.(status := Unconfirmed, ackDeadline := None) else m)
            && (m'.status == Sent && m'.ackRequested ==> m'.ackDeadline.Some? && m'.ackDeadline.value > now)
  {
  }
}
