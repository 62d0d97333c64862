/** The runs of `SendLifecycle` that go wrong: a message to the own node that no job will ever answer, and
    the send worker's catch-all on messages that already had their answer. */
module SendFailures {
  import opened Options
  import opened SendLifecycle
  import opened SendDeadlines

  // ------------------------------------------------------------------ who holds a job

  function WorkerJobs(w: Worker): seq<Job> {
    match w
    case Gathering(jobs) => jobs
    case Working(todo, done) => todo + done
    case Failing(stale, todo) => stale + todo
  }

  /** A request, the queue or the worker still holds the job, be it answered or not. */
  predicate Holds(s: State, job: Job) {
    job in s.handoff || job in s.queue || job in WorkerJobs(s.worker)
  }

  lemma WorkerHolds(s: State, e: Event, job: Job)
    requires e.Gather? || e.StartBatch? || e.HandleResult? || e.EndBatch? || e.BatchRaises? || e.FailNext?
    requires Holds(Next(s, e), job)
    ensures Holds(s, job)
  {
    match e
    case HandleResult(_, _, _, _) => ResultHolds(s, e, job);
    case FailNext(_) => FailureHolds(s, e, job);
    case _ =>
  }

  lemma ResultHolds(s: State, e: Event, job: Job)
    requires e.HandleResult? && Holds(Next(s, e), job)
    ensures Holds(s, job)
  {
    if s.worker.Working? && s.worker.todo != [] {
      assert Next(s, e).worker == Working(s.worker.todo[1..], s.worker.done + [s.worker.todo[0]]);
    }
  }

  lemma FailureHolds(s: State, e: Event, job: Job)
    requires e.FailNext? && Holds(Next(s, e), job)
    ensures Holds(s, job)
  {
  }

  /** New jobs come from a send, or from a retry that found its message failed. */
  lemma StepHolds(s: State, e: Event, job: Job)
    requires Holds(Next(s, e), job)
    ensures Holds(s, job) || (e.Send? && job == Job(s.nextId, e.chatId))
            || (e.Retry? && job == e.job && FindMessage(s.messages, job).Some?
                && s.messages[FindMessage(s.messages, job).value].status == Failed)
  {
    match e
    case Send(_, _, _) =>
    case Receive(_, _, _, _) =>
    case Retry(_, _) =>
    case Put(_) =>
    case RoutingReply(_, _, _, _) =>
    case Sweep(_, _) =>
    case DeleteMessage(_, _) =>
    case DeleteChats(_, _) =>
    case Restart(_) =>
    case _ => WorkerHolds(s, e, job);
  }

  // ------------------------------------------------------------------ ids still to be given out

  /** Nothing names an id that is still to be given out. */
  ghost predicate Known(s: State) {
    && IdsBelow(s.messages, s.nextId) && IdsBelow(s.disk, s.nextId)
    && forall job :: Holds(s, job) ==> job.messageId < s.nextId
  }

  lemma BelowDeletion(s: State, e: Event)
    requires IdsBelow(s.messages, s.nextId) && IdsBelow(s.disk, s.nextId) && (e.DeleteMessage? || e.DeleteChats?)
    ensures var t := Next(s, e); IdsBelow(t.messages, t.nextId) && IdsBelow(t.disk, t.nextId)
  {
    var t := Next(s, e);
    DeletionBringsNothing(s, e);
    forall i | 0 <= i < |t.messages| ensures t.messages[i].id < s.nextId { assert t.messages[i] in t.messages; }
    forall i | 0 <= i < |t.disk| ensures t.disk[i].id < s.nextId { assert t.disk[i] in t.disk; }
  }

  lemma BelowAdded(s: State, m: Message)
    requires IdsBelow(s.messages, s.nextId) && m.id == s.nextId
    ensures IdsBelow(Add(s, m).messages, s.nextId + 1)
  {
    assert IdsBelow(s.messages + [m], s.nextId + 1);
  }

  lemma BelowUpdated(ms: seq<Message>, n: nat, job: Job, r: Result, observable: bool, now: real)
    requires IdsBelow(ms, n)
    ensures IdsBelow(UpdateMessage(ms, job, r, observable, now), n)
  {
  }

  lemma BelowResult(s: State, e: Event)
    requires IdsBelow(s.messages, s.nextId) && (e.HandleResult? || e.FailNext?)
    ensures IdsBelow(Next(s, e).messages, s.nextId) && Next(s, e).nextId == s.nextId
  {
    match e
    case HandleResult(r, observable, now, _) =>
      if s.worker.Working? && s.worker.todo != [] {
        BelowUpdated(s.messages, s.nextId, s.worker.todo[0], r, observable, now);
      }
    case FailNext(_) =>
      if s.worker.Failing? && s.worker.stale != [] {
        BelowUpdated(s.messages, s.nextId, s.worker.stale[0], Rejected, false, 0.0);
      } else if s.worker.Failing? && s.worker.todo != [] {
        BelowUpdated(s.messages, s.nextId, s.worker.todo[0], Rejected, false, 0.0);
      }
  }

  lemma BelowTouched(s: State, e: Event)
    requires IdsBelow(s.messages, s.nextId) && (e.Retry? || e.RoutingReply? || e.Sweep?)
    ensures IdsBelow(Next(s, e).messages, s.nextId) && Next(s, e).nextId == s.nextId
  {
  }

  lemma BelowMessages(s: State, e: Event)
    requires IdsBelow(s.messages, s.nextId) && IdsBelow(s.disk, s.nextId) && !e.DeleteMessage? && !e.DeleteChats?
    ensures IdsBelow(Next(s, e).messages, Next(s, e).nextId)
  {
    match e
    case Send(chatId, text, _) =>
      BelowAdded(s, Message(s.nextId, FiledUnder(s.cfg, chatId), true, text, Pending, None, false, None));
    case Receive(chatId, mine, packetId, _) =>
      BelowAdded(s, Message(s.nextId, FiledUnder(s.cfg, chatId), mine, "", Sent, packetId, false, None));
    case HandleResult(_, _, _, _) => BelowResult(s, e);
    case FailNext(_) => BelowResult(s, e);
    case Retry(_, _) => BelowTouched(s, e);
    case RoutingReply(_, _, _, _) => BelowTouched(s, e);
    case Sweep(_, _) => BelowTouched(s, e);
    case Restart(_) => assert IdsBelow(TakeLast(s.disk, s.cfg.historyCap), s.nextId);
    case _ =>
  }

  lemma BelowStep(s: State, e: Event)
    requires IdsBelow(s.messages, s.nextId) && IdsBelow(s.disk, s.nextId)
    ensures var t := Next(s, e); IdsBelow(t.messages, t.nextId) && IdsBelow(t.disk, t.nextId)
  {
    if e.DeleteMessage? || e.DeleteChats? {
      BelowDeletion(s, e);
    } else {
      BelowMessages(s, e);
      BelowLast(Next(s, e).messages, Next(s, e).nextId, s.cfg.historyCap);
      SavedDisk(s, e);
      IdsGrow(s, e);
    }
  }

  lemma BelowLast(ms: seq<Message>, n: nat, cap: nat)
    requires IdsBelow(ms, n)
    ensures IdsBelow(TakeLast(ms, cap), n)
  {
  }

  lemma IdsGrow(s: State, e: Event)
    ensures s.nextId <= Next(s, e).nextId
  {
  }

  lemma KnownStep(s: State, e: Event)
    requires Known(s)
    ensures Known(Next(s, e))
  {
    BelowStep(s, e);
    forall job | Holds(Next(s, e), job) ensures job.messageId < Next(s, e).nextId {
      StepHolds(s, e, job);
    }
  }

  lemma {:induction false} KnownRun(s: State, events: seq<Event>)
    requires Known(s)
    ensures Known(Run(s, events))
    decreases |events|
  {
    if events != [] {
      KnownStep(s, events[0]);
      KnownRun(Next(s, events[0]), events[1..]);
    }
  }

  // ------------------------------------------------------------------ a message to the own node

  /** `m` is the only message of its id, as it is. */
  predicate Only(ms: seq<Message>, m: Message) {
    forall i :: 0 <= i < |ms| && ms[i].id == m.id ==> ms[i] == m
  }

  /** A pending message that nobody holds a job for. */
  ghost predicate Stuck(s: State, m: Message) {
    m.status == Pending && m.id < s.nextId && !Holds(s, KeyOf(m)) && Only(s.messages, m)
  }

  /** The message of another job is another message. */
  lemma OnlyUpdated(ms: seq<Message>, m: Message, job: Job, r: Result, observable: bool, now: real)
    requires Only(ms, m) && job != KeyOf(m)
    ensures Only(UpdateMessage(ms, job, r, observable, now), m)
  {
  }

  lemma OnlyKept(s: State, e: Event, m: Message)
    requires Only(s.messages, m) && (e.DeleteMessage? || e.DeleteChats?)
    ensures Only(Next(s, e).messages, m)
  {
    var ms := Next(s, e).messages;
    DeletionBringsNothing(s, e);
    forall i | 0 <= i < |ms| && ms[i].id == m.id ensures ms[i] == m { assert ms[i] in ms; }
  }

  lemma OnlyAdded(s: State, x: Message, m: Message)
    requires Only(s.messages, m) && x.id != m.id
    ensures Only(Add(s, x).messages, m)
  {
    assert Only(s.messages + [x], m);
  }

  /** A retry finds it pending and leaves it; acknowledgements and the sweep look for sent messages. */
  lemma OnlyOthers(s: State, e: Event, m: Message)
    requires Stuck(s, m) && (e.Retry? || e.RoutingReply? || e.Sweep?)
    ensures Only(Next(s, e).messages, m)
  {
  }

  lemma OnlyResult(s: State, e: Event, m: Message)
    requires Stuck(s, m) && (e.HandleResult? || e.FailNext?)
    ensures Only(Next(s, e).messages, m)
  {
    match e
    case HandleResult(r, observable, now, _) =>
      if s.worker.Working? && s.worker.todo != [] { OnlyUpdated(s.messages, m, s.worker.todo[0], r, observable, now); }
    case FailNext(_) =>
      if s.worker.Failing? && s.worker.stale != [] {
        OnlyUpdated(s.messages, m, s.worker.stale[0], Rejected, false, 0.0);
      } else if s.worker.Failing? && s.worker.todo != [] {
        OnlyUpdated(s.messages, m, s.worker.todo[0], Rejected, false, 0.0);
      }
  }

  lemma OnlyStep(s: State, e: Event, m: Message)
    requires Stuck(s, m) && !e.Restart?
    ensures Only(Next(s, e).messages, m)
  {
    match e
    case Send(chatId, text, _) =>
      OnlyAdded(s, Message(s.nextId, FiledUnder(s.cfg, chatId), true, text, Pending, None, false, None), m);
    case Receive(chatId, mine, packetId, _) =>
      OnlyAdded(s, Message(s.nextId, FiledUnder(s.cfg, chatId), mine, "", Sent, packetId, false, None), m);
    case HandleResult(_, _, _, _) => OnlyResult(s, e, m);
    case FailNext(_) => OnlyResult(s, e, m);
    case DeleteMessage(_, _) => OnlyKept(s, e, m);
    case DeleteChats(_, _) => OnlyKept(s, e, m);
    case Retry(_, _) => OnlyOthers(s, e, m);
    case RoutingReply(_, _, _, _) => OnlyOthers(s, e, m);
    case Sweep(_, _) => OnlyOthers(s, e, m);
    case _ =>
  }

  lemma StuckStep(s: State, e: Event, m: Message)
    requires Stuck(s, m) && !e.Restart?
    ensures Stuck(Next(s, e), m)
  {
    OnlyStep(s, e, m);
    if Holds(Next(s, e), KeyOf(m)) { StepHolds(s, e, KeyOf(m)); }
  }

  lemma {:induction false} StuckRun(s: State, events: seq<Event>, m: Message)
    requires Stuck(s, m) && forall i :: 0 <= i < |events| ==> !events[i].Restart?
    ensures Stuck(Run(s, events), m)
    decreases |events|
  {
    if events != [] {
      StuckStep(s, events[0], m);
      StuckRun(Next(s, events[0]), events[1..], m);
    }
  }

  /** In every run from a first start, a message to the own node is stored as pending, and as long as the
      process lives it stays exactly that, unless it is deleted or drops out of the history. */
  lemma SelfSendStaysPending(s: State, before: seq<Event>, text: string, saved: bool, later: seq<Event>)
    requires Start(s) && forall i :: 0 <= i < |later| ==> !later[i].Restart?
    ensures var t := Run(s, before);
            var m := Message(t.nextId, t.cfg.channelId, true, text, Pending, None, false, None);
            var u := Next(t, Send(t.cfg.localId, text, saved));
            && m in u.messages && !Holds(u, KeyOf(m))
            && Only(Run(u, later).messages, m) && !Holds(Run(u, later), KeyOf(m))
  {
    var t := Run(s, before);
    assert Known(s);
    KnownRun(s, before);
    ConfigStays(s, before);
    SelfSendIsStuck(t, text, saved);
    StuckRun(Next(t, Send(t.cfg.localId, text, saved)), later,
             Message(t.nextId, t.cfg.channelId, true, text, Pending, None, false, None));
  }

  lemma SelfSendIsStuck(s: State, text: string, saved: bool)
    requires Known(s) && s.cfg.localId != s.cfg.channelId && s.cfg.historyCap > 0
    ensures var m := Message(s.nextId, s.cfg.channelId, true, text, Pending, None, false, None);
            var t := Next(s, Send(s.cfg.localId, text, saved));
            m in t.messages && Stuck(t, m)
  {
    var m := Message(s.nextId, s.cfg.channelId, true, text, Pending, None, false, None);
    var t := Next(s, Send(s.cfg.localId, text, saved));
    assert t.messages[|t.messages| - 1] == m;
    assert Only(s.messages + [m], m);
    assert !Holds(s, KeyOf(m));
  }

  lemma {:induction false} ConfigStays(s: State, events: seq<Event>)
    ensures Run(s, events).cfg == s.cfg
    decreases |events|
  {
    if events != [] { ConfigStays(Next(s, events[0]), events[1..]); }
  }

  /** A restart settles it, as it settles everything that is pending. */
  lemma RestartSettlesEverything(s: State, saved: bool, i: nat)
    requires i < |Next(s, Restart(saved)).messages|
    ensures Next(s, Restart(saved)).messages[i].status != Pending
  {
    var ms := TakeLast(s.disk, s.cfg.historyCap);
    assert Next(s, Restart(saved)).messages[i] == Reconcile(ms[i]);
  }

  // ------------------------------------------------------------------ the catch-all, from a first start

  /** One message and its file, with nothing on the way to the queue. */
  function Lone(cfg: Config, m: Message, nextId: nat, worker: Worker): State {
    State(cfg, [m], [m], nextId, multiset{}, [], worker)
  }

  lemma {:induction false} RunConcat(s: State, a: seq<Event>, b: seq<Event>)
    ensures Run(s, a + b) == Run(Run(s, a), b)
    decreases |a|
  {
    if a == [] {
      assert a + b == b;
    } else {
      assert (a + b)[1..] == a[1..] + b;
      RunConcat(Next(s, a[0]), a[1..], b);
    }
  }

  lemma RunOne(s: State, e: Event)
    ensures Run(s, [e]) == Next(s, e)
  {
    assert [e][1..] == [];
  }

  lemma RunTwo(s: State, e: Event, f: Event)
    ensures Run(s, [e, f]) == Next(Next(s, e), f)
  {
    assert [e, f][1..] == [f];
    RunOne(Next(s, e), f);
  }

  lemma RunThree(s: State, e: Event, f: Event, g: Event)
    ensures Run(s, [e, f, g]) == Next(Next(Next(s, e), f), g)
  {
    assert [e, f, g][1..] == [f, g];
    RunTwo(Next(s, e), f, g);
  }

  /** From the hand-over to the start of the batch. */
  function Queued(job: Job): seq<Event> {
    [Put(job), Gather, StartBatch]
  }

  lemma QueuedRuns(cfg: Config, m: Message, n: nat, job: Job)
    ensures Run(Lone(cfg, m, n, Gathering([])).(handoff := multiset{job}), Queued(job))
        == Lone(cfg, m, n, Working([job], []))
  {
    var s := Lone(cfg, m, n, Gathering([])).(handoff := multiset{job});
    var t := Lone(cfg, m, n, Gathering([])).(queue := [job]);
    assert Next(s, Put(job)) == t;
    assert Next(t, Gather) == Lone(cfg, m, n, Gathering([job]));
    RunThree(s, Put(job), Gather, StartBatch);
  }

  lemma LoneMessage(m: Message, job: Job, r: Result, observable: bool, now: real)
    requires KeyOf(m) == job
    ensures FindMessage([m], job) == Some(0)
        && UpdateMessage([m], job, r, observable, now) == [AfterResult(m, r, observable, now)]
  {
  }

  lemma LoneSave(cfg: Config, m: Message, n: nat, worker: Worker, x: Message)
    requires cfg.historyCap > 0
    ensures Save(Lone(cfg, m, n, worker).(messages := [x]), true) == Lone(cfg, x, n, worker)
  {
  }

  /** A first message, up to the start of its batch. */
  lemma FirstBatch(s: State, chatId: string, text: string)
    requires Start(s) && chatId != s.cfg.localId
    ensures var job, m := Job(s.nextId, chatId), Message(s.nextId, chatId, true, text, Pending, None, false, None);
            Run(s, [Send(chatId, text, true)] + Queued(job)) == Lone(s.cfg, m, s.nextId + 1, Working([job], []))
  {
    var job, m := Job(s.nextId, chatId), Message(s.nextId, chatId, true, text, Pending, None, false, None);
    var e := Send(chatId, text, true);
    FirstSend(s, chatId, text);
    RunConcat(s, [e], Queued(job));
    RunOne(s, e);
    QueuedRuns(s.cfg, m, s.nextId + 1, job);
  }

  lemma FirstSend(s: State, chatId: string, text: string)
    requires Start(s) && chatId != s.cfg.localId
    ensures var job, m := Job(s.nextId, chatId), Message(s.nextId, chatId, true, text, Pending, None, false, None);
            Next(s, Send(chatId, text, true)) == Lone(s.cfg, m, s.nextId + 1, Gathering([])).(handoff := multiset{job})
  {
    var job, m := Job(s.nextId, chatId), Message(s.nextId, chatId, true, text, Pending, None, false, None);
    assert s.messages + [m] == [m] && s.handoff + multiset{job} == multiset{job};
    assert TakeLast([m], s.cfg.historyCap) == [m];
  }

  lemma LoneResult(cfg: Config, m: Message, n: nat, job: Job, r: Result, observable: bool)
    requires KeyOf(m) == job && cfg.historyCap > 0
    ensures Next(Lone(cfg, m, n, Working([job], [])), HandleResult(r, observable, 0.0, true))
         == Lone(cfg, AfterResult(m, r, observable, 0.0), n, Working([], [job]))
  {
    LoneMessage(m, job, r, observable, 0.0);
    assert [job][1..] == [] && [] + [job] == [job];
    LoneSave(cfg, m, n, Working([job], []), AfterResult(m, r, observable, 0.0));
  }

  lemma LoneRetry(cfg: Config, m: Message, n: nat, job: Job, worker: Worker)
    requires KeyOf(m) == job && cfg.historyCap > 0 && m.mine && m.status == Failed && m.text != ""
    ensures Next(Lone(cfg, m, n, worker), Retry(job, true))
         == Lone(cfg, m.(status := Pending), n, worker).(handoff := multiset{job})
  {
    LoneMessage(m, job, Rejected, false, 0.0);
    assert [m][0 := m.(status := Pending)] == [m.(status := Pending)];
    assert multiset{} + multiset{job} == multiset{job};
    LoneSave(cfg, m, n, worker, m.(status := Pending));
  }

  /** From a first start: a message is refused by the radio, retried while its batch is still at work, and
      then the batch raises.  The next step of the catch-all breaks the pairing. */
  lemma CatchAllCanBreakThePairing(s: State, chatId: string, text: string)
    requires Start(s) && chatId != s.cfg.localId && text != ""
    ensures var job := Job(s.nextId, chatId);
            var t := Run(s,
                [Send(chatId, text, true)] + Queued(job)
                    + [HandleResult(Rejected, false, 0.0, true), Retry(job, true), BatchRaises]);
            FailsRequeued(t, FailNext(true))
  {
    var job, m := Job(s.nextId, chatId), Message(s.nextId, chatId, true, text, Pending, None, false, None);
    var n, failed := s.nextId + 1, m.(status := Failed);
    var u := Lone(s.cfg, m, n, Working([job], []));
    var r := HandleResult(Rejected, false, 0.0, true);
    FirstBatch(s, chatId, text);
    RunConcat(s, [Send(chatId, text, true)] + Queued(job), [r, Retry(job, true), BatchRaises]);
    RunThree(u, r, Retry(job, true), BatchRaises);
    LoneResult(s.cfg, m, n, job, Rejected, false);
    LoneRetry(s.cfg, failed, n, job, Working([], [job]));
    LoneMessage(m, job, Rejected, false, 0.0);
  }

  /** From a first start: a direct message is delivered, its batch raises after that, the catch-all fails the
      message, it is retried and goes out over a transport that cannot see acknowledgements.  It then
      waits for its acknowledgement without a deadline. */
  lemma DeadlineCanBeLost(s: State, chatId: string, text: string)
    requires Start(s) && chatId != s.cfg.localId && IsDm(chatId) && text != ""
    ensures var job := Job(s.nextId, chatId);
            var first := [Send(chatId, text, true)] + Queued(job);
            var raised := [HandleResult(Accepted(None, AckSeen), true, 0.0, true), BatchRaises, FailNext(true)];
            var again := [EndBatch, Retry(job, true)] + Queued(job)
                + [HandleResult(Accepted(None, NothingSeen), false, 0.0, true)];
            var t := Run(s, first + raised + again);
            |t.messages| == 1 && IsWaiting(t.messages[0]) && t.messages[0].ackDeadline.None?
  {
    var job, m := Job(s.nextId, chatId), Message(s.nextId, chatId, true, text, Pending, None, false, None);
    var first := [Send(chatId, text, true)] + Queued(job);
    var raised := [HandleResult(Accepted(None, AckSeen), true, 0.0, true), BatchRaises, FailNext(true)];
    var again := [EndBatch, Retry(job, true)] + Queued(job)
        + [HandleResult(Accepted(None, NothingSeen), false, 0.0, true)];
    var n, failed := s.nextId + 1, m.(status := Failed, ackRequested := true);
    RunConcat(s, first + raised, again);
    RunConcat(s, first, raised);
    FirstBatch(s, chatId, text);
    RaisedAfterDelivery(s.cfg, m, n, job);
    SentAgain(s.cfg, failed, n, job);
  }

  lemma RaisedAfterDelivery(cfg: Config, m: Message, n: nat, job: Job)
    requires KeyOf(m) == job && cfg.historyCap > 0 && IsDm(m.chatId) && m.packetId.None? && m.ackDeadline.None?
    ensures var raised := [HandleResult(Accepted(None, AckSeen), true, 0.0, true), BatchRaises, FailNext(true)];
            Run(Lone(cfg, m, n, Working([job], [])), raised)
            == Lone(cfg, m.(status := Failed, ackRequested := true), n, Failing([], []))
  {
    var r, delivered := Accepted(None, AckSeen), m.(status := Delivered, ackRequested := true);
    var u := Lone(cfg, m, n, Working([job], []));
    RunThree(u, HandleResult(r, true, 0.0, true), BatchRaises, FailNext(true));
    LoneResult(cfg, m, n, job, r, true);
    assert AfterResult(m, r, true, 0.0) == delivered;
    LoneMessage(delivered, job, Rejected, false, 0.0);
    assert [job][1..] == [];
    LoneSave(cfg, delivered, n, Failing([job], []), m.(status := Failed, ackRequested := true));
  }

  lemma SentAgain(cfg: Config, m: Message, n: nat, job: Job)
    requires KeyOf(m) == job && cfg.historyCap > 0 && m.mine && m.status == Failed && m.text != ""
    requires m.ackRequested && m.ackDeadline.None? && m.packetId.None?
    ensures var again := [EndBatch, Retry(job, true)] + Queued(job)
        + [HandleResult(Accepted(None, NothingSeen), false, 0.0, true)];
            Run(Lone(cfg, m, n, Failing([], [])), again) == Lone(cfg, m.(status := Sent), n, Working([], [job]))
  {
    var s, r := Lone(cfg, m, n, Failing([], [])), Accepted(None, NothingSeen);
    var pending, e := m.(status := Pending), HandleResult(r, false, 0.0, true);
    RunConcat(s, [EndBatch, Retry(job, true)] + Queued(job), [e]);
    RunConcat(s, [EndBatch, Retry(job, true)], Queued(job));
    RunTwo(s, EndBatch, Retry(job, true));
    assert Next(s, EndBatch) == Lone(cfg, m, n, Gathering([]));
    LoneRetry(cfg, m, n, job, Gathering([]));
    QueuedRuns(cfg, pending, n, job);
    RunOne(Lone(cfg, pending, n, Working([job], [])), e);
    LoneResult(cfg, pending, n, job, r, false);
  }
}
