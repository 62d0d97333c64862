/** The life of an outgoing message (api/api_chat.py, server.py): send, queue, batch worker, retry,
    delivery acknowledgements, deletion and restart.  Requests, the worker, the listener and the sweep
    are separate threads; each critical section is one step, and every save may fail. */
module SendLifecycle {
  import opened Options
  import opened NodeIds

  const ACK_TIMEOUT := 60.0

  datatype Status = Pending | Sent | Failed | Delivered | Unconfirmed

  datatype Message = Message(
    id: nat, chatId: string, mine: bool, text: string,
    status: Status, packetId: Option<int>, ackRequested: bool, ackDeadline: Option<real>)

  /** A queued transmission names its message by id and chat. */
  datatype Job = Job(messageId: nat, chatId: string)

  function KeyOf(m: Message): Job {
    Job(m.id, m.chatId)
  }

  predicate IsDm(chatId: string) {
    chatId != [] && chatId[0] == '!'
  }

  /** The worker gathers jobs, then works through the batch one result at a time.  After an exception it
      fails the whole batch: first the jobs whose result was already applied, then the rest. */
  datatype Worker =
    | Gathering(jobs: seq<Job>)
    | Working(todo: seq<Job>, done: seq<Job>)
    | Failing(stale: seq<Job>, todo: seq<Job>)

  datatype Config = Config(localId: string, channelId: string, historyCap: nat)

  datatype State = State(
    cfg: Config,
    messages: seq<Message>,
    disk: seq<Message>,
    nextId: nat,
    handoff: multiset<Job>,   // jobs whose message is stored, not yet put on the queue by their request
    queue: seq<Job>,
    worker: Worker
  )

  datatype AckSeen = NothingSeen | AckSeen | NakSeen
  datatype Result = Rejected | Accepted(packetId: Option<int>, ack: AckSeen)

  /** Which of a deletion's writes succeed: the message file, the chat file, and on failure the
      rewriting of the message file from the restored memory. */
  datatype DeletionWrites = DeletionWrites(messages: bool, chats: bool, resync: bool)

  datatype Event =
    | Send(chatId: string, text: string, saved: bool)
    | Receive(chatId: string, mine: bool, packetId: Option<int>, saved: bool)
    | Retry(job: Job, saved: bool)
    | Put(job: Job)
    | Gather
    | StartBatch
    | HandleResult(result: Result, observable: bool, now: real, saved: bool)
    | EndBatch
    | BatchRaises
    | FailNext(saved: bool)
    | RoutingReply(requestId: int, isError: bool, from: Option<int>, saved: bool)
    | Sweep(now: real, saved: bool)
    | DeleteMessage(job: Job, writes: DeletionWrites)
    | DeleteChats(chatIds: set<string>, writes: DeletionWrites)
    | Restart(saved: bool)

  // ------------------------------------------------------------------ the message list

  function TakeLast(ms: seq<Message>, n: nat): seq<Message> {
    if |ms| <= n then ms else ms[|ms| - n..]
  }

  /** Newest message with this id and chat. */
  function FindMessage(ms: seq<Message>, job: Job): (k: Option<nat>)
    ensures k.Some? ==> k.value < |ms| && KeyOf(ms[k.value]) == job
    ensures k.None? ==> forall i :: 0 <= i < |ms| ==> KeyOf(ms[i]) != job
  {
    if ms == [] then None
    else if KeyOf(ms[|ms| - 1]) == job then Some(|ms| - 1)
    else FindMessage(ms[..|ms| - 1], job)
  }

  /** Oldest message with this id and chat, the one a deletion removes. */
  function FindOldest(ms: seq<Message>, job: Job): (k: Option<nat>)
    ensures k.Some? ==> k.value < |ms| && KeyOf(ms[k.value]) == job
    ensures k.None? ==> forall i :: 0 <= i < |ms| ==> KeyOf(ms[i]) != job
  {
    if ms == [] then None
    else if KeyOf(ms[0]) == job then Some(0)
    else match FindOldest(ms[1..], job) case None => None case Some(k) => Some(k + 1)
  }

  /** `find_message_by_packet_id`: newest message with this packet id. */
  function FindPacket(ms: seq<Message>, packetId: int): (k: Option<nat>)
    ensures k.Some? ==> k.value < |ms| && ms[k.value].packetId == Some(packetId)
  {
    if ms == [] then None
    else if ms[|ms| - 1].packetId == Some(packetId) then Some(|ms| - 1)
    else FindPacket(ms[..|ms| - 1], packetId)
  }

  /** `update_message_status` on the message of a finished job. */
  function AfterResult(m: Message, r: Result, observable: bool, now: real): Message {
    match r
    case Rejected => m.(status := Failed)
    case Accepted(packetId, ack) =>
      var sent := m.(status := Sent, packetId := if packetId.Some? then packetId else m.packetId);
      if IsDm(m.chatId) && observable then
        match ack
        case NothingSeen => sent.(ackRequested := true, ackDeadline := Some(now + ACK_TIMEOUT))
        case AckSeen => sent.(ackRequested := true, status := Delivered, ackDeadline := None)
        case NakSeen => sent.(ackRequested := true, status := Unconfirmed, ackDeadline := None)
      else sent
  }

  function UpdateMessage(ms: seq<Message>, job: Job, r: Result, observable: bool, now: real): (r': seq<Message>)
    ensures |r'| == |ms|
  {
    match FindMessage(ms, job)
    case None => ms
    case Some(k) => ms[k := AfterResult(ms[k], r, observable, now)]
  }

  predicate IsWaiting(m: Message) {
    m.status == Sent && m.ackRequested
  }

  /** `resolve_pending_ack`: None when the reply changes nothing. */
  function ResolveAck(ms: seq<Message>, requestId: int, isError: bool, from: Option<int>): Option<seq<Message>> {
    match FindPacket(ms, requestId)
    case None => None
    case Some(k) =>
      if !IsWaiting(ms[k]) then None
      else if isError then Some(ms[k := ms[k].(status := Unconfirmed, ackDeadline := None)])
      else
        var destination := DmDestination(ms[k].chatId);
        if destination.None? || from.None? || from.value != destination.value then None
        else Some(ms[k := ms[k].(status := Delivered, ackDeadline := None)])
  }

  predicate Overdue(m: Message, now: real) {
    IsWaiting(m) && m.ackDeadline.Some? && now >= m.ackDeadline.value
  }

  function SweepMessage(m: Message, now: real): Message {
    if Overdue(m, now) then m.(status := Unconfirmed, ackDeadline := None) else m
  }

  function SweepAll(ms: seq<Message>, now: real): (r: seq<Message>)
    ensures |r| == |ms|
    ensures forall i :: 0 <= i < |ms| ==> r[i] == SweepMessage(ms[i], now)
  {
    seq(|ms|, i requires 0 <= i < |ms| => SweepMessage(ms[i], now))
  }

  function Reconcile(m: Message): Message {
    if m.status == Pending then m.(status := Failed) else m
  }

  function ReconcileAll(ms: seq<Message>): (r: seq<Message>)
    ensures |r| == |ms|
    ensures forall i :: 0 <= i < |ms| ==> r[i] == Reconcile(ms[i])
  {
    seq(|ms|, i requires 0 <= i < |ms| => Reconcile(ms[i]))
  }

  function KeepOtherChats(ms: seq<Message>, chatIds: set<string>): seq<Message> {
    if ms == [] then []
    else (if ms[0].chatId in chatIds then [] else [ms[0]]) + KeepOtherChats(ms[1..], chatIds)
  }

  /** The chat a message is filed under: a message to the own node goes to the primary channel. */
  function FiledUnder(cfg: Config, chatId: string): string {
    if chatId == cfg.localId then cfg.channelId else chatId
  }

  // ------------------------------------------------------------------ one step

  function Save(s: State, saved: bool): State {
    if saved then s.(disk := TakeLast(s.messages, s.cfg.historyCap)) else s
  }

  function Add(s: State, m: Message): State {
    s.(messages := TakeLast(s.messages + [m], s.cfg.historyCap), nextId := s.nextId + 1)
  }

  /** A deletion keeps its effect only if both files were written; otherwise memory is put back. */
  function Delete(s: State, remaining: seq<Message>, writes: DeletionWrites): State {
    if writes.messages && writes.chats then Save(s.(messages := remaining), true)
    else if writes.messages && !writes.resync then s.(disk := TakeLast(remaining, s.cfg.historyCap))
    else Save(s, writes.resync)
  }

  function Next(s: State, e: Event): State {
    match e
    case Send(chatId, text, saved) =>
      var m := Message(s.nextId, FiledUnder(s.cfg, chatId), true, text, Pending, None, false, None);
      Save(Add(s, m), saved).(handoff := s.handoff + multiset{Job(s.nextId, chatId)})
    case Receive(chatId, mine, packetId, saved) =>
      Save(Add(s, Message(s.nextId, FiledUnder(s.cfg, chatId), mine, "", Sent, packetId, false, None)), saved)
    case Retry(job, saved) =>
      (match FindMessage(s.messages, job)
       case None => s
       case Some(k) =>
         var m := s.messages[k];
         if !m.mine || m.status != Failed || m.text == "" then s
         else
           var t := s.(messages := s.messages[k := m.(status := Pending)]);
           Save(t, saved).(handoff := s.handoff + multiset{job}))
    case Put(job) =>
      if job !in s.handoff then s else s.(handoff := s.handoff - multiset{job}, queue := s.queue + [job])
    case Gather =>
      if s.queue == [] || !s.worker.Gathering? then s
      else s.(queue := s.queue[1..], worker := Gathering(s.worker.jobs + [s.queue[0]]))
    case StartBatch =>
      if s.worker.Gathering? && s.worker.jobs != [] then s.(worker := Working(s.worker.jobs, [])) else s
    case HandleResult(result, observable, now, saved) =>
      if !s.worker.Working? || s.worker.todo == [] then s
      else
        var job, rest := s.worker.todo[0], s.worker.todo[1..];
        Save(s.(messages := UpdateMessage(s.messages, job, result, observable, now)), saved)
          .(worker := Working(rest, s.worker.done + [job]))
    case EndBatch =>
      if !s.worker.Gathering? && s.worker.todo == [] && (s.worker.Failing? ==> s.worker.stale == [])
      then s.(worker := Gathering([])) else s
    case BatchRaises => if s.worker.Working? then s.(worker := Failing(s.worker.done, s.worker.todo)) else s
    case FailNext(saved) =>
      if !s.worker.Failing? then s
      else if s.worker.stale != [] then
        Save(s.(messages := UpdateMessage(s.messages, s.worker.stale[0], Rejected, false, 0.0)), saved)
          .(worker := Failing(s.worker.stale[1..], s.worker.todo))
      else if s.worker.todo != [] then
        Save(s.(messages := UpdateMessage(s.messages, s.worker.todo[0], Rejected, false, 0.0)), saved)
          .(worker := Failing([], s.worker.todo[1..]))
      else s
    case RoutingReply(requestId, isError, from, saved) =>
      (match ResolveAck(s.messages, requestId, isError, from)
       case None => s
       case Some(ms) => Save(s.(messages := ms), saved))
    case Sweep(now, saved) => Save(s.(messages := SweepAll(s.messages, now)), saved)
    case DeleteMessage(job, writes) =>
      (match FindOldest(s.messages, job)
       case None => s
       case Some(k) => Delete(s, s.messages[..k] + s.messages[k + 1..], writes))
    case DeleteChats(chatIds, writes) => Delete(s, KeepOtherChats(s.messages, chatIds), writes)
    case Restart(saved) =>
      var loaded := ReconcileAll(TakeLast(s.disk, s.cfg.historyCap));
      Save(State(s.cfg, loaded, s.disk, s.nextId, multiset{}, [], Gathering([])), saved)
  }

  function Run(s: State, events: seq<Event>): State
    decreases |events|
  {
    if events == [] then s else Run(Next(s, events[0]), events[1..])
  }

  // ------------------------------------------------------------------ the invariant

  function Unhandled(w: Worker): seq<Job> {
    if w.Gathering? then w.jobs else w.todo
  }

  /** Every send job that is still to have its result applied. */
  function Outstanding(s: State): multiset<Job> {
    s.handoff + multiset(s.queue) + multiset(Unhandled(s.worker))
  }

  predicate UniqueIds(ms: seq<Message>) {
    forall i, j :: 0 <= i < j < |ms| ==> ms[i].id != ms[j].id
  }

  predicate IdsBelow(ms: seq<Message>, n: nat) {
    forall i :: 0 <= i < |ms| ==> ms[i].id < n
  }

  /** A pending message has exactly one outstanding job, any other message has none.  Apart from that: a
      message sent to the own node, `own` naming those by id, is pending and has none. */
  predicate Paired(m: Message, jobs: multiset<Job>, own: set<nat>) {
    if m.id in own then m.status == Pending && jobs[KeyOf(m)] == 0
    else jobs[KeyOf(m)] == if m.status == Pending then 1 else 0
  }

  ghost predicate OneJobEach(ms: seq<Message>, jobs: multiset<Job>, own: set<nat>) {
    forall i :: 0 <= i < |ms| ==> Paired(ms[i], jobs, own)
  }

  ghost predicate ListOk(ms: seq<Message>, nextId: nat) {
    UniqueIds(ms) && IdsBelow(ms, nextId)
  }

  /** `own`: the messages sent to the own node since the process started. */
  ghost predicate Inv(s: State, own: set<nat>) {
    && s.cfg.localId != s.cfg.channelId
    && ListOk(s.messages, s.nextId) && ListOk(s.disk, s.nextId)
    && (forall job :: job in Outstanding(s) ==> job.messageId < s.nextId)
    && (forall id :: id in own ==> id < s.nextId)
    && OneJobEach(s.messages, Outstanding(s), own)
  }

  /** A message to the own node is filed under the primary channel, while its job looks for it under the
      node; a new process fails whatever is pending. */
  function OwnAfter(s: State, own: set<nat>, e: Event): set<nat> {
    match e
    case Send(chatId, _, _) => if chatId == s.cfg.localId then own + {s.nextId} else own
    case Restart(_) => {}
    case _ => own
  }

  function OwnIn(s: State, own: set<nat>, events: seq<Event>): set<nat>
    decreases |events|
  {
    if events == [] then own else OwnIn(Next(s, events[0]), OwnAfter(s, own, events[0]), events[1..])
  }

  ghost predicate Start(s: State) {
    && s.messages == [] && s.disk == [] && s.handoff == multiset{} && s.queue == [] && s.worker == Gathering([])
    && s.cfg.localId != s.cfg.channelId && s.cfg.historyCap > 0
  }

  /** The catch-all is about to fail a job whose result was already applied. */
  predicate FailsStale(s: State, e: Event) {
    e.FailNext? && s.worker.Failing? && s.worker.stale != []
  }

  /** The catch-all fails an answered job whose message was queued again meanwhile. */
  predicate FailsRequeued(s: State, e: Event) {
    FailsStale(s, e) &&
    var k := FindMessage(s.messages, s.worker.stale[0]); k.Some? && s.messages[k.value].status == Pending
  }

  predicate NeverFailsRequeued(s: State, events: seq<Event>)
    decreases |events|
  {
    events == [] || (!FailsRequeued(s, events[0]) && NeverFailsRequeued(Next(s, events[0]), events[1..]))
  }

  // ------------------------------------------------------------------ list lemmas

  lemma SubListOk(ms: seq<Message>, n: nat, lo: nat)
    requires ListOk(ms, n) && lo <= |ms|
    ensures ListOk(ms[lo..], n)
  {
  }

  lemma LastOk(ms: seq<Message>, n: nat, cap: nat)
    requires ListOk(ms, n)
    ensures ListOk(TakeLast(ms, cap), n)
  {
    if |ms| > cap { SubListOk(ms, n, |ms| - cap); }
  }

  lemma UpdateKeepsList(ms: seq<Message>, n: nat, k: nat, m: Message)
    requires ListOk(ms, n) && k < |ms| && m.id == ms[k].id
    ensures ListOk(ms[k := m], n)
  {
  }

  lemma AppendKeepsList(ms: seq<Message>, n: nat, m: Message)
    requires ListOk(ms, n) && m.id == n
    ensures ListOk(ms + [m], n + 1)
  {
  }

  /** Changing one message's status and its job together. */
  lemma UpdateKeepsJobs(
    ms: seq<Message>, k: nat, m: Message, jobs: multiset<Job>, jobs': multiset<Job>, own: set<nat>)
    requires UniqueIds(ms) && OneJobEach(ms, jobs, own) && k < |ms| && KeyOf(m) == KeyOf(ms[k])
    requires Paired(m, jobs', own)
    requires forall job :: job != KeyOf(m) ==> jobs'[job] == jobs[job]
    ensures OneJobEach(ms[k := m], jobs', own)
  {
  }

  lemma {:induction false} KeptAreMembers(ms: seq<Message>, chatIds: set<string>, m: Message)
    ensures m in KeepOtherChats(ms, chatIds) <==> m in ms && m.chatId !in chatIds
  {
    if ms != [] {
      KeptAreMembers(ms[1..], chatIds, m);
      assert m in ms <==> m == ms[0] || m in ms[1..];
    }
  }

  lemma {:induction false} KeptIdsAreUnique(ms: seq<Message>, chatIds: set<string>)
    requires UniqueIds(ms)
    ensures UniqueIds(KeepOtherChats(ms, chatIds))
  {
    if ms != [] {
      var rest := KeepOtherChats(ms[1..], chatIds);
      assert forall i :: 0 <= i < |ms[1..]| ==> ms[1..][i] == ms[i + 1];
      KeptIdsAreUnique(ms[1..], chatIds);
      forall i | 0 <= i < |rest| ensures ms[0].id != rest[i].id {
        KeptAreMembers(ms[1..], chatIds, rest[i]);
        assert rest[i] in ms[1..];
      }
    }
  }

  lemma KeptChatsOk(ms: seq<Message>, n: nat, chatIds: set<string>, jobs: multiset<Job>, own: set<nat>)
    requires ListOk(ms, n) && OneJobEach(ms, jobs, own)
    ensures ListOk(KeepOtherChats(ms, chatIds), n) && OneJobEach(KeepOtherChats(ms, chatIds), jobs, own)
  {
    var kept := KeepOtherChats(ms, chatIds);
    KeptIdsAreUnique(ms, chatIds);
    forall i | 0 <= i < |kept| ensures kept[i].id < n && Paired(kept[i], jobs, own) {
      KeptAreMembers(ms, chatIds, kept[i]);
      var k :| 0 <= k < |ms| && ms[k] == kept[i];
    }
  }

  /** Applying one outstanding job's result and dropping the job. */
  lemma ApplyResultOk(
    ms: seq<Message>, n: nat, job: Job, r: Result, observable: bool, now: real, rest: multiset<Job>, own: set<nat>)
    requires ListOk(ms, n) && OneJobEach(ms, rest + multiset{job}, own)
    ensures var ms' := UpdateMessage(ms, job, r, observable, now); ListOk(ms', n) && OneJobEach(ms', rest, own)
    ensures forall i :: 0 <= i < |ms| && ms[i].status != Pending ==>
              UpdateMessage(ms, job, r, observable, now)[i] == ms[i]
  {
    var k := FindMessage(ms, job);
    if k.Some? {
      var m := AfterResult(ms[k.value], r, observable, now);
      assert (rest + multiset{job})[job] == rest[job] + 1;
      assert Paired(ms[k.value], rest + multiset{job}, own);
      UpdateKeepsList(ms, n, k.value, m);
      UpdateKeepsJobs(ms, k.value, m, rest + multiset{job}, rest, own);
    } else {
      forall i | 0 <= i < |ms| ensures Paired(ms[i], rest, own) {
        assert KeyOf(ms[i]) != job && Paired(ms[i], rest + multiset{job}, own);
      }
    }
  }

  // ------------------------------------------------------------------ every step keeps the invariant

  lemma SaveInv(s: State, own: set<nat>, saved: bool)
    requires Inv(s, own)
    ensures Inv(Save(s, saved), own)
  {
    LastOk(s.messages, s.nextId, s.cfg.historyCap);
    assert Outstanding(Save(s, saved)) == Outstanding(s);
  }

  /** Storing a new message together with its job, if it has one. */
  lemma AddInv(s: State, own: set<nat>, m: Message, jobs: multiset<Job>, own': set<nat>, saved: bool)
    requires Inv(s, own) && m.id == s.nextId && own <= own' <= own + {m.id}
    requires (forall job :: job in jobs ==> job.messageId == s.nextId) && Paired(m, jobs, own')
    ensures Inv(Save(Add(s, m), saved).(handoff := s.handoff + jobs), own')
  {
    var all := s.messages + [m];
    AppendKeepsList(s.messages, s.nextId, m);
    var t := Add(s, m).(handoff := s.handoff + jobs);
    assert Outstanding(t) == Outstanding(s) + jobs;
    assert Outstanding(s)[KeyOf(m)] == 0;
    assert OneJobEach(all, Outstanding(t), own') by {
      forall i | 0 <= i < |all| ensures Paired(all[i], Outstanding(t), own') {
        if i < |s.messages| {
          assert all[i] == s.messages[i] && all[i].id < s.nextId && Paired(all[i], Outstanding(s), own);
          assert KeyOf(all[i]) !in jobs;
        }
      }
    }
    LastOk(all, s.nextId + 1, s.cfg.historyCap);
    assert Inv(t, own');
    SaveInv(t, own', saved);
  }

  lemma RetryInv(s: State, own: set<nat>, job: Job, saved: bool)
    requires Inv(s, own)
    ensures Inv(Next(s, Retry(job, saved)), own)
  {
    var k := FindMessage(s.messages, job);
    if k.Some? && s.messages[k.value].mine && s.messages[k.value].status == Failed && s.messages[k.value].text != "" {
      var m := s.messages[k.value].(status := Pending);
      var t := s.(messages := s.messages[k.value := m], handoff := s.handoff + multiset{job});
      assert Outstanding(t) == Outstanding(s) + multiset{job};
      UpdateKeepsList(s.messages, s.nextId, k.value, m);
      UpdateKeepsJobs(s.messages, k.value, m, Outstanding(s), Outstanding(t), own);
      SaveInv(t, own, saved);
      assert Next(s, Retry(job, saved)) == Save(t, saved);
    }
  }

  /** Moving jobs along keeps everything, as long as the same jobs stay outstanding. */
  lemma MoveInv(s: State, own: set<nat>, t: State)
    requires Inv(s, own) && t == s.(handoff := t.handoff, queue := t.queue, worker := t.worker)
    requires Outstanding(t) == Outstanding(s)
    ensures Inv(t, own)
  {
  }

  lemma PutInv(s: State, own: set<nat>, job: Job)
    requires Inv(s, own)
    ensures Inv(Next(s, Put(job)), own)
  {
    if job in s.handoff {
      var t := Next(s, Put(job));
      assert Outstanding(t) == Outstanding(s);
      MoveInv(s, own, t);
    }
  }

  lemma GatherInv(s: State, own: set<nat>)
    requires Inv(s, own)
    ensures Inv(Next(s, Gather), own)
  {
    if s.queue != [] && s.worker.Gathering? {
      var t := Next(s, Gather);
      assert s.queue == [s.queue[0]] + s.queue[1..];
      assert multiset(s.queue) == multiset{s.queue[0]} + multiset(t.queue);
      assert multiset(t.worker.jobs) == multiset(s.worker.jobs) + multiset{s.queue[0]};
      assert Outstanding(t) == Outstanding(s);
      MoveInv(s, own, t);
    }
  }

  lemma StartBatchInv(s: State, own: set<nat>)
    requires Inv(s, own)
    ensures Inv(Next(s, StartBatch), own)
  {
    assert Outstanding(Next(s, StartBatch)) == Outstanding(s);
    MoveInv(s, own, Next(s, StartBatch));
  }

  lemma EndBatchInv(s: State, own: set<nat>)
    requires Inv(s, own)
    ensures Inv(Next(s, EndBatch), own)
  {
    assert Outstanding(Next(s, EndBatch)) == Outstanding(s);
    MoveInv(s, own, Next(s, EndBatch));
  }

  lemma BatchRaisesInv(s: State, own: set<nat>)
    requires Inv(s, own)
    ensures Inv(Next(s, BatchRaises), own)
  {
    assert Outstanding(Next(s, BatchRaises)) == Outstanding(s);
    MoveInv(s, own, Next(s, BatchRaises));
  }

  /** The outstanding jobs besides the one that is handled next. */
  ghost function OtherJobs(s: State): multiset<Job>
    requires !s.worker.Gathering? && s.worker.todo != []
  {
    s.handoff + multiset(s.queue) + multiset(s.worker.todo[1..])
  }

  lemma FirstJob(s: State)
    requires !s.worker.Gathering? && s.worker.todo != []
    ensures Outstanding(s) == OtherJobs(s) + multiset{s.worker.todo[0]}
  {
    assert s.worker.todo == [s.worker.todo[0]] + s.worker.todo[1..];
  }

  /** Applying a result to the next job's message and dropping the job. */
  lemma ApplyInv(s: State, own: set<nat>, worker: Worker, result: Result, observable: bool, now: real, saved: bool)
    requires Inv(s, own) && !s.worker.Gathering? && s.worker.todo != [] && Unhandled(worker) == s.worker.todo[1..]
    ensures var ms := UpdateMessage(s.messages, s.worker.todo[0], result, observable, now);
            Inv(Save(s.(messages := ms), saved).(worker := worker), own)
  {
    var job, others := s.worker.todo[0], OtherJobs(s);
    FirstJob(s);
    ApplyResultOk(s.messages, s.nextId, job, result, observable, now, others, own);
    var t := s.(messages := UpdateMessage(s.messages, job, result, observable, now), worker := worker);
    assert Outstanding(t) == others;
    SaveInv(t, own, saved);
    assert Save(t, saved) == Save(s.(messages := t.messages), saved).(worker := worker);
  }

  lemma ResultInv(s: State, own: set<nat>, result: Result, observable: bool, now: real, saved: bool)
    requires Inv(s, own)
    ensures Inv(Next(s, HandleResult(result, observable, now, saved)), own)
  {
    if s.worker.Working? && s.worker.todo != [] {
      ApplyInv(s, own, Working(s.worker.todo[1..], s.worker.done + [s.worker.todo[0]]), result, observable, now, saved);
    }
  }

  /** Failing an answered job whose message is not pending keeps everything. */
  lemma HarmlessStaleInv(s: State, own: set<nat>, saved: bool)
    requires Inv(s, own) && FailsStale(s, FailNext(saved)) && !FailsRequeued(s, FailNext(saved))
    ensures Inv(Next(s, FailNext(saved)), own)
  {
    var worker, k := Failing(s.worker.stale[1..], s.worker.todo), FindMessage(s.messages, s.worker.stale[0]);
    var u := s.(worker := worker);
    assert Inv(u, own) by {
      assert Outstanding(u) == Outstanding(s);
      MoveInv(s, own, u);
    }
    var ms := UpdateMessage(s.messages, s.worker.stale[0], Rejected, false, 0.0);
    if k.Some? {
      var m := s.messages[k.value].(status := Failed);
      assert ListOk(ms, s.nextId) by { UpdateKeepsList(s.messages, s.nextId, k.value, m); }
      assert OneJobEach(ms, Outstanding(u), own) by {
        UpdateKeepsJobs(s.messages, k.value, m, Outstanding(u), Outstanding(u), own);
      }
    }
    ListInv(u, own, ms, saved);
  }

  /** Failing an answered job keeps the pairing exactly when its message is not pending again. */
  lemma StaleFailureInv(s: State, own: set<nat>, saved: bool)
    requires Inv(s, own) && FailsStale(s, FailNext(saved))
    ensures Inv(Next(s, FailNext(saved)), own) <==> !FailsRequeued(s, FailNext(saved))
  {
    if !FailsRequeued(s, FailNext(saved)) {
      HarmlessStaleInv(s, own, saved);
    } else {
      var t, k := Next(s, FailNext(saved)), FindMessage(s.messages, s.worker.stale[0]).value;
      assert Outstanding(t) == Outstanding(s);
      assert t.messages[k] == s.messages[k].(status := Failed);
      assert Paired(s.messages[k], Outstanding(s), own) && !Paired(t.messages[k], Outstanding(t), own);
    }
  }

  lemma FailNextInv(s: State, own: set<nat>, saved: bool)
    requires Inv(s, own) && !FailsRequeued(s, FailNext(saved))
    ensures Inv(Next(s, FailNext(saved)), own)
  {
    if FailsStale(s, FailNext(saved)) {
      StaleFailureInv(s, own, saved);
    } else if s.worker.Failing? && s.worker.todo != [] {
      ApplyInv(s, own, Failing([], s.worker.todo[1..]), Rejected, false, 0.0, saved);
    }
  }

  /** Replacing the list while the jobs stay put. */
  lemma ListInv(s: State, own: set<nat>, ms: seq<Message>, saved: bool)
    requires Inv(s, own) && ListOk(ms, s.nextId) && OneJobEach(ms, Outstanding(s), own)
    ensures Inv(Save(s.(messages := ms), saved), own)
  {
    var t := s.(messages := ms);
    assert Outstanding(t) == Outstanding(s);
    SaveInv(t, own, saved);
  }

  /** Acknowledgements and the sweep touch only messages that are not pending. */
  lemma ReplyInv(s: State, own: set<nat>, requestId: int, isError: bool, from: Option<int>, saved: bool)
    requires Inv(s, own)
    ensures Inv(Next(s, RoutingReply(requestId, isError, from, saved)), own)
  {
    var ms := ResolveAck(s.messages, requestId, isError, from);
    if ms.Some? {
      var k := FindPacket(s.messages, requestId).value;
      var m := ms.value[k];
      assert ms.value == s.messages[k := m] && KeyOf(m) == KeyOf(s.messages[k]);
      assert s.messages[k].status != Pending && m.status != Pending;
      assert Inv(Save(s.(messages := ms.value), saved), own) by {
        UpdateKeepsList(s.messages, s.nextId, k, m);
        UpdateKeepsJobs(s.messages, k, m, Outstanding(s), Outstanding(s), own);
        ListInv(s, own, ms.value, saved);
      }
    }
  }

  lemma SweepInv(s: State, own: set<nat>, now: real, saved: bool)
    requires Inv(s, own)
    ensures Inv(Next(s, Sweep(now, saved)), own)
  {
    var ms := SweepAll(s.messages, now);
    forall i | 0 <= i < |ms| ensures KeyOf(ms[i]) == KeyOf(s.messages[i]) {}
    ListInv(s, own, ms, saved);
  }

  /** A deletion leaves a list whose messages and jobs are still paired, or the old one. */
  lemma DeleteInv(s: State, own: set<nat>, remaining: seq<Message>, writes: DeletionWrites)
    requires Inv(s, own) && ListOk(remaining, s.nextId) && OneJobEach(remaining, Outstanding(s), own)
    ensures Inv(Delete(s, remaining, writes), own)
  {
    if writes.messages && writes.chats {
      ListInv(s, own, remaining, true);
    } else if writes.messages && !writes.resync {
      LastOk(remaining, s.nextId, s.cfg.historyCap);
      assert Outstanding(s.(disk := TakeLast(remaining, s.cfg.historyCap))) == Outstanding(s);
    } else {
      SaveInv(s, own, writes.resync);
    }
  }

  lemma RemovedOk(ms: seq<Message>, n: nat, k: nat, jobs: multiset<Job>, own: set<nat>)
    requires ListOk(ms, n) && OneJobEach(ms, jobs, own) && k < |ms|
    ensures var r := ms[..k] + ms[k + 1..]; ListOk(r, n) && OneJobEach(r, jobs, own)
  {
    var r := ms[..k] + ms[k + 1..];
    assert forall i :: 0 <= i < |r| ==> r[i] == ms[if i < k then i else i + 1];
  }

  lemma DeleteMessageInv(s: State, own: set<nat>, job: Job, writes: DeletionWrites)
    requires Inv(s, own)
    ensures Inv(Next(s, DeleteMessage(job, writes)), own)
  {
    var k := FindOldest(s.messages, job);
    if k.Some? {
      var r := s.messages[..k.value] + s.messages[k.value + 1..];
      assert Next(s, DeleteMessage(job, writes)) == Delete(s, r, writes);
      assert Inv(Delete(s, r, writes), own) by {
        RemovedOk(s.messages, s.nextId, k.value, Outstanding(s), own);
        DeleteInv(s, own, r, writes);
      }
    }
  }

  lemma DeleteChatsInv(s: State, own: set<nat>, chatIds: set<string>, writes: DeletionWrites)
    requires Inv(s, own)
    ensures Inv(Next(s, DeleteChats(chatIds, writes)), own)
  {
    KeptChatsOk(s.messages, s.nextId, chatIds, Outstanding(s), own);
    DeleteInv(s, own, KeepOtherChats(s.messages, chatIds), writes);
  }

  lemma ReconciledOk(ms: seq<Message>, n: nat)
    requires ListOk(ms, n)
    ensures ListOk(ReconcileAll(ms), n) && OneJobEach(ReconcileAll(ms), multiset{}, {})
  {
    var r := ReconcileAll(ms);
    forall i | 0 <= i < |r| ensures r[i].id == ms[i].id && r[i].status != Pending {}
  }

  lemma RestartInv(s: State, own: set<nat>, saved: bool)
    requires Inv(s, own)
    ensures Inv(Next(s, Restart(saved)), {})
  {
    var ms := TakeLast(s.disk, s.cfg.historyCap);
    LastOk(s.disk, s.nextId, s.cfg.historyCap);
    ReconciledOk(ms, s.nextId);
    var t := State(s.cfg, ReconcileAll(ms), s.disk, s.nextId, multiset{}, [], Gathering([]));
    assert Outstanding(t) == multiset{};
    SaveInv(t, {}, saved);
  }

  lemma SendInv(s: State, own: set<nat>, chatId: string, text: string, saved: bool)
    requires Inv(s, own)
    ensures Inv(Next(s, Send(chatId, text, saved)), OwnAfter(s, own, Send(chatId, text, saved)))
  {
    var m := Message(s.nextId, FiledUnder(s.cfg, chatId), true, text, Pending, None, false, None);
    assert s.nextId !in own;
    AddInv(s, own, m, multiset{Job(s.nextId, chatId)}, OwnAfter(s, own, Send(chatId, text, saved)), saved);
  }

  lemma ReceiveInv(s: State, own: set<nat>, chatId: string, mine: bool, packetId: Option<int>, saved: bool)
    requires Inv(s, own)
    ensures Inv(Next(s, Receive(chatId, mine, packetId, saved)), own)
  {
    var m := Message(s.nextId, FiledUnder(s.cfg, chatId), mine, "", Sent, packetId, false, None);
    assert s.nextId !in own && s.handoff + multiset{} == s.handoff;
    AddInv(s, own, m, multiset{}, own, saved);
    assert Save(Add(s, m), saved).(handoff := s.handoff) == Save(Add(s, m), saved);
  }

  lemma StepInv(s: State, own: set<nat>, e: Event)
    requires Inv(s, own) && !FailsRequeued(s, e)
    ensures Inv(Next(s, e), OwnAfter(s, own, e))
  {
    match e
    case Send(chatId, text, saved) => SendInv(s, own, chatId, text, saved);
    case Receive(chatId, mine, packetId, saved) => ReceiveInv(s, own, chatId, mine, packetId, saved);
    case Retry(job, saved) => RetryInv(s, own, job, saved);
    case HandleResult(result, observable, now, saved) => ResultInv(s, own, result, observable, now, saved);
    case BatchRaises => BatchRaisesInv(s, own);
    case FailNext(saved) => FailNextInv(s, own, saved);
    case Restart(saved) => RestartInv(s, own, saved);
    case RoutingReply(requestId, isError, from, saved) => ReplyInv(s, own, requestId, isError, from, saved);
    case Sweep(now, saved) => SweepInv(s, own, now, saved);
    case DeleteMessage(job, writes) => DeleteMessageInv(s, own, job, writes);
    case DeleteChats(chatIds, writes) => DeleteChatsInv(s, own, chatIds, writes);
    case Put(job) => PutInv(s, own, job);
    case Gather => GatherInv(s, own);
    case StartBatch => StartBatchInv(s, own);
    case EndBatch => EndBatchInv(s, own);
  }

  lemma StartInv(s: State)
    requires Start(s)
    ensures Inv(s, {})
  {
    assert Outstanding(s) == multiset{};
  }

  // ------------------------------------------------------------------ what the lifecycle promises

  /** Every step keeps the pairing, messages to the own node set apart, if and only if it is no catch-all on
      a message that was queued again. */
  lemma StepKeepsThePairingExactlyWhen(s: State, own: set<nat>, e: Event)
    requires Inv(s, own)
    ensures Inv(Next(s, e), OwnAfter(s, own, e)) <==> !FailsRequeued(s, e)
  {
    if FailsRequeued(s, e) { StaleFailureInv(s, own, e.saved); } else { StepInv(s, own, e); }
  }

  /** The pairing after the first `n` steps of a run. */
  ghost predicate PairedAfter(s: State, own: set<nat>, events: seq<Event>, n: nat)
    requires n <= |events|
  {
    Inv(Run(s, events[..n]), OwnIn(s, own, events[..n]))
  }

  lemma PairedLater(s: State, own: set<nat>, events: seq<Event>, n: nat)
    requires n < |events|
    ensures PairedAfter(s, own, events, n + 1)
            <==> PairedAfter(Next(s, events[0]), OwnAfter(s, own, events[0]), events[1..], n)
  {
    assert events[..n + 1][1..] == events[1..][..n];
  }

  /** Over whole runs, whatever interleaves and whichever saves fail: at every moment each pending message
      has exactly one outstanding job or was sent to the own node and has none, and no other message has
      any, if and only if no step is such a catch-all. */
  lemma {:induction false} PairingKeptExactlyWhen(s: State, own: set<nat>, events: seq<Event>)
    requires Inv(s, own)
    ensures NeverFailsRequeued(s, events) <==> forall n :: 0 <= n <= |events| ==> PairedAfter(s, own, events, n)
    decreases |events|
  {
    assert PairedAfter(s, own, events, 0);
    if events != [] {
      var s', own', rest := Next(s, events[0]), OwnAfter(s, own, events[0]), events[1..];
      StepKeepsThePairingExactlyWhen(s, own, events[0]);
      forall n | 0 <= n < |events| ensures PairedAfter(s, own, events, n + 1) <==> PairedAfter(s', own', rest, n) {
        PairedLater(s, own, events, n);
      }
      if FailsRequeued(s, events[0]) {
        assert !PairedAfter(s', own', rest, 0);
      } else {
        PairingKeptExactlyWhen(s', own', rest);
        if NeverFailsRequeued(s, events) {
          forall n | 0 <= n <= |events| ensures PairedAfter(s, own, events, n) {
            if n > 0 { assert PairedAfter(s', own', rest, n - 1); }
          }
        } else {
          var n :| 0 <= n <= |rest| && !PairedAfter(s', own', rest, n);
          assert !PairedAfter(s, own, events, n + 1);
        }
      }
    }
  }

  /** In every run from a first start without such a catch-all, messages to the own node included. */
  lemma RunFromStart(s: State, events: seq<Event>)
    requires Start(s) && NeverFailsRequeued(s, events)
    ensures Inv(Run(s, events), OwnIn(s, {}, events))
  {
    StartInv(s);
    PairingKeptExactlyWhen(s, {}, events);
    assert events[..|events|] == events;
    assert PairedAfter(s, {}, events, |events|);
  }

  /** The pairing without exception holds exactly when no message to the own node is in memory. */
  lemma PlainPairingExactlyWhen(s: State, own: set<nat>)
    requires Inv(s, own)
    ensures OneJobEach(s.messages, Outstanding(s), {})
            <==> forall i :: 0 <= i < |s.messages| ==> s.messages[i].id !in own
  {
    forall i | 0 <= i < |s.messages|
      ensures Paired(s.messages[i], Outstanding(s), {}) <==> s.messages[i].id !in own
    {
      assert Paired(s.messages[i], Outstanding(s), own);
    }
  }

  /** A message to the own node is pending with no job. */
  lemma SelfSendLeavesAnOrphan(s: State, own: set<nat>, text: string, saved: bool)
    requires Inv(s, own) && s.cfg.historyCap > 0
    ensures var t := Next(s, Send(s.cfg.localId, text, saved));
            var m := Message(s.nextId, s.cfg.channelId, true, text, Pending, None, false, None);
            && m in t.messages && Outstanding(t)[KeyOf(m)] == 0 && !OneJobEach(t.messages, Outstanding(t), {})
  {
    var t := Next(s, Send(s.cfg.localId, text, saved));
    var m := Message(s.nextId, s.cfg.channelId, true, text, Pending, None, false, None);
    SendInv(s, own, s.cfg.localId, text, saved);
    assert t.messages[|t.messages| - 1] == m;
    assert Paired(t.messages[|t.messages| - 1], Outstanding(t), own + {s.nextId});
    assert !Paired(t.messages[|t.messages| - 1], Outstanding(t), {});
  }

  /** A result is only ever applied to a pending message. */
  lemma ResultReachesPendingOnly(s: State, own: set<nat>, e: Event, i: nat)
    requires Inv(s, own) && e.HandleResult? && i < |s.messages| && s.messages[i].status != Pending
    ensures i < |Next(s, e).messages| && Next(s, e).messages[i] == s.messages[i]
  {
    if s.worker.Working? && s.worker.todo != [] {
      FirstJob(s);
      ApplyResultOk(s.messages, s.nextId, s.worker.todo[0], e.result, e.observable, e.now, OtherJobs(s), own);
    }
  }

  /** In every run from a first start without a catch-all on a requeued message: whatever is sent, delivered,
      unconfirmed or failed is not overwritten by a send result that comes late. */
  lemma LateResultOverwritesNothing(s: State, events: seq<Event>, e: Event, i: nat)
    requires Start(s) && NeverFailsRequeued(s, events) && e.HandleResult?
    requires i < |Run(s, events).messages| && Run(s, events).messages[i].status != Pending
    ensures var t := Run(s, events); i < |Next(t, e).messages| && Next(t, e).messages[i] == t.messages[i]
  {
    RunFromStart(s, events);
    ResultReachesPendingOnly(Run(s, events), OwnIn(s, {}, events), e, i);
  }

  /** A pending message always gets an answer when its job's result is applied. */
  lemma ResultSettlesItsMessage(s: State, own: set<nat>, result: Result, observable: bool, now: real, saved: bool)
    requires Inv(s, own) && s.worker.Working? && s.worker.todo != []
    ensures var t := Next(s, HandleResult(result, observable, now, saved));
            forall i :: 0 <= i < |t.messages| && KeyOf(t.messages[i]) == s.worker.todo[0] ==>
                t.messages[i].status != Pending
  {
    var k := FindMessage(s.messages, s.worker.todo[0]);
    assert k.Some? ==> AfterResult(s.messages[k.value], result, observable, now).status != Pending;
  }

  // ------------------------------------------------------------------ where messages come from

  lemma DeleteMembers(s: State, remaining: seq<Message>, writes: DeletionWrites)
    requires forall x :: x in remaining ==> x in s.messages
    ensures forall x :: x in Delete(s, remaining, writes).messages ==> x in s.messages
    ensures forall x :: x in Delete(s, remaining, writes).disk ==> x in s.messages || x in s.disk
  {
  }

  /** A deletion, whatever its writes do, brings no new message and moves no job. */
  lemma DeletionBringsNothing(s: State, e: Event)
    requires e.DeleteMessage? || e.DeleteChats?
    ensures forall x :: x in Next(s, e).messages ==> x in s.messages
    ensures forall x :: x in Next(s, e).disk ==> x in s.messages || x in s.disk
    ensures Next(s, e) == s.(messages := Next(s, e).messages, disk := Next(s, e).disk)
  {
    match e
    case DeleteMessage(job, writes) =>
      var k := FindOldest(s.messages, job);
      if k.Some? { DeleteMembers(s, s.messages[..k.value] + s.messages[k.value + 1..], writes); }
    case DeleteChats(chatIds, writes) =>
      forall x | x in KeepOtherChats(s.messages, chatIds) ensures x in s.messages {
        KeptAreMembers(s.messages, chatIds, x);
      }
      DeleteMembers(s, KeepOtherChats(s.messages, chatIds), writes);
  }

  /** Every other step leaves the file alone or writes the messages to it. */
  lemma SavedDisk(s: State, e: Event)
    requires !e.DeleteMessage? && !e.DeleteChats?
    ensures Next(s, e).disk == s.disk || Next(s, e).disk == TakeLast(Next(s, e).messages, s.cfg.historyCap)
  {
  }
}
