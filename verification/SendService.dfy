/** The loops and routes behind `SendLifecycle`, mutating the message list in place, one critical section
    per method.  Each is proved to take exactly a step of `SendLifecycle.Next`. */
module SendService {
  import opened Options
  import opened NodeIds
  import opened SendLifecycle

  class Service {
    const cfg: Config
    var messages: seq<Message>
    var disk: seq<Message>
    var nextId: nat
    ghost var handoff: multiset<Job>
    var queue: seq<Job>
    var worker: Worker

    ghost function View(): State
      reads this
    {
      State(cfg, messages, disk, nextId, handoff, queue, worker)
    }

    constructor (cfg: Config)
      requires cfg.localId != cfg.channelId && cfg.historyCap > 0
      ensures Start(View())
    {
      this.cfg := cfg;
      messages, disk, nextId, handoff, queue, worker := [], [], 0, multiset{}, [], Gathering([]);
    }

    /** A write replaces the file or leaves it alone. */
    method SaveMessages(storageOk: bool) returns (saved: bool)
      modifies this`disk
      ensures saved == storageOk && View() == SendLifecycle.Save(old(View()), saved)
    {
      saved := storageOk;
      if saved {
        disk := if |messages| <= cfg.historyCap then messages else messages[|messages| - cfg.historyCap..];
      }
    }

    /** Newest message with this id in this chat, scanning from the end. */
    method FindById(job: Job) returns (k: Option<nat>)
      ensures k == FindMessage(messages, job)
    {
      var i := |messages|;
      assert messages[..i] == messages;
      while i > 0
        invariant 0 <= i <= |messages|
        invariant FindMessage(messages, job) == FindMessage(messages[..i], job)
      {
        assert messages[..i][..i - 1] == messages[..i - 1];
        if messages[i - 1].chatId == job.chatId && messages[i - 1].id == job.messageId {
          return Some(i - 1);
        }
        i := i - 1;
      }
      return None;
    }

    method FindByPacketId(packetId: int) returns (k: Option<nat>)
      ensures k == FindPacket(messages, packetId)
    {
      var i := |messages|;
      assert messages[..i] == messages;
      while i > 0
        invariant 0 <= i <= |messages|
        invariant FindPacket(messages, packetId) == FindPacket(messages[..i], packetId)
      {
        assert messages[..i][..i - 1] == messages[..i - 1];
        if messages[i - 1].packetId == Some(packetId) {
          return Some(i - 1);
        }
        i := i - 1;
      }
      return None;
    }

    /** The only place a send result reaches a message. */
    method UpdateMessageStatus(job: Job, result: Result, observable: bool, now: real, storageOk: bool)
      returns (saved: bool)
      modifies this`messages, this`disk
      ensures View() == SendLifecycle.Save(
          old(View()).(messages := UpdateMessage(old(messages), job, result, observable, now)), saved)
      ensures saved == (storageOk && FindMessage(old(messages), job).Some?)
    {
      saved := false;
      var found := FindById(job);
      if found.Some? {
        var k, m := found.value, messages[found.value];
        m := m.(status := if result.Rejected? then Failed else Sent);
        if result.Accepted? {
          if result.packetId.Some? {
            m := m.(packetId := result.packetId);
          }
          if observable && IsDm(job.chatId) {
            m := m.(ackRequested := true, ackDeadline := Some(now + ACK_TIMEOUT));
            if result.ack == AckSeen {
              m := m.(status := Delivered, ackDeadline := None);
            } else if result.ack == NakSeen {
              m := m.(status := Unconfirmed, ackDeadline := None);
            }
          }
        }
        messages := messages[k := m];
        saved := SaveMessages(storageOk);
      }
    }

    method Send(chatId: string, text: string, storageOk: bool) returns (job: Job)
      modifies this`messages, this`disk, this`nextId, this`handoff
      ensures View() == Next(old(View()), SendLifecycle.Send(chatId, text, storageOk))
      ensures job == Job(old(nextId), chatId) && job in handoff
    {
      var filed := if chatId == cfg.localId then cfg.channelId else chatId;
      job := Job(nextId, chatId);
      var m := Message(nextId, filed, true, text, Pending, None, false, None);
      messages := messages + [m];
      if |messages| > cfg.historyCap {
        messages := messages[|messages| - cfg.historyCap..];
      }
      nextId := nextId + 1;
      assert View() == Add(old(View()), m);
      var _ := SaveMessages(storageOk);
      handoff := handoff + multiset{job};
    }

    /** Only a failed outgoing message with text is queued again, under its own id. */
    method Retry(job: Job, storageOk: bool) returns (queued: bool)
      modifies this`messages, this`disk, this`handoff
      ensures View() == Next(old(View()), SendLifecycle.Retry(job, storageOk))
      ensures queued ==> job in handoff
      ensures !queued ==> View() == old(View())
    {
      var found := FindById(job);
      if found.None? { return false; }
      var m := messages[found.value];
      if !m.mine || m.status != Failed || m.text == "" { return false; }
      messages := messages[found.value := m.(status := Pending)];
      var _ := SaveMessages(storageOk);
      handoff := handoff + multiset{job};
      return true;
    }

    method Put(job: Job)
      requires job in handoff
      modifies this`queue, this`handoff
      ensures View() == Next(old(View()), SendLifecycle.Put(job))
    {
      queue := queue + [job];
      handoff := handoff - multiset{job};
    }

    /** One queue read of the accumulation window; the window closes when the read times out. */
    method Gather() returns (got: bool)
      requires worker.Gathering?
      modifies this`queue, this`worker
      ensures View() == Next(old(View()), SendLifecycle.Gather)
      ensures got <==> old(queue) != []
    {
      got := queue != [];
      if got {
        worker := Gathering(worker.jobs + [queue[0]]);
        queue := queue[1..];
      }
    }

    method StartBatch()
      modifies this`worker
      ensures View() == Next(old(View()), SendLifecycle.StartBatch)
    {
      if worker.Gathering? && worker.jobs != [] {
        worker := Working(worker.jobs, []);
      }
    }

    method HandleSendResult(result: Result, observable: bool, now: real, storageOk: bool) returns (saved: bool)
      requires worker.Working? && worker.todo != []
      modifies this`messages, this`disk, this`worker
      ensures View() == Next(old(View()), HandleResult(result, observable, now, saved))
    {
      saved := UpdateMessageStatus(worker.todo[0], result, observable, now, storageOk);
      worker := Working(worker.todo[1..], worker.done + [worker.todo[0]]);
    }

    method EndBatch()
      modifies this`worker
      ensures View() == Next(old(View()), SendLifecycle.EndBatch)
    {
      if (worker.Working? && worker.todo == []) || (worker.Failing? && worker.todo == [] && worker.stale == []) {
        worker := Gathering([]);
      }
    }

    /** An exception escapes the batch. */
    method CatchAll()
      requires worker.Working?
      modifies this`worker
      ensures View() == Next(old(View()), BatchRaises)
    {
      worker := Failing(worker.done, worker.todo);
    }

    /** The catch-all marks the next message of the batch as failed. */
    method MarkNextFailed(storageOk: bool) returns (saved: bool)
      requires worker.Failing? && (worker.stale != [] || worker.todo != [])
      modifies this`messages, this`disk, this`worker
      ensures View() == Next(old(View()), FailNext(saved))
    {
      if worker.stale != [] {
        saved := UpdateMessageStatus(worker.stale[0], Rejected, false, 0.0, storageOk);
        worker := Failing(worker.stale[1..], worker.todo);
      } else {
        saved := UpdateMessageStatus(worker.todo[0], Rejected, false, 0.0, storageOk);
        worker := Failing([], worker.todo[1..]);
      }
    }

    /** What a routing reply does to the message it names. */
    method ResolvePendingAck(requestId: int, isError: bool, from: Option<int>, storageOk: bool)
      returns (outcome: Option<Status>)
      modifies this`messages, this`disk
      ensures View() == Next(old(View()), RoutingReply(requestId, isError, from, storageOk))
      ensures outcome.None? ==> View() == old(View())
      ensures outcome.Some? ==> outcome.value == if isError then Unconfirmed else Delivered
    {
      var found := FindByPacketId(requestId);
      if found.None? { return None; }
      var m := messages[found.value];
      if !m.ackRequested || m.status != Sent { return None; }
      if !isError {
        var destination := DmDestination(m.chatId);
        if destination.None? || from.None? || from.value != destination.value { return None; }
        m := m.(status := Delivered);
      } else {
        m := m.(status := Unconfirmed);
      }
      m := m.(ackDeadline := None);
      messages := messages[found.value := m];
      var _ := SaveMessages(storageOk);
      return Some(m.status);
    }

    /** One pass of the acknowledgement timeout worker. */
    method SweepOverdue(now: real, storageOk: bool) returns (saved: bool)
      modifies this`messages, this`disk
      ensures View() == Next(old(View()), Sweep(now, saved))
    {
      var changed, i := false, 0;
      while i < |messages|
        invariant 0 <= i <= |messages| == |old(messages)| && disk == old(disk)
        invariant forall k :: 0 <= k < i ==> messages[k] == SweepMessage(old(messages)[k], now)
        invariant forall k :: i <= k < |messages| ==> messages[k] == old(messages)[k]
      {
        var m := messages[i];
        if m.status == Sent && m.ackRequested && m.ackDeadline.Some? && now >= m.ackDeadline.value {
          messages := messages[i := m.(status := Unconfirmed, ackDeadline := None)];
          changed := true;
        }
        i := i + 1;
      }
      assert messages == SweepAll(old(messages), now);
      saved := false;
      if changed { saved := SaveMessages(storageOk); }
    }

    /** A new process: the queue is gone, the file is loaded, interrupted sends are failed. */
    method RestartProcess(storageOk: bool) returns (saved: bool)
      modifies this
      ensures View() == Next(old(View()), Restart(saved))
    {
      queue, worker, handoff := [], Gathering([]), multiset{};
      messages := if |disk| <= cfg.historyCap then disk else disk[|disk| - cfg.historyCap..];
      assert View()
          == State(cfg, TakeLast(old(disk), cfg.historyCap), old(disk), old(nextId), multiset{}, [], Gathering([]));
      saved := ReconcileInterruptedSends(storageOk);
    }

    /** Fail out every message left pending by a previous process. */
    method ReconcileInterruptedSends(storageOk: bool) returns (saved: bool)
      modifies this`messages, this`disk
      ensures View() == SendLifecycle.Save(old(View()).(messages := ReconcileAll(old(messages))), saved)
    {
      var changed, i := false, 0;
      while i < |messages|
        invariant 0 <= i <= |messages| == |old(messages)| && disk == old(disk)
        invariant forall k :: 0 <= k < i ==> messages[k] == Reconcile(old(messages)[k])
        invariant forall k :: i <= k < |messages| ==> messages[k] == old(messages)[k]
      {
        if messages[i].status == Pending {
          messages := messages[i := messages[i].(status := Failed)];
          changed := true;
        }
        i := i + 1;
      }
      assert messages == ReconcileAll(old(messages));
      saved := false;
      if changed { saved := SaveMessages(storageOk); }
    }
  }

}
