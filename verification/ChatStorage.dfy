/** The routes that delete chats and messages (server.py, api/api_chat.py).  They change memory in place,
    write the files one by one, and put memory back when a write fails.  Any write may fail: `works` says of
    the n-th write of the process whether it succeeds. */
module ChatStorage {
  import opened Options
  import opened ChatRecords

  datatype Disk = Disk(chats: map<string, Chat>, messages: seq<Message>, marker: Option<set<string>>)

  /** Each of the two files holds what it held before the call, what memory held before the call, or what
      the call set out to write; the marker file is untouched. */
  ghost predicate FilesOldOrNew(d: Disk, was: Disk, before: Memory, after: Memory) {
    && d.marker == was.marker
    && (d.chats == was.chats || d.chats == before.chats || d.chats == after.chats)
    && (d.messages == was.messages || d.messages == before.messages || d.messages == after.messages)
  }

  /** Every disk state written since `from` satisfies `FilesOldOrNew`: true wherever the process crashes. */
  ghost predicate CrashSafe(trail: seq<Disk>, from: nat, was: Disk, before: Memory, after: Memory) {
    forall k :: from <= k < |trail| ==> FilesOldOrNew(trail[k], was, before, after)
  }

  datatype Outcome = NotFound | Deleted | StorageFailed

  class Store {
    const channelId: string
    const historyCap: nat
    const frames: Frames
    const works: nat -> bool
    var chats: map<string, Chat>
    var messages: seq<Message>
    var disk: Disk
    var writes: nat              // how many writes were attempted
    ghost var trail: seq<Disk>   // every disk state so far, oldest first

    ghost predicate Valid()
      reads this
    {
      |messages| <= historyCap && trail != [] && trail[|trail| - 1] == disk
    }

    function Mem(): Memory
      reads this
    {
      Memory(chats, messages)
    }

    /** Memory and the two files agree. */
    predicate Synced()
      reads this
    {
      disk.chats == chats && disk.messages == messages
    }

    constructor (channelId: string, historyCap: nat, frames: Frames, works: nat -> bool, disk: Disk)
      ensures Valid() && this.disk == disk && chats == disk.chats && trail == [disk] && writes == 0
      ensures this.channelId == channelId && this.historyCap == historyCap
      ensures this.frames == frames && this.works == works
      ensures |disk.messages| <= historyCap ==> Synced()
      ensures |disk.messages| > historyCap ==>
                |messages| == historyCap && exists older :: disk.messages == older + messages
    {
      this.channelId, this.historyCap, this.frames, this.works := channelId, historyCap, frames, works;
      this.disk, this.chats, this.writes, this.trail := disk, disk.chats, 0, [disk];
      this.messages := if |disk.messages| <= historyCap then disk.messages
                       else disk.messages[|disk.messages| - historyCap..];
      new;
      if |disk.messages| > historyCap {
        assert disk.messages == disk.messages[..|disk.messages| - historyCap] + messages;
      }
    }

    method SaveChats() returns (ok: bool)
      requires Valid()
      modifies this`disk, this`writes, this`trail
      ensures Valid() && ok == works(old(writes)) && writes == old(writes) + 1
      ensures disk == if ok then old(disk).(chats := chats) else old(disk)
      ensures trail == if ok then old(trail) + [disk] else old(trail)
    {
      ok, writes := works(writes), writes + 1;
      if ok {
        disk := disk.(chats := chats);
        trail := trail + [disk];
      }
    }

    method SaveMessages() returns (ok: bool)
      requires Valid()
      modifies this`disk, this`writes, this`trail
      ensures Valid() && ok == works(old(writes)) && writes == old(writes) + 1
      ensures disk == if ok then old(disk).(messages := messages) else old(disk)
      ensures trail == if ok then old(trail) + [disk] else old(trail)
    {
      ok, writes := works(writes), writes + 1;
      if ok {
        disk := disk.(messages := messages);   // never longer than the cap of the file
        trail := trail + [disk];
      }
    }

    method SaveMarker(deleted: set<string>) returns (ok: bool)
      requires Valid()
      modifies this`disk, this`writes, this`trail
      ensures Valid() && ok == works(old(writes)) && writes == old(writes) + 1
      ensures disk == if ok then old(disk).(marker := Some(deleted)) else old(disk)
      ensures trail == if ok then old(trail) + [disk] else old(trail)
    {
      ok, writes := works(writes), writes + 1;
      if ok {
        disk := disk.(marker := Some(deleted));
        trail := trail + [disk];
      }
    }

    /** Best effort after a rollback: bring the files back in line with memory, each as far as its write works. */
    method Resync(chatsFirst: bool, ghost from: nat, ghost was: Disk, ghost after: Memory)
      requires Valid() && FilesOldOrNew(disk, was, Mem(), after) && CrashSafe(trail, from, was, Mem(), after)
      modifies this`disk, this`writes, this`trail
      ensures Valid() && FilesOldOrNew(disk, was, Mem(), after) && CrashSafe(trail, from, was, Mem(), after)
      ensures |trail| >= |old(trail)| && writes == old(writes) + 2
      ensures works(old(writes)) && works(old(writes) + 1) ==> Synced()
      ensures works(old(writes)) ==> if chatsFirst then disk.chats == chats else disk.messages == messages
    {
      if chatsFirst {
        var _ := SaveChats();
        var _ := SaveMessages();
      } else {
        var _ := SaveMessages();
        var _ := SaveChats();
      }
    }

    /** Undo what a route did to one chat, then rewrite the files from memory. */
    method Restore(chatId: string, entry: Option<Chat>, snapshot: seq<Message>, chatsFirst: bool,
                   ghost from: nat, ghost was: Disk, ghost before: Memory, ghost after: Memory)
      requires Valid() && |snapshot| <= historyCap && snapshot == before.messages
      requires before.chats == if entry.Some? then chats[chatId := entry.value] else chats
      requires FilesOldOrNew(disk, was, before, after) && CrashSafe(trail, from, was, before, after)
      modifies this
      ensures Valid() && Mem() == before
      ensures FilesOldOrNew(disk, was, before, after) && CrashSafe(trail, from, was, before, after)
      ensures writes >= 2 && (works(writes - 2) && works(writes - 1) ==> Synced())
    {
      messages := snapshot;
      if entry.Some? { chats := chats[chatId := entry.value]; }
      Resync(chatsFirst, from, was, after);
    }

    method ClearChat(chatId: string) returns (ok: bool)
      requires Valid()
      modifies this
      ensures Valid() && (ok <==> works(old(writes)) && (chatId in old(chats) ==> works(old(writes) + 1)))
      ensures ok ==> Mem() == ClearedChat(old(Mem()), chatId) && disk.messages == messages
      ensures ok ==> disk.chats == if chatId in old(chats) then chats else old(disk).chats
      ensures ok && old(Synced()) ==> Synced()
      ensures !ok ==> Mem() == old(Mem())
      ensures !ok ==> writes >= 2 && (works(writes - 2) && works(writes - 1) ==> Synced())
      ensures FilesOldOrNew(disk, old(disk), old(Mem()), ClearedChat(old(Mem()), chatId))
      ensures CrashSafe(trail, |old(trail)|, old(disk), old(Mem()), ClearedChat(old(Mem()), chatId))
    {
      ghost var before, after := Mem(), ClearedChat(Mem(), chatId);
      var messagesSnapshot := messages;
      var entry := if chatId in chats then Some(chats[chatId]) else None;
      messages := Keep(messages, NotOf(chatId));
      ok := SaveMessages();
      if ok && entry.Some? {
        chats := chats[chatId := chats[chatId].(lastMessage := "", lastTime := "", lastTs := None, unread := 0)];
        ok := SaveChats();
      }
      if !ok {
        Restore(chatId, entry, messagesSnapshot, false, |old(trail)|, old(disk), before, after);
      }
    }

    method DeleteChat(chatId: string) returns (ok: bool)
      requires Valid()
      modifies this
      ensures Valid() && (ok <==> works(old(writes)) && (chatId in old(chats) ==> works(old(writes) + 1)))
      ensures ok ==> Mem() == DeletedChat(old(Mem()), chatId) && disk.messages == messages
      ensures ok ==> disk.chats == if chatId in old(chats) then chats else old(disk).chats
      ensures ok && old(Synced()) ==> Synced()
      ensures !ok ==> Mem() == old(Mem())
      ensures !ok ==> writes >= 2 && (works(writes - 2) && works(writes - 1) ==> Synced())
      ensures FilesOldOrNew(disk, old(disk), old(Mem()), DeletedChat(old(Mem()), chatId))
      ensures CrashSafe(trail, |old(trail)|, old(disk), old(Mem()), DeletedChat(old(Mem()), chatId))
    {
      ghost var before, after := Mem(), DeletedChat(Mem(), chatId);
      var messagesSnapshot := messages;
      var entry := if chatId in chats then Some(chats[chatId]) else None;
      ok := true;
      if entry.Some? {
        chats := chats - {chatId};
        ok := SaveChats();
      }
      if ok {
        messages := Keep(messages, NotOf(chatId));
        ok := SaveMessages();
      }
      if !ok {
        Restore(chatId, entry, messagesSnapshot, true, |old(trail)|, old(disk), before, after);
      }
    }

    /** Both files, the chats first; stops at the first write that fails. */
    method SaveBoth(ghost before: Memory) returns (ok: bool)
      requires Valid()
      modifies this`disk, this`writes, this`trail
      ensures Valid() && (ok <==> works(old(writes)) && works(old(writes) + 1))
      ensures ok ==> Synced() && writes == old(writes) + 2
      ensures FilesOldOrNew(disk, old(disk), before, Mem())
      ensures CrashSafe(trail, |old(trail)|, old(disk), before, Mem())
    {
      ok := SaveChats();
      if ok { ok := SaveMessages(); }
    }

    /** Remove the direct chats from memory and from both files, or put everything back. */
    method DeleteDms(dmChats: set<string>) returns (ok: bool)
      requires Valid() && dmChats == DmChats(Mem(), channelId)
      modifies this
      ensures Valid() && (ok <==> works(old(writes)) && works(old(writes) + 1))
      ensures ok ==> Mem() == DeletedDms(old(Mem()), channelId) && Synced() && writes == old(writes) + 2
      ensures !ok ==> Mem() == old(Mem())
      ensures !ok ==> writes >= 2 && (works(writes - 2) && works(writes - 1) ==> Synced())
      ensures FilesOldOrNew(disk, old(disk), old(Mem()), DeletedDms(old(Mem()), channelId))
      ensures CrashSafe(trail, |old(trail)|, old(disk), old(Mem()), DeletedDms(old(Mem()), channelId))
    {
      ghost var after := DeletedDms(Mem(), channelId);
      var chatsSnapshot, messagesSnapshot := chats, messages;
      chats := chats - dmChats;
      messages := Keep(messages, m => IsChannelMessage(channelId, m));
      assert Mem() == after;
      ok := SaveBoth(old(Mem()));
      if !ok {
        chats, messages := chatsSnapshot, messagesSnapshot;
        Resync(true, |old(trail)|, old(disk), after);
      }
    }

    /** The marker naming this request's chats reaches the disk only after both deletions did, and a
        failed marker write undoes nothing. */
    method DeleteAllDm() returns (ok: bool, marked: bool)
      requires Valid()
      modifies this
      ensures Valid() && (ok <==> works(old(writes)) && works(old(writes) + 1))
      ensures ok ==> (marked <==> works(old(writes) + 2))
      ensures ok ==> Mem() == DeletedDms(old(Mem()), channelId) && Synced()
      ensures ok ==> disk.marker == if marked then Some(DmChats(old(Mem()), channelId)) else old(disk).marker
      ensures !ok ==> !marked && Mem() == old(Mem())
      ensures !ok ==> writes >= 2 && (works(writes - 2) && works(writes - 1) ==> Synced())
      ensures !ok ==> FilesOldOrNew(disk, old(disk), old(Mem()), DeletedDms(old(Mem()), channelId))
      ensures forall k :: |old(trail)| <= k < |trail| ==>
                FilesOldOrNew(trail[k], old(disk), old(Mem()), DeletedDms(old(Mem()), channelId))
                || trail[k] == Disk(DeletedDms(old(Mem()), channelId).chats, DeletedDms(old(Mem()), channelId).messages,
                                    Some(DmChats(old(Mem()), channelId)))
    {
      var dmChats := set c | c in chats && IsDmChat(channelId, c);
      ok := DeleteDms(dmChats);
      marked := false;
      if ok { marked := SaveMarker(dmChats); }
    }

    /** Oldest message with this id in this chat. */
    method FindMessage(chatId: string, messageId: string) returns (k: Option<nat>)
      ensures k == FirstMatch(messages, chatId, messageId)
    {
      for i := 0 to |messages|
        invariant forall j :: 0 <= j < i ==> messages[j].chatId != chatId || messages[j].id != messageId
      {
        if messages[i].chatId == chatId && messages[i].id == messageId { return Some(i); }
      }
      return None;
    }

    /** Scan the chat from its newest message, adding missing markers in place on the way. */
    method LastVisible(chatId: string) returns (visible: Option<Message>)
      modifies this`messages
      ensures Scan(messages, visible) == ScanChat(old(messages), chatId, frames)
    {
      var i := |messages|;
      ghost var was, tail := messages, [];
      assert was[..i] == was;
      while i > 0
        invariant 0 <= i <= |was| && messages == was[..i] + tail
        invariant ScanChat(was, chatId, frames) == Below(ScanChat(was[..i], chatId, frames), tail)
      {
        i := i - 1;
        ghost var older := was[..i];
        assert messages == older + ([was[i]] + tail) by { assert was[..i + 1] == older + [was[i]]; }
        var m := messages[i];
        assert ScanChat(was, chatId, frames) == Stepped(was, i, chatId, frames, tail) by {
          ScanStep(was, i, chatId, frames, tail);
        }
        if m.chatId == chatId {
          m := EnsureMarker(m, frames);
          assert messages[i := m] == older + ([m] + tail) by { SetInMiddle(older, was[i], tail, m); }
          messages := messages[i := m];
          if m.mca != Some(ControlFrame) {
            return Some(m);
          }
        }
        tail := [m] + tail;
      }
      visible := None;
    }

    method RefreshEntry(chatId: string)
      requires chatId in chats
      modifies this`chats, this`messages
      ensures Mem() == Refreshed(old(Mem()), chatId, frames)
    {
      var c := chats[chatId];
      var visible := LastVisible(chatId);
      if visible.Some? {
        c := c.(lastMessage := Preview(visible.value), lastTime := visible.value.time, lastTs := visible.value.ts);
      } else {
        c := c.(lastMessage := "", lastTime := "", lastTs := None);
      }
      chats := chats[chatId := c.(unread := 0)];
    }

    /** Undo a removal in memory, then rewrite the files from it. */
    method PutBack(k: nat, deleted: Message, entry: Option<Chat>, ghost from: nat, ghost was: Disk, ghost after: Memory)
      requires Valid() && k <= |messages| < historyCap
      requires FilesOldOrNew(disk, was, Memory(was.chats, was.messages), after)
      requires CrashSafe(trail, from, was, Memory(was.chats, was.messages), after)
      modifies this
      ensures Valid() && messages == Insert(old(messages), k, deleted)
      ensures writes >= 2 && (works(writes - 2) && works(writes - 1) ==> Synced())
      ensures chats == if entry.Some? then old(chats)[deleted.chatId := entry.value] else old(chats)
      ensures FilesOldOrNew(disk, was, Mem(), after) && CrashSafe(trail, from, was, Mem(), after)
    {
      messages := messages[..k] + [deleted] + messages[k..];
      if entry.Some? { chats := chats[deleted.chatId := entry.value]; }
      Resync(false, from, was, after);
    }

    /** Second half of a deletion whose message file is written: refresh the entry, or put everything back. */
    method RefreshAndSave(k: nat, deleted: Message, ghost from: nat, ghost was: Disk, ghost mem: Memory)
      returns (ok: bool)
      requires Valid() && k < |mem.messages| <= historyCap && deleted == mem.messages[k] && deleted.chatId in mem.chats
      requires Mem() == Memory(mem.chats, Without(mem.messages, k))
      requires disk == was.(messages := messages)
      requires CrashSafe(trail, from, was, Memory(was.chats, was.messages), DeletionOnDisk(mem, k, frames))
      modifies this
      ensures Valid() && ok == works(old(writes))
      ensures ok ==> Mem() == DeletedMessage(mem, k, frames) && disk == was.(messages := old(messages), chats := chats)
      ensures ok ==> CrashSafe(trail, from, was, Memory(was.chats, was.messages), DeletionOnDisk(mem, k, frames))
      ensures !ok ==> chats == mem.chats && (messages == mem.messages <==> CleanDeletion(mem, k, frames))
      ensures !ok ==> writes >= 2 && (works(writes - 2) && works(writes - 1) ==> Synced())
      ensures !ok ==> FilesOldOrNew(disk, was, Mem(), DeletionOnDisk(mem, k, frames))
                      && CrashSafe(trail, from, was, Mem(), DeletionOnDisk(mem, k, frames))
    {
      var entry := chats[deleted.chatId];
      RefreshEntry(deleted.chatId);
      assert Mem() == DeletedMessage(mem, k, frames);
      ok := SaveChats();
      if !ok {
        PutBack(k, deleted, Some(entry), from, was, DeletionOnDisk(mem, k, frames));
        assert chats == mem.chats;
        assert messages == mem.messages <==> CleanDeletion(mem, k, frames) by {
          PuttingBackRestoresExactlyWhen(mem.messages, k, frames);
        }
      }
    }

    /** Removes message `k` and refreshes its chat's entry.  On success the message file holds the history
        without it, and agrees with memory exactly when the refresh added no marker.  A failed call puts the
        chats back, and the messages exactly when it failed before the refresh or the refresh added none. */
    method DeleteAt(k: nat) returns (ok: bool, refreshed: bool)
      requires Valid() && k < |messages|
      modifies this
      ensures Valid()
      ensures ok <==> works(old(writes)) && (old(messages[k]).chatId in old(chats) ==> works(old(writes) + 1))
      ensures refreshed <==> works(old(writes)) && old(messages[k]).chatId in old(chats)
      ensures ok ==> Mem() == DeletedMessage(old(Mem()), k, frames) && disk.messages == Without(old(messages), k)
      ensures ok ==> disk.chats == if old(messages[k]).chatId in old(chats) then chats else old(disk).chats
      ensures ok ==> (disk.messages == messages <==> CleanDeletion(old(Mem()), k, frames))
      ensures !ok ==> chats == old(chats)
      ensures !ok ==> (messages == old(messages) <==> !refreshed || CleanDeletion(old(Mem()), k, frames))
      ensures !ok ==> writes >= 2 && (works(writes - 2) && works(writes - 1) ==> Synced())
      ensures FilesOldOrNew(disk, old(disk), if ok then old(Mem()) else Mem(), DeletionOnDisk(old(Mem()), k, frames))
      ensures CrashSafe(trail, |old(trail)|, old(disk), if ok then old(Mem()) else Mem(),
                        DeletionOnDisk(old(Mem()), k, frames))
    {
      ghost var mem, after := Mem(), DeletionOnDisk(Mem(), k, frames);
      var deleted := messages[k];
      messages := messages[..k] + messages[k + 1..];
      refreshed := false;
      ok := SaveMessages();
      if !ok {
        PutBack(k, deleted, None, |old(trail)|, old(disk), after);
        InsertUndoesWithout(mem.messages, k);
        return;
      }
      assert after.messages == DeletedMessage(mem, k, frames).messages <==> CleanDeletion(mem, k, frames) by {
        DeletionIsPlainExactlyWhenClean(mem, k, frames);
      }
      if deleted.chatId !in chats { return; }
      refreshed := true;
      ok := RefreshAndSave(k, deleted, |old(trail)|, old(disk), mem);
    }

    method DeleteMessage(chatId: string, messageId: string) returns (r: Outcome)
      requires Valid()
      modifies this
      ensures Valid()
      ensures r == NotFound <==> FirstMatch(old(messages), chatId, messageId).None?
      ensures r != NotFound ==>
                (r == Deleted <==> works(old(writes)) && (chatId in old(chats) ==> works(old(writes) + 1)))
      ensures r == StorageFailed ==> writes >= 2 && (works(writes - 2) && works(writes - 1) ==> Synced())
      ensures r == NotFound ==> Mem() == old(Mem()) && disk == old(disk) && trail == old(trail)
      ensures var k := FirstMatch(old(messages), chatId, messageId);
              && (r == Deleted ==> Mem() == DeletedMessage(old(Mem()), k.value, frames)
                                   && disk.messages == Without(old(messages), k.value))
              && (r != NotFound && CleanDeletion(old(Mem()), k.value, frames) ==>
                    && (r == Deleted && old(Synced()) ==> Synced())
                    && (r == StorageFailed ==> Mem() == old(Mem()))
                    && (r == StorageFailed ==>
                        FilesOldOrNew(disk, old(disk), Mem(), DeletedMessage(Mem(), k.value, frames))))
    {
      var found := FindMessage(chatId, messageId);
      if found.None? { return NotFound; }
      ghost var mem := Mem();
      DeletionIsPlainExactlyWhenClean(mem, found.value, frames);
      var ok, _ := DeleteAt(found.value);
      r := if ok then Deleted else StorageFailed;
    }
  }

  /** What deleting message `k` sets out to write: the refreshed entry, and the history before the scan. */
  ghost function DeletionOnDisk(mem: Memory, k: nat, frames: Frames): Memory
    requires k < |mem.messages|
  {
    Memory(DeletedMessage(mem, k, frames).chats, Without(mem.messages, k))
  }
}
