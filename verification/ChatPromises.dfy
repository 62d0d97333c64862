/** What a deletion leaves, told of the messages and the chats themselves. */
module ChatPromises {
  import opened Options
  import opened ChatRecords

  // ------------------------------------------------------------------ order

  /** `places` says where in `whole` the messages of `part` stand, in the same order. */
  ghost predicate Places(places: seq<nat>, part: seq<Message>, whole: seq<Message>) {
    && |places| == |part|
    && (forall i :: 0 <= i < |part| ==> places[i] < |whole| && whole[places[i]] == part[i])
    && (forall i, j :: 0 <= i < j < |part| ==> places[i] < places[j])
  }

  ghost predicate InOrderOf(part: seq<Message>, whole: seq<Message>) {
    exists places :: Places(places, part, whole)
  }

  lemma {:induction false} KeepIsInOrder(ms: seq<Message>, p: Message -> bool)
    ensures InOrderOf(Keep(ms, p), ms)
  {
    if ms == [] {
      assert Places([], Keep(ms, p), ms);
    } else {
      KeepIsInOrder(ms[1..], p);
      var places :| Places(places, Keep(ms[1..], p), ms[1..]);
      OneFurther(places, Keep(ms[1..], p), ms);
      if !p(ms[0]) { assert Keep(ms, p) == Keep(ms[1..], p); }
    }
  }

  /** A first message in front moves every place by one. */
  lemma OneFurther(places: seq<nat>, part: seq<Message>, whole: seq<Message>)
    requires whole != [] && Places(places, part, whole[1..])
    ensures InOrderOf(part, whole) && InOrderOf([whole[0]] + part, whole)
  {
    var later := seq(|places|, i requires 0 <= i < |places| => places[i] + 1);
    assert Places(later, part, whole);
    assert Places([0] + later, [whole[0]] + part, whole);
  }

  // ------------------------------------------------------------------ clearing and deleting one chat

  /** `after` holds the messages of `before` outside this chat, each as often as before and in the same
      order, and none of the chat. */
  ghost predicate WithoutTheChat(after: seq<Message>, before: seq<Message>, chatId: string) {
    && InOrderOf(after, before)
    && (forall m: Message :: multiset(after)[m] == if m.chatId == chatId then 0 else multiset(before)[m])
  }

  lemma KeepWithoutTheChat(ms: seq<Message>, chatId: string)
    ensures WithoutTheChat(Keep(ms, NotOf(chatId)), ms, chatId)
  {
    KeepIsInOrder(ms, NotOf(chatId));
    forall m: Message
      ensures multiset(Keep(ms, NotOf(chatId)))[m] == if m.chatId == chatId then 0 else multiset(ms)[m]
    {
      KeepIsExact(ms, NotOf(chatId), m);
    }
  }

  /** Clearing erases the chat's messages and no other; its entry keeps the name alone, and every other
      entry stays as it is. */
  lemma ClearingErasesTheChatOnly(mem: Memory, chatId: string)
    ensures var after := ClearedChat(mem, chatId);
            && WithoutTheChat(after.messages, mem.messages, chatId)
            && after.chats.Keys == mem.chats.Keys
            && (forall c :: c in mem.chats ==>
                  after.chats[c] == if c == chatId then Chat(mem.chats[c].name, "", "", None, 0) else mem.chats[c])
  {
    KeepWithoutTheChat(mem.messages, chatId);
  }

  /** Deleting erases the chat's messages and its entry, and nothing else. */
  lemma DeletingErasesTheChatOnly(mem: Memory, chatId: string)
    ensures var after := DeletedChat(mem, chatId);
            && WithoutTheChat(after.messages, mem.messages, chatId)
            && after.chats.Keys == mem.chats.Keys - {chatId}
            && (forall c :: c in after.chats ==> after.chats[c] == mem.chats[c])
  {
    KeepWithoutTheChat(mem.messages, chatId);
  }

  // ------------------------------------------------------------------ deleting all direct chats

  /** Deleting the direct chats keeps the messages of the primary channel and of the `channel:` chats and no
      other, and takes the entries that start with an exclamation mark, the primary channel's excepted. */
  lemma DeletingDmsKeepsTheChannels(mem: Memory, channelId: string)
    ensures var after := DeletedDms(mem, channelId);
            && InOrderOf(after.messages, mem.messages)
            && (forall m: Message :: multiset(after.messages)[m]
                  == if m.chatId == channelId || (|m.chatId| >= 8 && m.chatId[..8] == "channel:")
                     then multiset(mem.messages)[m] else 0)
            && (forall c :: c in after.chats <==>
                  c in mem.chats && (c == channelId || c == "" || c[0] != '!'))
            && (forall c :: c in after.chats ==> after.chats[c] == mem.chats[c])
  {
    var p := m => IsChannelMessage(channelId, m);
    KeepIsInOrder(mem.messages, p);
    forall m: Message ensures multiset(Keep(mem.messages, p))[m] == if p(m) then multiset(mem.messages)[m] else 0 {
      KeepIsExact(mem.messages, p, m);
    }
    forall c: string ensures StartsWith(c, "!") <==> c != "" && c[0] == '!' {
      assert c != "" ==> c[..1] == [c[0]];
    }
  }

  /** The marker names the entries the deletion took: each, and no other. */
  lemma MarkerNamesTheDeleted(mem: Memory, channelId: string)
    ensures DmChats(mem, channelId) == mem.chats.Keys - DeletedDms(mem, channelId).chats.Keys
  {
  }

  // ------------------------------------------------------------------ the refreshed entry

  /** The marker a message is read with: the stored one, or for a message of someone else its text's. */
  function MarkerOf(m: Message, frames: Frames): Option<Marker> {
    if m.mca.Some? || m.mine then m.mca else frames(m.text)
  }

  lemma ReadingAddsTheMarker(m: Message, frames: Frames)
    ensures EnsureMarker(m, frames) == m.(mca := MarkerOf(m, frames))
    ensures Hidden(m, frames) <==> MarkerOf(m, frames) == Some(ControlFrame)
  {
  }

  /** Message `i` is the newest of its chat that is no control frame. */
  ghost predicate NewestVisible(ms: seq<Message>, chatId: string, frames: Frames, i: nat) {
    && i < |ms| && ms[i].chatId == chatId && MarkerOf(ms[i], frames) != Some(ControlFrame)
    && forall j :: i < j < |ms| && ms[j].chatId == chatId ==> MarkerOf(ms[j], frames) == Some(ControlFrame)
  }

  /** Every message of the chat is a control frame. */
  ghost predicate NothingVisible(ms: seq<Message>, chatId: string, frames: Frames) {
    forall i :: 0 <= i < |ms| && ms[i].chatId == chatId ==> MarkerOf(ms[i], frames) == Some(ControlFrame)
  }

  /** The entry shows message `m`: its text, or a paperclip for a transfer. */
  function Shown(name: string, m: Message, frames: Frames): Chat {
    Chat(name, if MarkerOf(m, frames).None? then m.text else "\U{1F4CE}", m.time, m.ts, 0)
  }

  /** A scan finds the newest visible message, read with its marker. */
  lemma ScanFindsTheNewest(ms: seq<Message>, chatId: string, frames: Frames, i: nat)
    requires NewestVisible(ms, chatId, frames, i)
    ensures ScanChat(ms, chatId, frames).visible == Some(ms[i].(mca := MarkerOf(ms[i], frames)))
  {
    VisibleIsNewest(ms, chatId, frames);
    forall j | 0 <= j < |ms|
      ensures Hidden(ms[j], frames) <==> MarkerOf(ms[j], frames) == Some(ControlFrame)
    {
      ReadingAddsTheMarker(ms[j], frames);
    }
    ReadingAddsTheMarker(ms[i], frames);
    assert !Hidden(ms[i], frames) && ScanChat(ms, chatId, frames).visible.Some?;
    var k :| 0 <= k < |ms| && Scanned(ms, chatId, frames, k) && !Hidden(ms[k], frames)
             && ScanChat(ms, chatId, frames).visible.value == EnsureMarker(ms[k], frames);
    if k < i { assert false; } else if k > i { assert false; }
  }

  /** Refreshing changes no other entry, keeps the name, resets the unread count, and shows the newest
      visible message or nothing. */
  lemma RefreshShowsTheNewest(mem: Memory, chatId: string, frames: Frames)
    requires chatId in mem.chats
    ensures var after := Refreshed(mem, chatId, frames);
            && after.chats.Keys == mem.chats.Keys
            && (forall c :: c in mem.chats && c != chatId ==> after.chats[c] == mem.chats[c])
            && (forall i: nat :: NewestVisible(mem.messages, chatId, frames, i) ==>
                  after.chats[chatId] == Shown(mem.chats[chatId].name, mem.messages[i], frames))
            && (NothingVisible(mem.messages, chatId, frames) ==>
                  after.chats[chatId] == Chat(mem.chats[chatId].name, "", "", None, 0))
  {
    forall i: nat | NewestVisible(mem.messages, chatId, frames, i)
      ensures Refreshed(mem, chatId, frames).chats[chatId] == Shown(mem.chats[chatId].name, mem.messages[i], frames)
    {
      ScanFindsTheNewest(mem.messages, chatId, frames, i);
    }
    if NothingVisible(mem.messages, chatId, frames) {
      VisibleIsNewest(mem.messages, chatId, frames);
      forall j | 0 <= j < |mem.messages|
        ensures Hidden(mem.messages[j], frames) <==> MarkerOf(mem.messages[j], frames) == Some(ControlFrame)
      {
        ReadingAddsTheMarker(mem.messages[j], frames);
      }
    }
  }

  /** One of the two cases always applies. */
  lemma {:induction false} VisibleOrNothing(ms: seq<Message>, chatId: string, frames: Frames)
    ensures NothingVisible(ms, chatId, frames) <==> !exists i: nat :: NewestVisible(ms, chatId, frames, i)
  {
    if ms != [] {
      var n := |ms| - 1;
      VisibleOrNothing(ms[..n], chatId, frames);
      if ms[n].chatId == chatId && MarkerOf(ms[n], frames) != Some(ControlFrame) {
        assert NewestVisible(ms, chatId, frames, n);
      } else if !NothingVisible(ms[..n], chatId, frames) {
        var i: nat :| NewestVisible(ms[..n], chatId, frames, i);
        assert NewestVisible(ms, chatId, frames, i) by {
          assert forall j :: 0 <= j < n ==> ms[..n][j] == ms[j];
        }
      }
    }
  }

  // ------------------------------------------------------------------ deleting one message

  /** A message as it was, or with the marker it is read with. */
  predicate SameButMarked(after: Message, before: Message, frames: Frames) {
    after == before || after == before.(mca := MarkerOf(before, frames))
  }

  /** Deleting message `k` takes that message alone.  The others stay in place, at most marked; the entry of
      its chat shows the newest of the rest, and other entries stay. */
  lemma DeletingTakesOneMessage(mem: Memory, k: nat, frames: Frames)
    requires k < |mem.messages|
    ensures var after, ms := DeletedMessage(mem, k, frames), mem.messages;
            && |after.messages| == |ms| - 1
            && (forall i :: 0 <= i < k ==> SameButMarked(after.messages[i], ms[i], frames))
            && (forall i :: k < i < |ms| ==> SameButMarked(after.messages[i - 1], ms[i], frames))
            && after.chats.Keys == mem.chats.Keys
            && (forall c :: c in mem.chats && c != ms[k].chatId ==> after.chats[c] == mem.chats[c])
            && (ms[k].chatId in mem.chats ==>
                  after.chats[ms[k].chatId]
                  == Refreshed(Memory(mem.chats, ms[..k] + ms[k + 1..]), ms[k].chatId, frames).chats[ms[k].chatId])
  {
    var ms := mem.messages;
    var rest := Without(ms, k);
    forall i | 0 <= i < |rest|
      ensures SameButMarked(DeletedMessage(mem, k, frames).messages[i], rest[i], frames)
    {
      ScanMarksExactlyTheScanned(rest, ms[k].chatId, frames, i);
      ReadingAddsTheMarker(rest[i], frames);
    }
    assert forall i :: 0 <= i < k ==> rest[i] == ms[i];
    assert forall i :: k < i < |ms| ==> rest[i - 1] == ms[i];
  }
}
