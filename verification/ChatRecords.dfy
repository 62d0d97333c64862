/** Chat histories as values: which messages a deletion keeps and what a chat list entry shows. */
module ChatRecords {
  import opened Options

  const PAPERCLIP := "\U{1F4CE}"

  datatype Marker = OfferFrame | ControlFrame | FileSent

  /** `mca` is the stored marker; a message from before markers existed has none. */
  datatype Message = Message(id: string, chatId: string, mine: bool, text: string,
                             time: string, ts: Option<real>, mca: Option<Marker>)

  datatype Chat = Chat(name: string, lastMessage: string, lastTime: string, lastTs: Option<real>, unread: nat)

  datatype Memory = Memory(chats: map<string, Chat>, messages: seq<Message>)

  /** Marker of a text, None for an ordinary message (`marker_for_text`). */
  type Frames = string -> Option<Marker>

  predicate StartsWith(s: string, p: string) {
    |p| <= |s| && s[..|p|] == p
  }

  // ------------------------------------------------------------------ keeping some of the messages

  function Keep(ms: seq<Message>, p: Message -> bool): (r: seq<Message>)
    ensures |r| <= |ms|
  {
    if ms == [] then [] else (if p(ms[0]) then [ms[0]] else []) + Keep(ms[1..], p)
  }

  /** Every occurrence of a wanted message stays, no other does. */
  lemma {:induction false} KeepIsExact(ms: seq<Message>, p: Message -> bool, m: Message)
    ensures multiset(Keep(ms, p))[m] == if p(m) then multiset(ms)[m] else 0
  {
    if ms != [] {
      KeepIsExact(ms[1..], p, m);
      assert ms == [ms[0]] + ms[1..];
    }
  }

  function NotOf(chatId: string): Message -> bool {
    (m: Message) => m.chatId != chatId
  }

  predicate IsChannelMessage(channelId: string, m: Message) {
    m.chatId == channelId || StartsWith(m.chatId, "channel:")
  }

  predicate IsDmChat(channelId: string, chatId: string) {
    chatId != channelId && StartsWith(chatId, "!")
  }

  // ------------------------------------------------------------------ what each route deletes

  function Cleared(c: Chat): Chat {
    c.(lastMessage := "", lastTime := "", lastTs := None, unread := 0)
  }

  function ClearedChat(mem: Memory, chatId: string): Memory {
    Memory(if chatId in mem.chats then mem.chats[chatId := Cleared(mem.chats[chatId])] else mem.chats,
           Keep(mem.messages, NotOf(chatId)))
  }

  function DeletedChat(mem: Memory, chatId: string): Memory {
    Memory(mem.chats - {chatId}, Keep(mem.messages, NotOf(chatId)))
  }

  function DmChats(mem: Memory, channelId: string): set<string> {
    set c | c in mem.chats && IsDmChat(channelId, c)
  }

  function DeletedDms(mem: Memory, channelId: string): Memory {
    Memory(mem.chats - DmChats(mem, channelId), Keep(mem.messages, m => IsChannelMessage(channelId, m)))
  }

  // ------------------------------------------------------------------ previews and late markers

  /** A stored frame that predates markers: reading it adds its marker in place. */
  predicate Unmarked(m: Message, frames: Frames) {
    m.mca.None? && !m.mine && frames(m.text).Some?
  }

  function EnsureMarker(m: Message, frames: Frames): Message {
    if Unmarked(m, frames) then m.(mca := frames(m.text)) else m
  }

  predicate Hidden(m: Message, frames: Frames) {
    EnsureMarker(m, frames).mca == Some(ControlFrame)
  }

  function Preview(m: Message): string {
    match m.mca
    case None => m.text
    case Some(ControlFrame) => ""
    case Some(_) => PAPERCLIP
  }

  /** The scan looks at message `i`: it belongs to the chat and everything newer in the chat is hidden. */
  ghost predicate Scanned(ms: seq<Message>, chatId: string, frames: Frames, i: int)
    requires 0 <= i < |ms|
  {
    ms[i].chatId == chatId && forall j :: i < j < |ms| && ms[j].chatId == chatId ==> Hidden(ms[j], frames)
  }

  datatype Scan = Scan(messages: seq<Message>, visible: Option<Message>)

  /** `last_visible_message` over one chat: the newest message that is not a control frame, and the
      history with the markers added on the way. */
  function ScanChat(ms: seq<Message>, chatId: string, frames: Frames): (r: Scan)
    ensures |r.messages| == |ms|
  {
    if ms == [] then Scan([], None)
    else
      var front, m := ms[..|ms| - 1], ms[|ms| - 1];
      if m.chatId == chatId && !Hidden(m, frames) then
        Scan(front + [EnsureMarker(m, frames)], Some(EnsureMarker(m, frames)))
      else
        var r := ScanChat(front, chatId, frames);
        Scan(r.messages + [if m.chatId == chatId then EnsureMarker(m, frames) else m], r.visible)
  }

  /** A scan of the older messages seen as a scan of the whole, `tail` being the newer ones. */
  function Below(scan: Scan, tail: seq<Message>): Scan {
    Scan(scan.messages + tail, scan.visible)
  }

  /** The scan decided at message `i`, or passed on to the older ones. */
  function Stepped(ms: seq<Message>, i: nat, chatId: string, frames: Frames, tail: seq<Message>): Scan
    requires i < |ms|
  {
    var m := if ms[i].chatId == chatId then EnsureMarker(ms[i], frames) else ms[i];
    if m.chatId == chatId && m.mca != Some(ControlFrame) then Scan(ms[..i] + ([m] + tail), Some(m))
    else Below(ScanChat(ms[..i], chatId, frames), [m] + tail)
  }

  lemma ScanStep(ms: seq<Message>, i: nat, chatId: string, frames: Frames, tail: seq<Message>)
    requires i < |ms|
    ensures Below(ScanChat(ms[..i + 1], chatId, frames), tail) == Stepped(ms, i, chatId, frames, tail)
  {
    assert ms[..i + 1][..i] == ms[..i] && ms[..i + 1][i] == ms[i];
    var m := if ms[i].chatId == chatId then EnsureMarker(ms[i], frames) else ms[i];
    var deeper := ScanChat(ms[..i], chatId, frames).messages;
    assert (deeper + [m]) + tail == deeper + ([m] + tail);
    assert (ms[..i] + [m]) + tail == ms[..i] + ([m] + tail);
  }

  lemma SetInMiddle(older: seq<Message>, x: Message, tail: seq<Message>, m: Message)
    ensures (older + ([x] + tail))[|older| := m] == older + ([m] + tail)
  {
  }

  /** Markers are added exactly to the scanned messages. */
  lemma {:induction false} ScanMarksExactlyTheScanned(ms: seq<Message>, chatId: string, frames: Frames, i: nat)
    requires i < |ms|
    ensures ScanChat(ms, chatId, frames).messages[i]
         == if Scanned(ms, chatId, frames, i) then EnsureMarker(ms[i], frames) else ms[i]
  {
    var front, m := ms[..|ms| - 1], ms[|ms| - 1];
    if i < |front| {
      ScanMarksExactlyTheScanned(front, chatId, frames, i);
      if m.chatId == chatId && !Hidden(m, frames) {
        assert !Scanned(ms, chatId, frames, i);
      } else {
        assert forall j :: 0 <= j < |front| ==> front[j] == ms[j];
        assert Scanned(ms, chatId, frames, i) <==> Scanned(front, chatId, frames, i);
      }
    }
  }

  /** The visible message is the newest of the chat that is no control frame. */
  lemma {:induction false} VisibleIsNewest(ms: seq<Message>, chatId: string, frames: Frames)
    ensures var v := ScanChat(ms, chatId, frames).visible;
            if v.Some? then exists i :: 0 <= i < |ms| && Scanned(ms, chatId, frames, i) && !Hidden(ms[i], frames)
                                        && v.value == EnsureMarker(ms[i], frames)
            else forall i :: 0 <= i < |ms| && ms[i].chatId == chatId ==> Hidden(ms[i], frames)
  {
    if ms != [] {
      var front, m := ms[..|ms| - 1], ms[|ms| - 1];
      if m.chatId == chatId && !Hidden(m, frames) {
        assert Scanned(ms, chatId, frames, |ms| - 1);
      } else {
        VisibleIsNewest(front, chatId, frames);
        var v := ScanChat(front, chatId, frames).visible;
        assert forall j :: 0 <= j < |front| ==> front[j] == ms[j];
        if v.Some? {
          var i :| 0 <= i < |front| && Scanned(front, chatId, frames, i) && !Hidden(front[i], frames)
                   && v.value == EnsureMarker(front[i], frames);
          assert Scanned(ms, chatId, frames, i) && ms[i] == front[i];
        }
      }
    }
  }

  /** No message that a scan would look at still lacks its marker. */
  ghost predicate MarkersComplete(ms: seq<Message>, chatId: string, frames: Frames) {
    forall i :: 0 <= i < |ms| && Scanned(ms, chatId, frames, i) ==> !Unmarked(ms[i], frames)
  }

  lemma ScanChangesNothingExactlyWhen(ms: seq<Message>, chatId: string, frames: Frames)
    ensures ScanChat(ms, chatId, frames).messages == ms <==> MarkersComplete(ms, chatId, frames)
  {
    var r := ScanChat(ms, chatId, frames).messages;
    forall i | 0 <= i < |ms|
      ensures r[i] == if Scanned(ms, chatId, frames, i) then EnsureMarker(ms[i], frames) else ms[i]
    {
      ScanMarksExactlyTheScanned(ms, chatId, frames, i);
    }
    if r == ms {
      forall i | 0 <= i < |ms| && Scanned(ms, chatId, frames, i) ensures !Unmarked(ms[i], frames) {
        assert r[i] == ms[i];
      }
    }
  }

  function Summarised(c: Chat, visible: Option<Message>): Chat {
    match visible
    case None => Cleared(c)
    case Some(m) => c.(lastMessage := Preview(m), lastTime := m.time, lastTs := m.ts, unread := 0)
  }

  function Without(ms: seq<Message>, k: nat): seq<Message>
    requires k < |ms|
  {
    ms[..k] + ms[k + 1..]
  }

  function Insert(ms: seq<Message>, k: nat, m: Message): seq<Message>
    requires k <= |ms|
  {
    ms[..k] + [m] + ms[k..]
  }

  lemma InsertUndoesWithout(ms: seq<Message>, k: nat)
    requires k < |ms|
    ensures Insert(Without(ms, k), k, ms[k]) == ms
  {
    assert Without(ms, k)[..k] == ms[..k] && Without(ms, k)[k..] == ms[k + 1..];
    assert ms == ms[..k] + [ms[k]] + ms[k + 1..];
  }

  lemma InsertIsInjective(a: seq<Message>, b: seq<Message>, k: nat, m: Message)
    requires k <= |a| == |b| && Insert(a, k, m) == Insert(b, k, m)
    ensures a == b
  {
    assert a == Insert(a, k, m)[..k] + Insert(a, k, m)[k + 1..];
    assert b == Insert(b, k, m)[..k] + Insert(b, k, m)[k + 1..];
  }

  /** Where a message with this id in this chat first occurs. */
  function FirstMatch(ms: seq<Message>, chatId: string, id: string): (k: Option<nat>)
    ensures k.Some? ==> k.value < |ms| && ms[k.value].chatId == chatId && ms[k.value].id == id
    ensures forall i :: 0 <= i < (if k.Some? then k.value else |ms|) ==> ms[i].chatId != chatId || ms[i].id != id
  {
    if ms == [] then None
    else if ms[0].chatId == chatId && ms[0].id == id then Some(0)
    else match FirstMatch(ms[1..], chatId, id) case None => None case Some(k) => Some(k + 1)
  }

  /** Scan a chat and let its list entry summarise what the scan found. */
  function Refreshed(mem: Memory, chatId: string, frames: Frames): Memory
    requires chatId in mem.chats
  {
    var scan := ScanChat(mem.messages, chatId, frames);
    Memory(mem.chats[chatId := Summarised(mem.chats[chatId], scan.visible)], scan.messages)
  }

  /** What deleting message `k` aims at: the message is gone and the entry, if any, is refreshed. */
  function DeletedMessage(mem: Memory, k: nat, frames: Frames): Memory
    requires k < |mem.messages|
  {
    var chatId, rest := mem.messages[k].chatId, Without(mem.messages, k);
    if chatId in mem.chats then Refreshed(Memory(mem.chats, rest), chatId, frames) else Memory(mem.chats, rest)
  }

  /** Refreshing after the removal adds no marker. */
  ghost predicate CleanDeletion(mem: Memory, k: nat, frames: Frames)
    requires k < |mem.messages|
  {
    mem.messages[k].chatId !in mem.chats || MarkersComplete(Without(mem.messages, k), mem.messages[k].chatId, frames)
  }

  lemma DeletionIsPlainExactlyWhenClean(mem: Memory, k: nat, frames: Frames)
    requires k < |mem.messages|
    ensures DeletedMessage(mem, k, frames).messages == Without(mem.messages, k) <==> CleanDeletion(mem, k, frames)
  {
    ScanChangesNothingExactlyWhen(Without(mem.messages, k), mem.messages[k].chatId, frames);
  }

  /** Putting the message back after the scan restores the history exactly when the scan added nothing. */
  lemma PuttingBackRestoresExactlyWhen(ms: seq<Message>, k: nat, frames: Frames)
    requires k < |ms|
    ensures Insert(ScanChat(Without(ms, k), ms[k].chatId, frames).messages, k, ms[k]) == ms
            <==> MarkersComplete(Without(ms, k), ms[k].chatId, frames)
  {
    var rest := Without(ms, k);
    var scanned := ScanChat(rest, ms[k].chatId, frames).messages;
    ScanChangesNothingExactlyWhen(rest, ms[k].chatId, frames);
    InsertUndoesWithout(ms, k);
    if Insert(scanned, k, ms[k]) == ms { InsertIsInjective(scanned, rest, k, ms[k]); }
  }

  /** A history where it does not: an old unmarked offer below the deleted message gets its marker. */
  lemma PuttingBackCanDiffer()
    ensures exists ms: seq<Message>, frames: Frames ::
              |ms| == 2 && Insert(ScanChat(Without(ms, 1), ms[1].chatId, frames).messages, 1, ms[1]) != ms
  {
    var frames: Frames := s => if s == "MCA1:x" then Some(OfferFrame) else None;
    var offer := Message("1", "!a", false, "MCA1:x", "", None, None);
    var reply := Message("2", "!a", false, "hello", "", None, None);
    var ms := [offer, reply];
    assert Without(ms, 1) == [offer];
    assert Scanned([offer], "!a", frames, 0) && Unmarked([offer][0], frames);
    PuttingBackRestoresExactlyWhen(ms, 1, frames);
  }
}
