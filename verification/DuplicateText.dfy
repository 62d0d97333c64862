/** The duplicate-text filter (`is_duplicate_text` and `cleanup_seen_ids` in server.py).  The table is
    pruned on every check and by the clean-up thread; its answers are compared with one never pruned. */
module DuplicateText {
  import opened Options
  import opened PyText

  const WINDOW := 15.0
  const CLEANUP_AGE := 60.0

  function Key(sender: string, nodeId: string, text: string): string {
    KeyOfParts(Strip(sender), Strip(nodeId), Strip(text))
  }

  function KeyOfParts(sender: string, nodeId: string, text: string): string {
    if nodeId != "" then sender + "|" + nodeId + "|" + text else sender + "|" + text
  }

  type Table = map<string, real>

  function Prune(t: Table, now: real, age: real): Table {
    map k | k in t && !(now - t[k] > age) :: t[k]
  }

  predicate Recent(t: Table, key: string, now: real) {
    key in t && now - t[key] < WINDOW
  }

  // ------------------------------------------------------------------ the filter

  class Filter {
    var seen: Table

    constructor ()
      ensures seen == map[]
    {
      seen := map[];
    }

    /** A blank text always counts as a duplicate and is not recorded. */
    method IsDuplicate(sender: string, nodeId: string, text: string, now: real) returns (duplicate: bool)
      modifies this
      ensures (duplicate, seen) == Checked(old(seen), Check(sender, nodeId, text, now))
    {
      if Strip(text) == "" { return true; }
      var key := Key(sender, nodeId, text);
      var expired := set k | k in seen && now - seen[k] > WINDOW;
      seen := seen - expired;
      assert seen == Prune(old(seen), now, WINDOW);
      if key in seen && now - seen[key] < WINDOW { return true; }
      seen := seen[key := now];
      return false;
    }

    method CleanUp(now: real)
      modifies this
      ensures seen == Prune(old(seen), now, CLEANUP_AGE)
      ensures forall k :: k in seen <==> k in old(seen) && now - old(seen)[k] <= 60.0
    {
      var expired := set k | k in seen && now - seen[k] > CLEANUP_AGE;
      seen := seen - expired;
    }
  }

  // ------------------------------------------------------------------ whole runs

  datatype Event = Check(sender: string, nodeId: string, text: string, now: real) | CleanUp(now: real)

  function KeyOf(e: Event): string
    requires e.Check?
  {
    Key(e.sender, e.nodeId, e.text)
  }

  predicate IsBlankCheck(e: Event) {
    e.Check? && Strip(e.text) == ""
  }

  function Checked(t: Table, e: Event): (bool, Table)
    requires e.Check?
  {
    var pruned := Prune(t, e.now, WINDOW);
    if IsBlankCheck(e) then (true, t)
    else if Recent(pruned, KeyOf(e), e.now) then (true, pruned)
    else (false, pruned[KeyOf(e) := e.now])
  }

  function After(t: Table, e: Event): Table {
    if e.Check? then Checked(t, e).1 else Prune(t, e.now, CLEANUP_AGE)
  }

  function Run(events: seq<Event>): Table {
    if events == [] then map[] else After(Run(events[..|events| - 1]), events[|events| - 1])
  }

  /** The answer to check `i` of a run. */
  predicate Refused(events: seq<Event>, i: nat)
    requires i < |events| && events[i].Check?
  {
    Checked(Run(events[..i]), events[i]).0
  }

  predicate ClockRuns(events: seq<Event>) {
    forall i, j :: 0 <= i < j < |events| ==> events[i].now <= events[j].now
  }

  /** Reference: the table that is never pruned. */
  function Unpruned(events: seq<Event>): Table {
    if events == [] then map[]
    else
      var t, e := Unpruned(events[..|events| - 1]), events[|events| - 1];
      if !e.Check? || IsBlankCheck(e) || Recent(t, KeyOf(e), e.now) then t else t[KeyOf(e) := e.now]
  }

  /** The pruned table is part of the full one and misses only what is too old to matter at `now`. */
  ghost predicate Agrees(t: Table, full: Table, now: real) {
    && (forall k :: k in t ==> k in full && t[k] == full[k])
    && (forall k :: k in full && k !in t ==> now - full[k] >= WINDOW)
    && (forall k :: k in full ==> full[k] <= now)
  }

  lemma PruneAgrees(t: Table, full: Table, now: real, age: real)
    requires Agrees(t, full, now) && age >= WINDOW
    ensures Agrees(Prune(t, now, age), full, now)
  {
  }

  lemma {:induction false} RunAgrees(events: seq<Event>, now: real)
    requires ClockRuns(events) && (events != [] ==> events[|events| - 1].now <= now)
    ensures Agrees(Run(events), Unpruned(events), now)
  {
    if events != [] {
      var front, e := events[..|events| - 1], events[|events| - 1];
      RunAgrees(front, e.now);
      PruneAgrees(Run(front), Unpruned(front), e.now, WINDOW);
      PruneAgrees(Run(front), Unpruned(front), e.now, CLEANUP_AGE);
      assert Agrees(Run(events), Unpruned(events), e.now);
    }
  }

  /** Pruning is invisible: every check of every run is answered as by the table never pruned. */
  lemma PruningIsInvisible(events: seq<Event>, i: nat)
    requires ClockRuns(events) && i < |events| && events[i].Check?
    ensures Refused(events, i) <==>
        IsBlankCheck(events[i]) || Recent(Unpruned(events[..i]), KeyOf(events[i]), events[i].now)
  {
    var front := events[..i];
    assert forall j :: 0 <= j < i ==> front[j] == events[j];
    RunAgrees(front, events[i].now);
    PruneAgrees(Run(front), Unpruned(front), events[i].now, WINDOW);
  }

  ghost predicate AcceptedAs(events: seq<Event>, i: nat, key: string)
    requires i < |events|
  {
    events[i].Check? && KeyOf(events[i]) == key && !Refused(events, i)
  }

  /** The entry for `key`, if any, is the time of the last accepted copy among the first `n` events. */
  ghost predicate IsLastAccepted(entry: Option<real>, events: seq<Event>, n: nat, key: string)
    requires n <= |events|
  {
    && (forall j :: 0 <= j < n && AcceptedAs(events, j, key) ==> entry.Some? && events[j].now <= entry.value)
    && (entry.Some? ==> exists i :: 0 <= i < n && AcceptedAs(events, i, key) && entry.value == events[i].now)
  }

  function Entry(t: Table, key: string): Option<real> {
    if key in t then Some(t[key]) else None
  }

  lemma UnprunedStep(events: seq<Event>, n: nat, key: string)
    requires ClockRuns(events) && n < |events|
    ensures Entry(Unpruned(events[..n + 1]), key)
         == if AcceptedAs(events, n, key) then Some(events[n].now) else Entry(Unpruned(events[..n]), key)
  {
    assert events[..n + 1][..n] == events[..n] && events[..n + 1][n] == events[n];
    if events[n].Check? { PruningIsInvisible(events, n); }
  }

  lemma NextLastAccepted(entry: Option<real>, events: seq<Event>, n: nat, key: string)
    requires ClockRuns(events) && n < |events| && IsLastAccepted(entry, events, n, key)
    ensures IsLastAccepted(if AcceptedAs(events, n, key) then Some(events[n].now) else entry, events, n + 1, key)
  {
  }

  /** The table never pruned holds the time of the last accepted copy of every key. */
  lemma {:induction false} UnprunedIsLastAccepted(events: seq<Event>, n: nat, key: string)
    requires ClockRuns(events) && n <= |events|
    ensures IsLastAccepted(Entry(Unpruned(events[..n]), key), events, n, key)
  {
    if n > 0 {
      var before, after := Entry(Unpruned(events[..n - 1]), key), Entry(Unpruned(events[..n]), key);
      assert after == if AcceptedAs(events, n - 1, key) then Some(events[n - 1].now) else before by {
        UnprunedStep(events, n - 1, key);
      }
      assert IsLastAccepted(before, events, n - 1, key) by { UnprunedIsLastAccepted(events, n - 1, key); }
      NextLastAccepted(before, events, n - 1, key);
    }
  }

  /** In every run: a text is refused exactly when it is blank or a copy with the same key was accepted
      less than fifteen seconds earlier. */
  lemma RefusedExactlyWhen(events: seq<Event>, i: nat)
    requires ClockRuns(events) && i < |events| && events[i].Check?
    ensures Refused(events, i) <==>
              IsBlank(events[i].text)
              || exists j :: 0 <= j < i && AcceptedAs(events, j, KeyOf(events[i]))
                  && events[i].now - events[j].now < 15.0
  {
    StripIsEmptyExactlyWhen(events[i].text);
    var key, t := KeyOf(events[i]), Unpruned(events[..i]);
    assert Refused(events, i) <==> IsBlankCheck(events[i]) || Recent(t, key, events[i].now) by {
      PruningIsInvisible(events, i);
    }
    assert IsLastAccepted(Entry(t, key), events, i, key) by { UnprunedIsLastAccepted(events, i, key); }
  }

  /** Accepted copies of one key are at least fifteen seconds apart. */
  lemma AcceptedCopiesAreApart(events: seq<Event>, i: nat, j: nat, key: string)
    requires ClockRuns(events) && i < j < |events|
    requires AcceptedAs(events, i, key) && AcceptedAs(events, j, key)
    ensures events[j].now - events[i].now >= 15.0
  {
    RefusedExactlyWhen(events, j);
  }

  /** A check of a text that is not blank leaves no entry older than fifteen seconds, forgets no younger one,
      and adds at most its own key; a blank one changes nothing. */
  lemma TableStaysYoung(t: Table, e: Event, key: string)
    requires e.Check?
    ensures var after := Checked(t, e).1;
            if IsBlank(e.text) then after == t
            else && (key in after ==> e.now - after[key] <= 15.0 || after[key] == e.now)
                 && (key in t && e.now - t[key] <= 15.0 ==> key in after)
                 && (key in after && key !in t ==> key == KeyOf(e) && after[key] == e.now)
  {
    StripIsEmptyExactlyWhen(e.text);
  }

  // ------------------------------------------------------------------ when two messages share a key

  /** `s.split("|")` */
  function Pieces(s: string): (ps: seq<string>)
    ensures ps != []
  {
    if s == [] then [""]
    else if s[0] == '|' then [""] + Pieces(s[1..])
    else [[s[0]] + Pieces(s[1..])[0]] + Pieces(s[1..])[1..]
  }

  /** `"|".join(ps)` */
  function Join(ps: seq<string>): string
    requires ps != []
  {
    if |ps| == 1 then ps[0] else ps[0] + "|" + Join(ps[1..])
  }

  lemma {:induction false} JoinUndoesSplit(s: string)
    ensures Join(Pieces(s)) == s
  {
    if s != [] {
      var rest := Pieces(s[1..]);
      JoinUndoesSplit(s[1..]);
      if s[0] == '|' {
        assert ([""] + rest)[1..] == rest;
        assert "" + "|" + s[1..] == s;
      } else {
        var ps := [[s[0]] + rest[0]] + rest[1..];
        if |rest| > 1 {
          assert ps[1..] == rest[1..];
          assert ([s[0]] + rest[0]) + "|" + Join(rest[1..]) == [s[0]] + (rest[0] + "|" + Join(rest[1..]));
        }
        assert [s[0]] + s[1..] == s;
      }
    }
  }

  /** How the first character decides. */
  lemma SplitHead(c: char, s: string)
    ensures Pieces([c] + s) == if c == '|' then [""] + Pieces(s) else [[c] + Pieces(s)[0]] + Pieces(s)[1..]
  {
    assert ([c] + s)[1..] == s;
  }

  lemma {:induction false} SplitOfJoined(a: string, b: string)
    ensures Pieces(a + "|" + b) == Pieces(a) + Pieces(b)
  {
    if a == [] {
      assert a + "|" + b == ['|'] + b;
      SplitHead('|', b);
    } else {
      var c, a' := a[0], a[1..];
      var rest := Pieces(a');
      assert a == [c] + a';
      assert Pieces(a' + "|" + b) == rest + Pieces(b) by { SplitOfJoined(a', b); }
      assert a + "|" + b == [c] + (a' + "|" + b);
      SplitHead(c, a' + "|" + b);
      SplitHead(c, a');
      AppendPieces(c, rest, Pieces(b));
    }
  }

  lemma AppendPieces(c: char, ps: seq<string>, qs: seq<string>)
    requires ps != []
    ensures [""] + (ps + qs) == ([""] + ps) + qs
    ensures [[c] + (ps + qs)[0]] + (ps + qs)[1..] == ([[c] + ps[0]] + ps[1..]) + qs
  {
    assert (ps + qs)[1..] == ps[1..] + qs;
  }

  lemma {:induction false} BarFreeSplit(s: string)
    requires '|' !in s
    ensures Pieces(s) == [s]
  {
    if s != [] {
      assert s[0] in s;
      assert forall c :: c in s[1..] ==> c in s;
      BarFreeSplit(s[1..]);
      assert [s[0]] + s[1..] == s;
    }
  }

  /** The pieces of sender, node id if there is one, and text, between all the bars of a key. */
  function AllPieces(sender: string, nodeId: string, text: string): seq<string> {
    Pieces(sender) + (if nodeId != "" then Pieces(nodeId) else []) + Pieces(text)
  }

  lemma KeySplits(sender: string, nodeId: string, text: string)
    ensures Pieces(KeyOfParts(sender, nodeId, text)) == AllPieces(sender, nodeId, text)
  {
    if nodeId != "" {
      assert sender + "|" + nodeId + "|" + text == (sender + "|" + nodeId) + "|" + text;
      SplitOfJoined(sender + "|" + nodeId, text);
      SplitOfJoined(sender, nodeId);
    } else {
      SplitOfJoined(sender, text);
      assert Pieces(sender) + [] == Pieces(sender);
    }
  }

  /** Two messages share a key if and only if their stripped parts, cut at every bar, are the same pieces. */
  lemma SameKeyExactlyWhen(s1: string, n1: string, t1: string, s2: string, n2: string, t2: string)
    ensures KeyOfParts(s1, n1, t1) == KeyOfParts(s2, n2, t2) <==> AllPieces(s1, n1, t1) == AllPieces(s2, n2, t2)
  {
    KeySplits(s1, n1, t1);
    KeySplits(s2, n2, t2);
    SplitIsInjective(KeyOfParts(s1, n1, t1), KeyOfParts(s2, n2, t2));
  }

  lemma SplitIsInjective(a: string, b: string)
    ensures Pieces(a) == Pieces(b) <==> a == b
  {
    JoinUndoesSplit(a);
    JoinUndoesSplit(b);
  }

  lemma SameParts(s1: string, n1: string, t1: string, s2: string, n2: string, t2: string)
    requires '|' !in s1 && '|' !in n1 && '|' !in s2 && '|' !in n2 && (n1 == "" <==> n2 == "")
    requires AllPieces(s1, n1, t1) == AllPieces(s2, n2, t2)
    ensures s1 == s2 && n1 == n2 && t1 == t2
  {
    BarFreeSplit(s1);
    BarFreeSplit(s2);
    BarFreeSplit(n1);
    BarFreeSplit(n2);
    var k := if n1 == "" then 1 else 2;
    var a, b := AllPieces(s1, n1, t1), AllPieces(s2, n2, t2);
    assert a[0] == s1 && b[0] == s2;
    if n1 != "" { assert a[1] == n1 && b[1] == n2; }
    assert a[k..] == Pieces(t1) && b[k..] == Pieces(t2);
    JoinUndoesSplit(t1);
    JoinUndoesSplit(t2);
  }

  lemma MixedParts(s1: string, n1: string, t1: string, s2: string, t2: string)
    requires '|' !in s1 && '|' !in n1 && '|' !in s2 && n1 != ""
    ensures AllPieces(s1, n1, t1) == AllPieces(s2, "", t2) <==> s1 == s2 && t2 == n1 + "|" + t1
  {
    BarFreeSplit(s1);
    BarFreeSplit(s2);
    BarFreeSplit(n1);
    var a, b := AllPieces(s1, n1, t1), AllPieces(s2, "", t2);
    assert a[0] == s1 && b[0] == s2 && a[1..] == [n1] + Pieces(t1) && b[1..] == Pieces(t2);
    SplitOfJoined(n1, t1);
    JoinUndoesSplit(t2);
    JoinUndoesSplit(n1 + "|" + t1);
    if s1 == s2 && t2 == n1 + "|" + t1 { assert a == [s1] + a[1..] && b == [s2] + b[1..]; }
  }

  /** Without bars in senders and node ids, and with both node ids present or both missing, messages that
      share a key have the same sender, node id and text. */
  lemma BarFreeKeysAreInjective(s1: string, n1: string, t1: string, s2: string, n2: string, t2: string)
    requires '|' !in s1 && '|' !in n1 && '|' !in s2 && '|' !in n2 && (n1 == "" <==> n2 == "")
    ensures KeyOfParts(s1, n1, t1) == KeyOfParts(s2, n2, t2) <==> s1 == s2 && n1 == n2 && t1 == t2
  {
    SameKeyExactlyWhen(s1, n1, t1, s2, n2, t2);
    if AllPieces(s1, n1, t1) == AllPieces(s2, n2, t2) { SameParts(s1, n1, t1, s2, n2, t2); }
  }

  lemma StripAddsNoBar(s: string)
    requires '|' !in s
    ensures '|' !in Strip(s)
  {
    var i, j := StripIsExact(s);
    assert forall c :: c in s[i..j] ==> c in s;
  }

  /** So two such messages are copies exactly when sender, node id and text agree up to whitespace at the ends. */
  lemma CopiesExactlyWhen(a: Event, b: Event)
    requires a.Check? && b.Check?
    requires '|' !in a.sender && '|' !in a.nodeId && '|' !in b.sender && '|' !in b.nodeId
    requires IsBlank(a.nodeId) <==> IsBlank(b.nodeId)
    ensures KeyOf(a) == KeyOf(b) <==>
              && Strip(a.sender) == Strip(b.sender) && Strip(a.nodeId) == Strip(b.nodeId)
              && Strip(a.text) == Strip(b.text)
  {
    StripAddsNoBar(a.sender);
    StripAddsNoBar(a.nodeId);
    StripAddsNoBar(b.sender);
    StripAddsNoBar(b.nodeId);
    StripIsEmptyExactlyWhen(a.nodeId);
    StripIsEmptyExactlyWhen(b.nodeId);
    BarFreeKeysAreInjective(Strip(a.sender), Strip(a.nodeId), Strip(a.text),
                            Strip(b.sender), Strip(b.nodeId), Strip(b.text));
  }

  /** With a node id on one side only, they share it exactly when the other text begins with that node id
      and a bar. */
  lemma MixedKeysCollideExactlyWhen(s1: string, n1: string, t1: string, s2: string, t2: string)
    requires '|' !in s1 && '|' !in n1 && '|' !in s2 && n1 != ""
    ensures KeyOfParts(s1, n1, t1) == KeyOfParts(s2, "", t2) <==> s1 == s2 && t2 == n1 + "|" + t1
  {
    SameKeyExactlyWhen(s1, n1, t1, s2, "", t2);
    MixedParts(s1, n1, t1, s2, t2);
  }

  /** Collisions of both kinds: a bar in a sender, and a bar in a text. */
  lemma KeysCanCollide()
    ensures Key("a|b", "", "x") == Key("a", "b", "x") == Key("a", "", "b|x")
  {
    assert Strip("a|b") == "a|b" && Strip("b|x") == "b|x" && Strip("") == "";
    assert Strip("a") == "a" && Strip("b") == "b" && Strip("x") == "x";
  }
}
