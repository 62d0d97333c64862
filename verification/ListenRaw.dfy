/** What reading the text of a `--listen` line means on any line at all, printed by a packet or not. */
module ListenRaw {
  import opened Options
  import opened HexDigits
  import opened PyText
  import opened PyLiteral
  import opened ListenLine
  import opened ListenPrint

  // ------------------------------------------------------------------ literals and keys

  /** The scanner's verdict on any text: from its opening quote a literal runs to the first quote of the
      same kind that no backslash protects. */
  lemma LiteralAtExactly(line: string, start: nat, end: nat)
    requires start < |line|
    ensures LiteralAt(line, start) == Some(end) <==>
              && start + 2 <= end <= |line| && (line[start] == '\'' || line[start] == '"')
              && line[end - 1] == line[start] && Protected(line[start + 1..end - 1], line[start])
  {
    if LiteralAt(line, start) == Some(end) {
      ScannedBodyIsProtected(line, start + 1, line[start]);
    } else if start + 2 <= end <= |line| && IsQuote(line[start]) && line[end - 1] == line[start]
              && Protected(line[start + 1..end - 1], line[start]) {
      ScanFindsTheClosingQuote(line, start + 1, end - 1, line[start]);
    }
  }

  lemma {:induction false} ScannedBodyIsProtected(line: string, i: nat, quote: char)
    requires IsQuote(quote) && ScanTo(line, i, quote).Some?
    ensures var end := ScanTo(line, i, quote).value;
            line[end - 1] == quote && Protected(line[i..end - 1], quote)
    decreases |line| - i
  {
    var end := ScanTo(line, i, quote).value;
    if line[i] == '\\' {
      ScannedBodyIsProtected(line, i + 2, quote);
      assert line[i..end - 1][2..] == line[i + 2..end - 1];
    } else if line[i] != quote {
      ScannedBodyIsProtected(line, i + 1, quote);
      assert line[i..end - 1][1..] == line[i + 1..end - 1];
    }
  }

  /** At `i` stand the quoted name, spaces, a colon and more spaces, up to `e`. */
  ghost predicate KeyAt(line: string, i: nat, name: string, colon: nat, e: nat) {
    var close := i + 1 + |name|;
    && close < colon < e <= |line| && line[colon] == ':'
    && IsQuote(line[i]) && line[i + 1..close] == name && IsQuote(line[close])
    && (forall k :: close < k < colon ==> IsSpace(line[k]))
    && (forall k :: colon < k < e ==> IsSpace(line[k])) && (e < |line| ==> !IsSpace(line[e]))
  }

  lemma {:induction false} SkipEndsAt(line: string, i: nat, j: nat)
    requires i <= j <= |line| && (forall k :: i <= k < j ==> IsSpace(line[k])) && (j < |line| ==> !IsSpace(line[j]))
    ensures SkipSpaces(line, i) == j
    decreases j - i
  {
    if i < j { SkipEndsAt(line, i + 1, j); }
  }

  lemma KeyEndExactly(line: string, i: nat, name: string, e: nat)
    ensures KeyEnd(line, i, name) == Some(e) <==> exists colon: nat :: KeyAt(line, i, name, colon, e)
  {
    var close := i + 1 + |name|;
    if KeyEnd(line, i, name) == Some(e) {
      assert KeyAt(line, i, name, SkipSpaces(line, close + 1), e);
    }
    if exists colon: nat :: KeyAt(line, i, name, colon, e) {
      var colon: nat :| KeyAt(line, i, name, colon, e);
      SkipEndsAt(line, close + 1, colon);
      SkipEndsAt(line, colon + 1, e);
    }
  }

  /** The key at `i`, which ends at `e`, is the first from `from` on. */
  ghost predicate FirstKey(line: string, from: nat, name: string, i: nat, e: nat) {
    from <= i < |line| && KeyEnd(line, i, name) == Some(e) && Silent(line, from, i, name)
  }

  /** `end` is where the first key from `from` on ends, or None where there is none. */
  ghost predicate IsKeyEnd(line: string, from: nat, name: string, end: Option<nat>) {
    match end
    case None => Silent(line, from, |line|, name)
    case Some(e) => exists i: nat :: FirstKey(line, from, name, i, e)
  }

  lemma KeyEndLater(line: string, from: nat, name: string, end: Option<nat>)
    requires KeyEnd(line, from, name).None? && IsKeyEnd(line, from + 1, name, end)
    ensures IsKeyEnd(line, from, name, end)
  {
    if end.Some? {
      var i: nat :| FirstKey(line, from + 1, name, i, end.value);
      assert FirstKey(line, from, name, i, end.value);
    }
  }

  lemma {:induction false} FindKeyIsLeftmost(line: string, from: nat, name: string)
    ensures IsKeyEnd(line, from, name, FindKey(line, from, name))
    decreases |line| - from
  {
    if from < |line| {
      if KeyEnd(line, from, name).Some? {
        assert FirstKey(line, from, name, from, KeyEnd(line, from, name).value);
      } else {
        FindKeyIsLeftmost(line, from + 1, name);
        KeyEndLater(line, from, name, FindKey(line, from + 1, name));
      }
    }
  }

  // ------------------------------------------------------------------ the text literal

  /** A text key at `i` and the literal behind it, from `s` to `e`. */
  ghost predicate TextAt(line: string, i: nat, s: nat, e: nat) {
    KeyEnd(line, i, "text") == Some(s) && LiteralAt(line, s) == Some(e)
  }

  ghost predicate NoTextIn(line: string, a: nat, b: nat) {
    forall i: nat, s: nat, e: nat :: a <= i < b ==> !TextAt(line, i, s, e)
  }

  /** No text key starts inside another. */
  lemma KeysDoNotOverlap(line: string, i: nat, s: nat, j: nat)
    requires KeyEnd(line, i, "text") == Some(s) && i < j < s
    ensures KeyEnd(line, j, "text").None?
  {
    KeyEndExactly(line, i, "text", s);
    var colon: nat :| KeyAt(line, i, "text", colon, s);
    var word := line[i + 1..i + 5];
    assert line[i + 1] == word[0] && line[i + 2] == word[1] && line[i + 3] == word[2] && line[i + 4] == word[3];
    if j == i + 5 {
      assert line[j + 1] != 't';
      assert j + 5 <= |line| ==> line[j + 1..j + 5][0] == line[j + 1];
    } else {
      assert !IsQuote(line[j]);
    }
  }

  /** What both readers look for: the first text key, from `from` on, with a string literal behind it. */
  lemma {:induction false} TextLiteralIsFirst(line: string, from: nat)
    ensures match TextLiteral(line, from)
            case None => NoTextIn(line, from, |line|)
            case Some((s, e)) => exists i: nat :: from <= i && TextAt(line, i, s, e) && NoTextIn(line, from, i)
    decreases |line| - from
  {
    FindKeyIsLeftmost(line, from, "text");
    var found := FindKey(line, from, "text");
    if found.Some? {
      var s := found.value;
      var i: nat :| FirstKey(line, from, "text", i, s);
      assert NoTextIn(line, from, i);
      if LiteralAt(line, s).Some? {
        assert TextAt(line, i, s, LiteralAt(line, s).value);
      } else {
        TextLiteralIsFirst(line, s);
        NothingUpTo(line, from, i, s);
        if TextLiteral(line, s).Some? {
          var (s', e') := TextLiteral(line, s).value;
          var i': nat :| s <= i' && TextAt(line, i', s', e') && NoTextIn(line, s, i');
          assert NoTextIn(line, from, i');
        }
      }
    }
  }

  lemma NothingUpTo(line: string, from: nat, i: nat, s: nat)
    requires from <= i && NoTextIn(line, from, i) && KeyEnd(line, i, "text") == Some(s) && LiteralAt(line, s).None?
    ensures NoTextIn(line, from, s)
  {
    forall j: nat, s': nat, e': nat | from <= j < s ensures !TextAt(line, j, s', e') {
      if i < j { KeysDoNotOverlap(line, i, s, j); }
    }
  }

  // ------------------------------------------------------------------ the raw capture

  /** At `i` stand the key in its quotes, a colon, spaces and a value between quotes that holds none. */
  ghost predicate RawAt(line: string, i: nat, keyQuote: char, valueQuote: char, open: nat, close: nat) {
    && HasAt(line, i, [keyQuote] + "text" + [keyQuote] + ":") && i + 7 <= open < close < |line|
    && (forall k :: i + 7 <= k < open ==> IsSpace(line[k]))
    && line[open] == valueQuote && line[close] == valueQuote
    && forall k :: open < k < close ==> line[k] != valueQuote
  }

  lemma {:induction false} IndexOfIsFirst(line: string, i: nat, c: char)
    ensures match IndexOf(line, i, c)
            case None => forall k :: i <= k < |line| ==> line[k] != c
            case Some(j) => line[j] == c && forall k :: i <= k < j ==> line[k] != c
    decreases |line| - i
  {
    if i < |line| && line[i] != c { IndexOfIsFirst(line, i + 1, c); }
  }

  /** What the capture at one position gives. */
  lemma CaptureAt(line: string, i: nat, keyQuote: char, valueQuote: char, open: nat, close: nat)
    requires RawAt(line, i, keyQuote, valueQuote, open, close) && !IsSpace(valueQuote)
    ensures RawCapture(line, i, keyQuote, valueQuote) == Some(Strip(line[open + 1..close]))
  {
    SkipEndsAt(line, i + 7, open);
    IndexOfIsFirst(line, open + 1, valueQuote);
  }

  ghost predicate NoRawIn(line: string, a: nat, b: nat, keyQuote: char, valueQuote: char) {
    forall i: nat, open: nat, close: nat :: a <= i < b ==> !RawAt(line, i, keyQuote, valueQuote, open, close)
  }

  lemma NoCaptureHere(line: string, i: nat, keyQuote: char, valueQuote: char)
    requires i < |line| && !IsSpace(valueQuote) && NoRawIn(line, i, i + 1, keyQuote, valueQuote)
    ensures RawCapture(line, i, keyQuote, valueQuote) == RawCapture(line, i + 1, keyQuote, valueQuote)
  {
    var key := [keyQuote] + "text" + [keyQuote] + ":";
    if HasAt(line, i, key) {
      var open := SkipSpaces(line, i + |key|);
      if open < |line| && line[open] == valueQuote && IndexOf(line, open + 1, valueQuote).Some? {
        IndexOfIsFirst(line, open + 1, valueQuote);
        assert RawAt(line, i, keyQuote, valueQuote, open, IndexOf(line, open + 1, valueQuote).value);
      }
    }
  }

  /** The match at `i` is the first from `from` on. */
  ghost predicate FirstRaw(line: string, from: nat, keyQuote: char, valueQuote: char, i: nat, open: nat, close: nat) {
    from <= i && RawAt(line, i, keyQuote, valueQuote, open, close) && NoRawIn(line, from, i, keyQuote, valueQuote)
  }

  /** `r` is the stripped value of the first match, or None where nothing matches. */
  ghost predicate IsCapture(line: string, from: nat, keyQuote: char, valueQuote: char, r: Option<string>) {
    match r
    case None => NoRawIn(line, from, |line|, keyQuote, valueQuote)
    case Some(text) => exists i: nat, open: nat, close: nat ::
        FirstRaw(line, from, keyQuote, valueQuote, i, open, close) && text == Strip(line[open + 1..close])
  }

  lemma CapturedHere(line: string, from: nat, keyQuote: char, valueQuote: char, open: nat, close: nat)
    requires RawAt(line, from, keyQuote, valueQuote, open, close) && !IsSpace(valueQuote)
    ensures IsCapture(line, from, keyQuote, valueQuote, RawCapture(line, from, keyQuote, valueQuote))
  {
    CaptureAt(line, from, keyQuote, valueQuote, open, close);
    assert FirstRaw(line, from, keyQuote, valueQuote, from, open, close);
  }

  lemma CapturedLater(line: string, from: nat, keyQuote: char, valueQuote: char, r: Option<string>)
    requires NoRawIn(line, from, from + 1, keyQuote, valueQuote)
    requires IsCapture(line, from + 1, keyQuote, valueQuote, r)
    ensures IsCapture(line, from, keyQuote, valueQuote, r)
  {
    if r.Some? {
      var i: nat, open: nat, close: nat :|
        FirstRaw(line, from + 1, keyQuote, valueQuote, i, open, close) && r.value == Strip(line[open + 1..close]);
      assert FirstRaw(line, from, keyQuote, valueQuote, i, open, close);
    }
  }

  /** The raw capture is the stripped value of the leftmost match; there is none exactly when nothing matches. */
  lemma {:induction false} RawCaptureIsLeftmost(line: string, from: nat, keyQuote: char, valueQuote: char)
    requires !IsSpace(valueQuote)
    ensures IsCapture(line, from, keyQuote, valueQuote, RawCapture(line, from, keyQuote, valueQuote))
    decreases |line| - from
  {
    if from < |line| {
      if open: nat, close: nat :| RawAt(line, from, keyQuote, valueQuote, open, close) {
        CapturedHere(line, from, keyQuote, valueQuote, open, close);
      } else {
        assert NoRawIn(line, from, from + 1, keyQuote, valueQuote);
        NoCaptureHere(line, from, keyQuote, valueQuote);
        RawCaptureIsLeftmost(line, from + 1, keyQuote, valueQuote);
        CapturedLater(line, from, keyQuote, valueQuote, RawCapture(line, from + 1, keyQuote, valueQuote));
      }
    }
  }

  lemma RawTextIsAKey(line: string, i: nat, keyQuote: char, valueQuote: char, open: nat, close: nat)
    requires RawAt(line, i, keyQuote, valueQuote, open, close) && IsQuote(keyQuote)
    ensures KeyEnd(line, i, "text").Some?
  {
    var key := [keyQuote] + "text" + [keyQuote] + ":";
    HasAtChars(line, i, key);
    assert line[i] == key[0] && line[i + 5] == key[5] && line[i + 6] == key[6];
    assert line[i + 1..i + 5] == key[1..5] == "text";
    SkipNothing(line, i + 6);
  }

  // ------------------------------------------------------------------ the text of any line

  predicate Given(capture: Option<string>) {
    capture.Some? && capture.value != ""
  }

  lemma FirstOfFour(a: Option<string>, b: Option<string>, c: Option<string>, d: Option<string>)
    ensures FirstNonEmpty([a, b, c, d])
         == if Given(a) then a else if Given(b) then b else if Given(c) then c else if Given(d) then d else None
  {
    assert [a, b, c, d][1..] == [b, c, d] && [b, c, d][1..] == [c, d] && [c, d][1..] == [d] && [d][1..] == [];
    assert FirstNonEmpty([d]) == if Given(d) then d else None;
    assert FirstNonEmpty([c, d]) == if Given(c) then c else FirstNonEmpty([d]);
    assert FirstNonEmpty([b, c, d]) == if Given(b) then b else FirstNonEmpty([c, d]);
  }

  /** A line that neither names the text port nor has a text key has no text. */
  lemma UnrelatedLineHasNoText(line: string)
    requires !Contains(line, "TEXT_MESSAGE_APP") && !Contains(line, "'text':") && !Contains(line, "\"text\":")
    ensures ExtractText(line) == None
  {
  }

  /** Nor has a line of the text port without a text key, the raw capture included. */
  lemma NoTextKeyNoText(line: string)
    requires Silent(line, 0, |line|, "text")
    ensures ExtractText(line) == None
  {
    forall k: char, v: char | IsQuote(k) && IsQuote(v) ensures RawCapture(line, 0, k, v) == None {
      RawCaptureIsLeftmost(line, 0, k, v);
      if RawCapture(line, 0, k, v).Some? {
        var i: nat, open: nat, close: nat :| RawAt(line, i, k, v, open, close);
        RawTextIsAKey(line, i, k, v, open, close);
      }
    }
    FirstOfFour(None, None, None, None);
    FindKeyIsLeftmost(line, SearchStart(line), "text");
    assert FindKey(line, SearchStart(line), "text").None?;
  }

  lemma SameTextSamePlace(line: string, from: nat, i: nat, s: nat, e: nat)
    requires from <= i && TextAt(line, i, s, e) && NoTextIn(line, from, i)
    ensures TextLiteral(line, from) == Some((s, e))
  {
    TextLiteralIsFirst(line, from);
    assert i < |line|;
    assert TextLiteral(line, from).Some?;
    var (s', e') := TextLiteral(line, from).value;
    var i': nat :| from <= i' && TextAt(line, i', s', e') && NoTextIn(line, from, i');
    assert i' == i;
  }

  /** The first text literal behind the payload decides, if it decodes: its text, unless that is blank. */
  lemma FirstLiteralDecides(line: string, i: nat, s: nat, e: nat)
    requires LooksLikeText(line) && SearchStart(line) <= i
    requires TextAt(line, i, s, e) && NoTextIn(line, SearchStart(line), i) && Decode(line[s..e]).Some?
    ensures ExtractText(line)
         == if IsBlank(Decode(line[s..e]).value) then None else Decode(line[s..e])
  {
    SameTextSamePlace(line, SearchStart(line), i, s, e);
  }

  /** If it does not decode, or there is none, the raw captures are tried in turn: single quotes, double
      quotes, then the mixed forms.  The first one that is not empty is the answer. */
  lemma UndecodableTextIsCaptured(line: string)
    requires LooksLikeText(line)
    requires match TextLiteral(line, SearchStart(line)) case None => true case Some((s, e)) => Decode(line[s..e]).None?
    ensures var a, b := RawCapture(line, 0, '\'', '\''), RawCapture(line, 0, '"', '"');
            var c, d := RawCapture(line, 0, '\'', '"'), RawCapture(line, 0, '"', '\'');
            ExtractText(line)
            == if Given(a) then a else if Given(b) then b else if Given(c) then c else if Given(d) then d else None
  {
    FirstOfFour(RawCapture(line, 0, '\'', '\''), RawCapture(line, 0, '"', '"'),
                RawCapture(line, 0, '\'', '"'), RawCapture(line, 0, '"', '\''));
  }

  // ------------------------------------------------------------------ malformed fields

  lemma {:induction false} FailureSpreads(before: string, rest: string)
    requires '\\' !in before && Unescape(rest) == None
    ensures Unescape(before + rest) == None
  {
    if before == [] {
      assert before + rest == rest;
    } else {
      assert (before + rest)[1..] == before[1..] + rest;
      FailureSpreads(before[1..], rest);
    }
  }

  /** A field whose literal has a broken hex escape is read as it stands between the quotes. */
  lemma MalformedFieldStaysRaw(before: string, rest: string, quote: char)
    requires IsQuote(quote) && '\\' !in before && (|rest| < 2 || !AllHex(rest[..2]))
    ensures FieldText([quote] + (before + ("\\x" + rest)) + [quote]) == before + ("\\x" + rest)
  {
    var bad := "\\x" + rest;
    assert |rest| >= 2 ==> bad[2..4] == rest[..2];
    assert Unescape(bad) == None;
    FailureSpreads(before, bad);
    var token := [quote] + (before + bad) + [quote];
    assert token[1..|token| - 1] == before + bad;
  }
}
