/** Packets printed without a payload field.  Nothing then shields the text: a fake payload field inside it
    moves the reader past the real text.  Exactly when that happens. */
module ListenBare {
  import opened Options
  import opened PyText
  import opened PyLiteral
  import opened ListenLine
  import opened ListenPrint
  import opened ListenText

  datatype BarePacket = BarePacket(header: string, before: seq<Item>, text: string, tail: string)

  ghost predicate IsBare(p: BarePacket) {
    IsHeader(p.header) && AllQuiet(p.before, "payload") && AllQuiet(p.before, "text")
  }

  function BareLine(pre: string, text: string, tail: string): string {
    pre + TEXT_KEY + text + tail
  }

  function PrintBare(p: BarePacket, printable: char -> bool): string {
    BareLine(p.header + Print(p.before, printable), Repr(p.text, printable), p.tail)
  }

  // ------------------------------------------------------------------ matches have a length

  lemma {:induction false} KeysAreLong(line: string, from: nat, name: string)
    ensures FindKey(line, from, name).Some? ==> FindKey(line, from, name).value >= from + |name| + 3
    decreases |line| - from
  {
    if from < |line| && KeyEnd(line, from, name).None? { KeysAreLong(line, from + 1, name); }
  }

  lemma {:induction false} TextIsBehind(line: string, from: nat)
    ensures TextLiteral(line, from).Some? ==> TextLiteral(line, from).value.0 > from
    decreases |line| - from
  {
    var e := FindKey(line, from, "text");
    if e.Some? && LiteralAt(line, e.value).None? { TextIsBehind(line, e.value); }
  }

  lemma BarePieces(pre: string, text: string, tail: string)
    ensures var line := BareLine(pre, text, tail);
            HasAt(line, 0, pre) && HasAt(line, |pre|, TEXT_KEY) && HasAt(line, |pre| + 8, text)
  {
    var line := BareLine(pre, text, tail);
    assert HasAt(line, 0, pre + TEXT_KEY + text);
    HasAtSplit(line, 0, pre + TEXT_KEY, text);
    HasAtSplit(line, 0, pre, TEXT_KEY);
  }

  lemma BareTextIsFound(pre: string, text: string, tail: string)
    requires Hides(pre, "text") && IsLiteral(text)
    ensures TextLiteral(BareLine(pre, text, tail), 0) == Some((|pre| + 8, |pre| + 8 + |text|))
  {
    BarePieces(pre, text, tail);
    TextKeyIsFound(BareLine(pre, text, tail), 0, |pre|, text);
  }

  /** A payload key that is found stands behind the text key. */
  lemma FakePayloadIsLate(pre: string, text: string, tail: string)
    requires Hides(pre, "payload")
    ensures var line := BareLine(pre, text, tail);
            && (FindPayload(line).Some? ==> FindPayload(line).value >= |pre| + 10)
            && (SearchStart(line) != 0 ==> SearchStart(line) >= |pre| + 10)
  {
    var line := BareLine(pre, text, tail);
    BarePieces(pre, text, tail);
    FindKeySkips(line, 0, |pre|, "payload");
    KeysAreLong(line, |pre|, "payload");
  }

  lemma BareLooksLikeText(pre: string, text: string, tail: string)
    ensures LooksLikeText(BareLine(pre, text, tail))
  {
    var line := BareLine(pre, text, tail);
    BarePieces(pre, text, tail);
    assert TEXT_KEY == "'text':" + " ";
    HasAtSplit(line, |pre|, "'text':", " ");
    assert Contains(line, "'text':");
  }

  lemma BareIsFramed(p: BarePacket, printable: char -> bool)
    requires IsBare(p)
    ensures Hides(p.header + Print(p.before, printable), "payload")
        && Hides(p.header + Print(p.before, printable), "text")
  {
    QuoteFreeHides(p.header, "payload");
    QuoteFreeHides(p.header, "text");
    ItemsHide(p.before, printable, "payload");
    ItemsHide(p.before, printable, "text");
    HidesBoth(p.header, Print(p.before, printable), "payload");
    HidesBoth(p.header, Print(p.before, printable), "text");
  }

  // ------------------------------------------------------------------ reading

  /** The literal of that extent is the one that is read, if and only if no payload key with a literal behind it
      is found in the line. */
  predicate ReadsItUnlessFooled(line: string, start: nat, length: nat) {
    TextLiteral(line, SearchStart(line)) == Some((start, start + length)) <==> SearchStart(line) == 0
  }

  lemma SearchDecides(line: string, pre: string, text: string, tail: string)
    requires Hides(pre, "payload") && Hides(pre, "text") && IsLiteral(text) && line == BareLine(pre, text, tail)
    ensures ReadsItUnlessFooled(line, |pre| + 8, |text|)
  {
    BareTextIsFound(pre, text, tail);
    if SearchStart(line) != 0 {
      FakePayloadIsLate(pre, text, tail);
      TextIsBehind(line, SearchStart(line));
    }
  }

  lemma ReadsFromTheStart(line: string, raw: Option<string>, start: nat, text: string)
    requires |text| >= 2 && LooksLikeText(line) && SearchStart(line) == 0
    requires TextLiteral(line, 0) == Some((start, start + |text|)) && HasAt(line, start, text) && Decode(text).Some?
    ensures ExtractOr(line, raw) == if IsBlank(Decode(text).value) then None else Decode(text)
  {
  }

  lemma BareTextIsRead(pre: string, text: string, tail: string, raw: Option<string>)
    requires Hides(pre, "text") && IsLiteral(text) && |text| >= 2 && Decode(text).Some?
    requires SearchStart(BareLine(pre, text, tail)) == 0
    ensures ExtractOr(BareLine(pre, text, tail), raw) == if IsBlank(Decode(text).value) then None else Decode(text)
  {
    var line := BareLine(pre, text, tail);
    assert LooksLikeText(line) by { BareLooksLikeText(pre, text, tail); }
    assert TextLiteral(line, 0) == Some((|pre| + 8, |pre| + 8 + |text|)) by { BareTextIsFound(pre, text, tail); }
    assert HasAt(line, |pre| + 8, text) by { BarePieces(pre, text, tail); }
    ReadsFromTheStart(line, raw, |pre| + 8, text);
  }

  /** The real text's literal is the one that is read, if and only if no payload key with a literal behind it is
      found in the line. */
  lemma RealTextIsReadExactlyWhen(p: BarePacket, printable: char -> bool)
    requires IsBare(p)
    ensures ReadsItUnlessFooled(PrintBare(p, printable), |p.header + Print(p.before, printable)| + 8,
        |Repr(p.text, printable)|)
  {
    var pre, text := p.header + Print(p.before, printable), Repr(p.text, printable);
    assert Hides(pre, "payload") && Hides(pre, "text") by { BareIsFramed(p, printable); }
    assert IsLiteral(text) by { ReprIsLiteral(p.text, printable); }
    assert PrintBare(p, printable) == BareLine(pre, text, p.tail);
    SearchDecides(BareLine(pre, text, p.tail), pre, text, p.tail);
  }

  /** Then the text comes back exactly. */
  lemma UnfooledReadingIsExact(p: BarePacket, printable: char -> bool)
    requires IsBare(p) && AsciiAgrees(printable) && SearchStart(PrintBare(p, printable)) == 0
    ensures ExtractText(PrintBare(p, printable)) == if IsBlank(p.text) then None else Some(p.text)
  {
    BareIsFramed(p, printable);
    ReprIsLiteral(p.text, printable);
    DecodeRepr(p.text, printable);
    BareTextIsRead(p.header + Print(p.before, printable), Repr(p.text, printable), p.tail,
                   Fallback(PrintBare(p, printable)));
  }

  // ------------------------------------------------------------------ blanking

  lemma BlanksPlainly(pre: string, text: string, tail: string)
    requires Hides(pre, "text") && IsLiteral(text) && FindPayload(BareLine(pre, text, tail)).None?
    ensures WithoutTextLiterals(BareLine(pre, text, tail)) == BareLine(pre, "''", tail)
  {
    var line, front := BareLine(pre, text, tail), pre + TEXT_KEY;
    BareTextIsFound(pre, text, tail);
    assert line == front + text + tail;
    assert line[..|front|] == front && line[|front| + |text|..] == tail;
  }

  /** Up to a fake payload key the blanked line is the line. */
  lemma BlankingKeepsTheFront(line: string, e: nat)
    requires FindPayload(line) == Some(e)
    ensures |WithoutTextLiterals(line)| >= e && WithoutTextLiterals(line)[..e] == line[..e]
  {
    var out := BlankPayload(line);
    assert |out| >= e && out[..e] == line[..e];
    TextIsBehind(out, e);
    var extent := TextLiteral(out, e);
    if extent.Some? {
      var a, b := extent.value.0, extent.value.1;
      assert (out[..a] + "''" + out[b..])[..e] == out[..e];
    }
  }

  /** The repr of a non-empty text does not begin with two single quotes. */
  lemma ReprOpens(s: string, printable: char -> bool)
    requires s != ""
    ensures |Repr(s, printable)| >= 2 && Repr(s, printable)[..2] != "''"
  {
    var q := QuoteFor(s);
    var e := Escape(s[0], q, printable);
    assert Body(s, q, printable)[0] == e[0] && e[0] != q;
    assert Repr(s, printable)[0] == q && Repr(s, printable)[1] == e[0];
    assert "''"[0] == '\'' && "''"[1] == '\'';
  }

  lemma FakePayloadKeepsTheText(pre: string, text: string, tail: string)
    requires Hides(pre, "payload") && FindPayload(BareLine(pre, text, tail)).Some? && |text| >= 2 && text[..2] != "''"
    ensures WithoutTextLiterals(BareLine(pre, text, tail)) != BareLine(pre, "''", tail)
  {
    var line, other, at := BareLine(pre, text, tail), BareLine(pre, "''", tail), |pre| + 8;
    var e, out := FindPayload(line).value, WithoutTextLiterals(line);
    assert e >= at + 2 by { FakePayloadIsLate(pre, text, tail); }
    assert |out| >= e && out[..e] == line[..e] by { BlankingKeepsTheFront(line, e); }
    assert line[at..at + 2] == text[..2] by { BarePieces(pre, text, tail); }
    assert other[at..at + 2] == "''" by { BarePieces(pre, "''", tail); }
    assert out[at..at + 2] == out[..e][at..at + 2] == line[at..at + 2];
  }

  /** The blanked line is the line with an empty text if and only if it has no payload key, for every packet
      that has a text to blank. */
  lemma TextIsBlankedExactlyWhen(p: BarePacket, printable: char -> bool)
    requires IsBare(p) && p.text != ""
    ensures WithoutTextLiterals(PrintBare(p, printable)) == PrintBare(p.(text := ""), printable)
            <==> FindPayload(PrintBare(p, printable)).None?
  {
    var pre, text := p.header + Print(p.before, printable), Repr(p.text, printable);
    BareIsFramed(p, printable);
    assert Repr("", printable) == "''";
    if FindPayload(BareLine(pre, text, p.tail)).None? {
      ReprIsLiteral(p.text, printable);
      BlanksPlainly(pre, text, p.tail);
    } else {
      ReprOpens(p.text, printable);
      FakePayloadKeepsTheText(pre, text, p.tail);
    }
  }

  /** Two such packets that differ in their text only, with no payload key in either line, give the same
      blanked line. */
  lemma BareMetadataIsIndependentOfTheText(p: BarePacket, q: BarePacket, printable: char -> bool)
    requires IsBare(p) && q == p.(text := q.text)
    ensures FindPayload(PrintBare(p, printable)).None? && FindPayload(PrintBare(q, printable)).None? ==>
              WithoutTextLiterals(PrintBare(p, printable)) == WithoutTextLiterals(PrintBare(q, printable))
  {
    var pre := p.header + Print(p.before, printable);
    BareIsFramed(p, printable);
    ReprIsLiteral(p.text, printable);
    ReprIsLiteral(q.text, printable);
    if FindPayload(PrintBare(p, printable)).None? && FindPayload(PrintBare(q, printable)).None? {
      BlanksPlainly(pre, Repr(p.text, printable), p.tail);
      BlanksPlainly(pre, Repr(q.text, printable), p.tail);
    }
  }

  // ------------------------------------------------------------------ a text that fools the reader

  /** Printed as it is between double quotes. */
  predicate Simple(s: string) {
    forall i :: 0 <= i < |s| ==> ' ' <= s[i] <= '~' && s[i] != '\\' && s[i] != '"'
  }

  lemma SimpleBoth(a: string, b: string)
    requires Simple(a) && Simple(b)
    ensures Simple(a + b)
  {
  }

  lemma {:induction false} SimpleBody(s: string, printable: char -> bool)
    requires AsciiAgrees(printable) && Simple(s)
    ensures Body(s, '"', printable) == s
  {
    if s != [] {
      SimpleBody(s[1..], printable);
      assert [s[0]] + s[1..] == s;
    }
  }

  lemma SimpleRepr(s: string, printable: char -> bool)
    requires AsciiAgrees(printable) && Simple(s) && '\'' in s
    ensures Repr(s, printable) == "\"" + s + "\""
  {
    SimpleBody(s, printable);
  }

  /** A key does not match where another character follows the quote. */
  lemma OtherWord(line: string, i: nat, name: string)
    requires i + 1 < |line| && name != [] && line[i + 1] != name[0]
    ensures KeyEnd(line, i, name).None?
  {
    if i + 1 + |name| <= |line| { assert line[i + 1..i + 1 + |name|][0] == line[i + 1]; }
  }

  const FRONT := "{" + TEXT_KEY + "\"x"

  lemma FrontHides()
    ensures Hides(FRONT, "payload")
  {
    var open := "\"x";
    assert TEXT_KEY == KeyText("text");
    forall line: string, off: nat | HasAt(line, off, TEXT_KEY) ensures Silent(line, off, off + |TEXT_KEY|, "payload") {
      QuietKey(line, off, "text", "payload");
    }
    forall line: string, off: nat | HasAt(line, off, open) ensures Silent(line, off, off + |open|, "payload") {
      HasAtChars(line, off, open);
      assert line[off + 1] == open[1] == 'x';
      forall i | off <= i < off + 2 ensures KeyEnd(line, i, "payload").None? {
        if i == off { OtherWord(line, i, "payload"); }
      }
    }
    QuoteFreeHides("{", "payload");
    HidesBoth("{", TEXT_KEY, "payload");
    HidesBoth("{" + TEXT_KEY, open, "payload");
  }

  /** A text with a fake payload field and a fake text field: `x'payload': b'', 'text': 'y'`. */
  const FOOLING := "x" + PAYLOAD_KEY + "b" + "''" + ", " + TEXT_KEY + "'y'"

  lemma FoolingIsSimple()
    ensures Simple(FOOLING) && '\'' in FOOLING
  {
    assert Simple("x") && Simple(PAYLOAD_KEY) && Simple("b") && Simple("''") && Simple(", ") && Simple(TEXT_KEY)
        && Simple("'y'");
    SimpleBoth("x", PAYLOAD_KEY);
    SimpleBoth("x" + PAYLOAD_KEY, "b");
    SimpleBoth("x" + PAYLOAD_KEY + "b", "''");
    SimpleBoth("x" + PAYLOAD_KEY + "b" + "''", ", ");
    SimpleBoth("x" + PAYLOAD_KEY + "b" + "''" + ", ", TEXT_KEY);
    SimpleBoth("x" + PAYLOAD_KEY + "b" + "''" + ", " + TEXT_KEY, "'y'");
    assert FOOLING[|FOOLING| - 1] == "'y'"[2];
  }

  /** Printed between double quotes and braces, it reads like a packet with a payload. */
  lemma FoolingLine(b: string, c: string, d: string)
    ensures BareLine("{", "\"" + ("x" + PAYLOAD_KEY + "b" + b + c + TEXT_KEY + d) + "\"", "}")
         == Line("{" + TEXT_KEY + "\"x", b, c, d, "\"}")
  {
    var open := "\"";
    assert open + "x" == "\"x" && open + "}" == "\"}";
  }

  lemma ShortLiterals(printable: char -> bool)
    requires AsciiAgrees(printable)
    ensures IsLiteral("''") && IsLiteral("'y'") && Decode("'y'") == Some("y")
  {
    assert "''" == Repr("", printable);
    assert Body("y", '\'', printable) == "y" + Body("", '\'', printable);
    assert "'y'" == Repr("y", printable);
    ReprIsLiteral("", printable);
    ReprIsLiteral("y", printable);
    DecodeRepr("y", printable);
  }

  /** The fake text is what comes back. */
  lemma FakeFieldsCanFool(printable: char -> bool)
    requires AsciiAgrees(printable)
    ensures var p := BarePacket("{", [], FOOLING, "}");
            IsBare(p) && ExtractText(PrintBare(p, printable)) == Some("y")
  {
    var p := BarePacket("{", [], FOOLING, "}");
    assert PrintBare(p, printable) == Line(FRONT, "''", ", ", "'y'", "\"}") by {
      FoolingIsSimple();
      SimpleRepr(FOOLING, printable);
      assert "{" + Print([], printable) == "{";
      FoolingLine("''", ", ", "'y'");
    }
    FooledReading(printable, Fallback(PrintBare(p, printable)));
  }

  lemma FooledReading(printable: char -> bool, raw: Option<string>)
    requires AsciiAgrees(printable)
    ensures ExtractOr(Line(FRONT, "''", ", ", "'y'", "\"}"), raw) == Some("y")
  {
    assert Framed(FRONT, ", ") by {
      FrontHides();
      QuoteFreeHides(", ", "text");
    }
    ShortLiterals(printable);
    assert !IsBlank("y") by { assert !IsSpace("y"[0]); }
    ReadsTheLiteral(FRONT, "''", ", ", "'y'", "\"}", raw);
  }
}
