/** What a message may say without anybody being fooled: reading a printed packet gives back exactly
    its text, and blanking it gives a line that does not depend on the text at all. */
module ListenText {
  import opened Options
  import opened PyText
  import opened PyLiteral
  import opened ListenLine
  import opened ListenPrint

  const PAYLOAD_KEY := "'payload': "
  const TEXT_KEY := "'text': "

  // ------------------------------------------------------------------ lines as pieces

  /** Wherever this piece sits in a line, no match of the key `name` starts in it. */
  ghost predicate Hides(piece: string, name: string) {
    forall line: string, off: nat {:trigger HasAt(line, off, piece)} ::
      HasAt(line, off, piece) ==> Silent(line, off, off + |piece|, name)
  }

  lemma HidesBoth(u: string, v: string, name: string)
    requires Hides(u, name) && Hides(v, name)
    ensures Hides(u + v, name)
  {
    forall line: string, off: nat | HasAt(line, off, u + v) ensures Silent(line, off, off + |u + v|, name) {
      HasAtSplit(line, off, u, v);
    }
  }

  lemma QuoteFreeHides(piece: string, name: string)
    requires IsPlain(piece)
    ensures Hides(piece, name)
  {
    forall line: string, off: nat | HasAt(line, off, piece) ensures Silent(line, off, off + |piece|, name) {
      HasAtChars(line, off, piece);
      NoQuotesNoKey(line, off, off + |piece|, name);
    }
  }

  lemma ItemsHide(items: seq<Item>, printable: char -> bool, name: string)
    requires AllQuiet(items, name) && IsIdentifier(name)
    ensures Hides(Print(items, printable), name)
  {
    var piece := Print(items, printable);
    forall line: string, off: nat | HasAt(line, off, piece) ensures Silent(line, off, off + |piece|, name) {
      QuietItems(line, off, items, printable, name);
    }
  }

  /** A printed key matches there, up to the value. */
  lemma KeyMatches(line: string, off: nat, name: string, key: string)
    requires key == "'" + name + "': " && HasAt(line, off, key)
    requires off + |key| < |line| && !IsSpace(line[off + |key|])
    ensures KeyEnd(line, off, name) == Some(off + |key|)
  {
    var n := |name|;
    KeyChars(line, off, name);
    SkipNothing(line, off + n + 2);
    SkipOneSpace(line, off + n + 3);
  }

  /** A line with a payload literal and, behind it, a text literal. */
  function Line(pre: string, payload: string, mid: string, text: string, tail: string): string {
    pre + PAYLOAD_KEY + "b" + payload + mid + TEXT_KEY + text + tail
  }

  ghost predicate Framed(pre: string, mid: string) {
    Hides(pre, "payload") && Hides(mid, "text") && mid != [] && IsPunctuation(mid[0])
  }

  lemma PayloadPieces(pre: string, payload: string, mid: string, text: string, tail: string)
    ensures var line := Line(pre, payload, mid, text, tail);
            && HasAt(line, 0, pre)
            && HasAt(line, |pre|, PAYLOAD_KEY)
            && HasAt(line, |pre| + 11, "b")
            && HasAt(line, |pre| + 12, payload)
  {
    var line := Line(pre, payload, mid, text, tail);
    var rest := mid + TEXT_KEY + text + tail;
    assert line == pre + PAYLOAD_KEY + "b" + payload + rest;
    assert HasAt(line, 0, pre + PAYLOAD_KEY + "b" + payload);
    HasAtSplit(line, 0, pre + PAYLOAD_KEY + "b", payload);
    HasAtSplit(line, 0, pre + PAYLOAD_KEY, "b");
    HasAtSplit(line, 0, pre, PAYLOAD_KEY);
  }

  lemma TextPieces(pre: string, payload: string, mid: string, text: string, tail: string)
    ensures var line := Line(pre, payload, mid, text, tail);
            var b := |pre| + 12 + |payload|;
            && HasAt(line, b, mid)
            && HasAt(line, b + |mid|, TEXT_KEY)
            && HasAt(line, b + |mid| + 8, text)
  {
    var line := Line(pre, payload, mid, text, tail);
    var front := pre + PAYLOAD_KEY + "b" + payload;
    assert line == front + mid + TEXT_KEY + text + tail;
    assert HasAt(line, 0, front + mid + TEXT_KEY + text);
    HasAtSplit(line, 0, front + mid + TEXT_KEY, text);
    HasAtSplit(line, 0, front + mid, TEXT_KEY);
    HasAtSplit(line, 0, front, mid);
  }

  lemma FindsThePayload(pre: string, payload: string, mid: string, text: string, tail: string)
    requires Framed(pre, mid) && IsLiteral(payload)
    ensures var line := Line(pre, payload, mid, text, tail);
            FindPayload(line) == Some(|pre| + 12) && LiteralAt(line, |pre| + 12) == Some(|pre| + 12 + |payload|)
  {
    var line := Line(pre, payload, mid, text, tail);
    PayloadPieces(pre, payload, mid, text, tail);
    FindKeySkips(line, 0, |pre|, "payload");
    HasAtChars(line, |pre| + 11, "b");
    assert line[|pre| + 11] == "b"[0];
    assert PAYLOAD_KEY == "'" + "payload" + "': ";
    KeyMatches(line, |pre|, "payload", PAYLOAD_KEY);
  }

  lemma SilentUpToTheText(pre: string, payload: string, mid: string, text: string, tail: string, from: nat)
    requires Framed(pre, mid)
    requires from == |pre| + 12 + |payload| || (payload == "''" && from == |pre| + 12)
    ensures Silent(Line(pre, payload, mid, text, tail), from, |pre| + 12 + |payload| + |mid|, "text")
  {
    var line := Line(pre, payload, mid, text, tail);
    var b := |pre| + 12 + |payload|;
    TextPieces(pre, payload, mid, text, tail);
    if from != b {
      PayloadPieces(pre, payload, mid, text, tail);
      HasAtChars(line, b, mid);
      assert line[b] == mid[0];
      assert payload == ['\''] + "" + ['\''];
      QuietWord(line, from, '\'', "", "text");
    }
  }

  /** In any line: silence, then the text key with a literal behind it. */
  lemma TextKeyIsFound(line: string, from: nat, at: nat, text: string)
    requires from <= at && Silent(line, from, at, "text")
    requires HasAt(line, at, TEXT_KEY) && HasAt(line, at + 8, text) && IsLiteral(text)
    ensures TextLiteral(line, from) == Some((at + 8, at + 8 + |text|))
  {
    HasAtChars(line, at + 8, text);
    assert line[at + 8] == text[0];
    assert TEXT_KEY == "'" + "text" + "': ";
    KeyMatches(line, at, "text", TEXT_KEY);
    FindKeySkips(line, from, at, "text");
  }

  /** The search for the text key ends at the real one, from behind the payload literal, and from in
      front of it when that literal is empty. */
  lemma FindsTheText(pre: string, payload: string, mid: string, text: string, tail: string, from: nat)
    requires Framed(pre, mid) && IsLiteral(text)
    requires from == |pre| + 12 + |payload| || (payload == "''" && from == |pre| + 12)
    ensures var start := |pre| + 12 + |payload| + |mid| + 8;
            TextLiteral(Line(pre, payload, mid, text, tail), from) == Some((start, start + |text|))
  {
    var line, at := Line(pre, payload, mid, text, tail), |pre| + 12 + |payload| + |mid|;
    assert Silent(line, from, at, "text") by { SilentUpToTheText(pre, payload, mid, text, tail, from); }
    assert HasAt(line, at, TEXT_KEY) && HasAt(line, at + 8, text) by { TextPieces(pre, payload, mid, text, tail); }
    TextKeyIsFound(line, from, at, text);
  }

  lemma LineLooksLikeText(pre: string, payload: string, mid: string, text: string, tail: string)
    ensures LooksLikeText(Line(pre, payload, mid, text, tail))
  {
    var line, at := Line(pre, payload, mid, text, tail), |pre| + 12 + |payload| + |mid|;
    TextPieces(pre, payload, mid, text, tail);
    assert TEXT_KEY == "'text':" + " ";
    HasAtSplit(line, at, "'text':", " ");
    assert Contains(line, "'text':");
  }

  lemma ReadsWhatIsFound(line: string, raw: Option<string>, payload: nat, from: nat, start: nat, text: string)
    requires LooksLikeText(line) && FindPayload(line) == Some(payload) && LiteralAt(line, payload) == Some(from)
    requires TextLiteral(line, from) == Some((start, start + |text|)) && HasAt(line, start, text)
    requires |text| >= 2 && Decode(text).Some?
    ensures ExtractOr(line, raw) == if IsBlank(Decode(text).value) then None else Decode(text)
  {
  }

  lemma ReadsTheLiteral(pre: string, payload: string, mid: string, text: string, tail: string, raw: Option<string>)
    requires Framed(pre, mid) && IsLiteral(payload) && IsLiteral(text) && |text| >= 2 && Decode(text).Some?
    ensures ExtractOr(Line(pre, payload, mid, text, tail), raw)
         == if IsBlank(Decode(text).value) then None else Decode(text)
  {
    ReadsTheLine(Line(pre, payload, mid, text, tail), pre, payload, mid, text, tail, raw);
  }

  lemma ReadsTheLine(line: string, pre: string, payload: string, mid: string, text: string, tail: string,
      raw: Option<string>)
    requires Framed(pre, mid) && IsLiteral(payload) && IsLiteral(text) && |text| >= 2 && Decode(text).Some?
    requires line == Line(pre, payload, mid, text, tail)
    ensures ExtractOr(line, raw) == if IsBlank(Decode(text).value) then None else Decode(text)
  {
    LiteralsAreLocated(line, pre, payload, mid, text, tail);
    ReadsWhatIsFound(line, raw, |pre| + 12, |pre| + 12 + |payload|, |pre| + 12 + |payload| + |mid| + 8, text);
  }

  lemma LiteralsAreLocated(line: string, pre: string, payload: string, mid: string, text: string, tail: string)
    requires Framed(pre, mid) && IsLiteral(payload) && IsLiteral(text) && line == Line(pre, payload, mid, text, tail)
    ensures LooksLikeText(line) && FindPayload(line) == Some(|pre| + 12)
    ensures LiteralAt(line, |pre| + 12) == Some(|pre| + 12 + |payload|)
    ensures var b := |pre| + 12 + |payload|; var start := b + |mid| + 8;
            TextLiteral(line, b) == Some((start, start + |text|)) && HasAt(line, start, text)
  {
    LineLooksLikeText(pre, payload, mid, text, tail);
    FindsThePayload(pre, payload, mid, text, tail);
    FindsTheText(pre, payload, mid, text, tail, |pre| + 12 + |payload|);
    TextPieces(pre, payload, mid, text, tail);
  }

  lemma BlanksThePayload(pre: string, payload: string, mid: string, text: string, tail: string)
    requires Framed(pre, mid) && IsLiteral(payload)
    ensures BlankPayload(Line(pre, payload, mid, text, tail)) == Line(pre, "''", mid, text, tail)
  {
    var line := Line(pre, payload, mid, text, tail);
    var front, back := pre + PAYLOAD_KEY + "b", mid + TEXT_KEY + text + tail;
    FindsThePayload(pre, payload, mid, text, tail);
    assert line == front + payload + back;
    assert line[..|front|] == front && line[|front| + |payload|..] == back;
    assert Line(pre, "''", mid, text, tail) == front + "''" + back;
  }

  lemma ReplacesTheText(pre: string, mid: string, text: string, tail: string)
    ensures var out, start := Line(pre, "''", mid, text, tail), |pre| + 14 + |mid| + 8;
            |out| >= start + |text| && out[..start] + "''" + out[start + |text|..] == Line(pre, "''", mid, "''", tail)
  {
    var out := Line(pre, "''", mid, text, tail);
    var front := pre + PAYLOAD_KEY + "b" + "''" + mid + TEXT_KEY;
    assert out == front + text + tail;
    assert out[..|front|] == front && out[|front| + |text|..] == tail;
  }

  lemma BlanksBothLiterals(pre: string, payload: string, mid: string, text: string, tail: string)
    requires Framed(pre, mid) && IsLiteral(payload) && IsLiteral(text)
    ensures WithoutTextLiterals(Line(pre, payload, mid, text, tail)) == Line(pre, "''", mid, "''", tail)
  {
    FindsThePayload(pre, payload, mid, text, tail);
    BlanksThePayload(pre, payload, mid, text, tail);
    FindsTheText(pre, "''", mid, text, tail, |pre| + 12);
    ReplacesTheText(pre, mid, text, tail);
  }

  // ------------------------------------------------------------------ packets

  /** A text packet as the CLI prints it: fields the mesh fills in, the payload bytes, more such
      fields, the text, and after the text anything at all. */
  datatype Packet = Packet(
    header: string, before: seq<Item>, payload: seq<byte>, payloadSep: string, between: seq<Item>, text: string,
        tail: string)

  ghost predicate IsPacket(p: Packet) {
    && IsHeader(p.header)
    && AllQuiet(p.before, "payload")
    && p.payloadSep != [] && IsPunctuation(p.payloadSep[0])
    && (forall i :: 0 <= i < |p.payloadSep| ==> IsPunctuation(p.payloadSep[i]) || p.payloadSep[i] == ' ')
    && AllQuiet(p.between, "text")
  }

  function PrintPacket(p: Packet, printable: char -> bool): string {
    Line(p.header + Print(p.before, printable), BytesLiteral(p.payload),
         p.payloadSep + Print(p.between, printable), Repr(p.text, printable), p.tail)
  }

  lemma PacketIsFramed(p: Packet, printable: char -> bool)
    requires IsPacket(p)
    ensures Framed(p.header + Print(p.before, printable), p.payloadSep + Print(p.between, printable))
  {
    QuoteFreeHides(p.header, "payload");
    ItemsHide(p.before, printable, "payload");
    HidesBoth(p.header, Print(p.before, printable), "payload");
    QuoteFreeHides(p.payloadSep, "text");
    ItemsHide(p.between, printable, "text");
    HidesBoth(p.payloadSep, Print(p.between, printable), "text");
  }

  /** Reading undoes printing: whatever quotes, backslashes, line ends or fake fields the text holds,
      `extract_text_message` returns exactly the text, and nothing for a text of whitespace only. */
  lemma ExtractingUndoesPrinting(p: Packet, printable: char -> bool)
    requires IsPacket(p) && AsciiAgrees(printable)
    ensures ExtractText(PrintPacket(p, printable)) == if IsBlank(p.text) then None else Some(p.text)
  {
    PacketIsFramed(p, printable);
    ReprIsLiteral(Latin(p.payload), AsciiPrintable());
    ReprIsLiteral(p.text, printable);
    DecodeRepr(p.text, printable);
    ReadsTheLiteral(p.header + Print(p.before, printable), BytesLiteral(p.payload),
                    p.payloadSep + Print(p.between, printable), Repr(p.text, printable), p.tail,
                    Fallback(PrintPacket(p, printable)));
  }

  /** `line_without_text_literals` prints the same packet with empty payload and empty text. */
  lemma BlankingEmptiesPayloadAndText(p: Packet, printable: char -> bool)
    requires IsPacket(p)
    ensures WithoutTextLiterals(PrintPacket(p, printable)) == PrintPacket(p.(payload := [], text := ""), printable)
  {
    PacketIsFramed(p, printable);
    ReprIsLiteral(Latin(p.payload), AsciiPrintable());
    ReprIsLiteral(p.text, printable);
    ReprIsLiteral("", printable);
    assert Repr("", printable) == "''" == BytesLiteral([]);
    BlanksBothLiterals(p.header + Print(p.before, printable), BytesLiteral(p.payload),
                       p.payloadSep + Print(p.between, printable), Repr(p.text, printable), p.tail);
  }

  /** Two packets that differ only in text and payload give the same blanked line, so nothing read from
      that line can depend on the text. */
  lemma MetadataIsIndependentOfTheText(p: Packet, q: Packet, printable: char -> bool)
    requires IsPacket(p) && q == p.(text := q.text, payload := q.payload)
    ensures WithoutTextLiterals(PrintPacket(p, printable)) == WithoutTextLiterals(PrintPacket(q, printable))
  {
    BlankingEmptiesPayloadAndText(p, printable);
    BlankingEmptiesPayloadAndText(q, printable);
  }
}
