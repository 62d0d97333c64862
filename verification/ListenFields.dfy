/** Looking up one string field of a printed line, whatever the string values contain. */
module ListenFields {
  import opened Options
  import opened PyText
  import opened PyLiteral
  import opened ListenLine
  import opened ListenPrint
  import opened Utf8Stream

  // ------------------------------------------------------------------ the masked copy of a printed line

  function MaskedLiteral(token: string): string
    requires |token| >= 2
  {
    [token[0]] + Underscores(|token| - 2) + [token[0]]
  }

  function MaskedValue(v: Value, printable: char -> bool): string {
    match v
    case Raw(text) => text
    case Str(s) => MaskedLiteral(Repr(s, printable))
    case Bytes(bs) => "b" + MaskedLiteral(BytesLiteral(bs))
  }

  function MaskedItem(item: Item, printable: char -> bool): (m: string)
    ensures |m| == |PrintItem(item, printable)|
  {
    KeyText(item.key) + MaskedValue(item.value, printable) + item.sep
  }

  function MaskedItems(items: seq<Item>, printable: char -> bool): (m: string)
    ensures |m| == |Print(items, printable)|
  {
    if items == [] then "" else MaskedItem(items[0], printable) + MaskedItems(items[1..], printable)
  }

  /** The mask from a position on; nothing past the end. */
  function MaskFrom(text: string, i: nat): string {
    if i <= |text| then Mask(text, i) else ""
  }

  /** A rewriting of texts given by what it makes of each suffix.  How pieces of a rewritten text fit
      together does not depend on which rewriting it is, so that part is kept apart from masking. */
  type Rewriting = (string, nat) -> string

  /** From `a` to `b` the rewriting of `text` reads `piece`. */
  ghost predicate Reads(f: Rewriting, text: string, a: nat, b: nat, piece: string) {
    a <= b <= |text| && f(text, a) == piece + f(text, b)
  }

  lemma ReadsInTurn(f: Rewriting, text: string, a: nat, b: nat, c: nat, u: string, v: string)
    requires Reads(f, text, a, b, u) && Reads(f, text, b, c, v)
    ensures Reads(f, text, a, c, u + v)
  {
    Assoc(u, v, f(text, c));
  }

  /** Wherever `piece` sits in a text, it is rewritten to `masked`. */
  ghost predicate Becomes(f: Rewriting, piece: string, masked: string) {
    && |piece| == |masked|
    && forall text: string, off: nat {:trigger HasAt(text, off, piece)} ::
         HasAt(text, off, piece) ==> Reads(f, text, off, off + |piece|, masked)
  }

  /** The same for a piece that punctuation follows. */
  ghost predicate ValueBecomes(f: Rewriting, piece: string, masked: string) {
    && |piece| == |masked|
    && forall text: string, off: nat {:trigger HasAt(text, off, piece)} ::
         HasAt(text, off, piece) && off + |piece| < |text| && IsPunctuation(text[off + |piece|]) ==>
           Reads(f, text, off, off + |piece|, masked)
  }

  lemma BothBecome(f: Rewriting, u: string, u': string, v: string, v': string)
    requires Becomes(f, u, u') && Becomes(f, v, v')
    ensures Becomes(f, u + v, u' + v')
  {
    forall text: string, off: nat | HasAt(text, off, u + v) ensures Reads(f, text, off, off + |u + v|, u' + v') {
      HasAtSplit(text, off, u, v);
      ReadsInTurn(f, text, off, off + |u|, off + |u| + |v|, u', v');
    }
  }

  lemma PrefixedValueBecomes(f: Rewriting, prefix: string, piece: string, masked: string)
    requires Becomes(f, prefix, prefix) && ValueBecomes(f, piece, masked)
    ensures ValueBecomes(f, prefix + piece, prefix + masked)
  {
    forall text: string, off: nat
      | HasAt(text, off, prefix + piece) && off + |prefix + piece| < |text|
          && IsPunctuation(text[off + |prefix + piece|])
      ensures Reads(f, text, off, off + |prefix + piece|, prefix + masked)
    {
      HasAtSplit(text, off, prefix, piece);
      ReadsInTurn(f, text, off, off + |prefix|, off + |prefix| + |piece|, prefix, masked);
    }
  }

  lemma FieldBecomes(f: Rewriting, key: string, shown: string, hidden: string, sep: string)
    requires Becomes(f, key, key) && ValueBecomes(f, shown, hidden) && Becomes(f, sep, sep)
    requires sep != [] && IsPunctuation(sep[0])
    ensures Becomes(f, key + shown + sep, key + hidden + sep)
  {
    forall text: string, off: nat | HasAt(text, off, key + shown + sep)
      ensures Reads(f, text, off, off + |key + shown + sep|, key + hidden + sep)
    {
      HasAtSplit3(text, off, key, shown, sep);
      var a := off + |key|;
      var b := a + |shown|;
      ReadsInTurn(f, text, off, a, b, key, hidden);
      ReadsInTurn(f, text, off, b, b + |sep|, key + hidden, sep);
    }
  }

  lemma WholeBecomes(f: Rewriting, text: string, masked: string)
    requires Becomes(f, text, masked) && f(text, |text|) == ""
    ensures f(text, 0) == masked
  {
    assert HasAt(text, 0, text);
    assert Reads(f, text, 0, |text|, masked);
    assert masked + "" == masked;
  }

  // what masking makes of unquoted text, of a key, and of a string value

  lemma {:induction false} MaskKeepsUnquoted(text: string, a: nat, piece: string)
    requires HasAt(text, a, piece) && IsPlain(piece)
    ensures Reads(MaskFrom, text, a, a + |piece|, piece)
    decreases |piece|
  {
    HasAtChars(text, a, piece);
    if piece == [] {
      assert piece + MaskFrom(text, a) == MaskFrom(text, a);
    } else {
      assert piece == [piece[0]] + piece[1..];
      HasAtSplit(text, a, [piece[0]], piece[1..]);
      assert text[a] == piece[0];
      MaskKeepsUnquoted(text, a + 1, piece[1..]);
      assert Reads(MaskFrom, text, a, a + 1, [piece[0]]);
      ReadsInTurn(MaskFrom, text, a, a + 1, a + |piece|, [piece[0]], piece[1..]);
    }
  }

  lemma KeyLiteral(text: string, off: nat, key: string)
    requires HasAt(text, off, ['\''] + key + ['\'']) && IsIdentifier(key)
    ensures LiteralAt(text, off) == Some(off + |key| + 2)
  {
    HasAtSplit(text, off, ['\''] + key, ['\'']);
    HasAtSplit(text, off, ['\''], key);
    var close := off + |key| + 1;
    HasAtChars(text, off, ['\'']);
    HasAtChars(text, close, ['\'']);
    assert text[off] == ['\''][0] && text[close] == ['\''][0];
    KeyIsProtected(key);
    ScanFindsTheClosingQuote(text, off + 1, close, '\'');
  }

  lemma MaskKeepsQuotedKey(text: string, off: nat, quoted: string)
    requires HasAt(text, off, quoted) && LiteralAt(text, off) == Some(off + |quoted|)
    requires off + |quoted| < |text| && text[off + |quoted|] == ':'
    ensures Reads(MaskFrom, text, off, off + |quoted|, quoted)
  {
    assert IsKeyLiteral(text, off + |quoted|);
  }

  lemma MaskKeepsKey(text: string, off: nat, key: string)
    requires HasAt(text, off, KeyText(key)) && IsIdentifier(key)
    ensures Reads(MaskFrom, text, off, off + |KeyText(key)|, KeyText(key))
  {
    var quoted := ['\''] + key + ['\''];
    assert KeyText(key) == quoted + ": ";
    HasAtSplit(text, off, quoted, ": ");
    KeyLiteral(text, off, key);
    HasAtChars(text, off + |quoted|, ": ");
    assert text[off + |quoted|] == ": "[0];
    MaskKeepsQuotedKey(text, off, quoted);
    MaskKeepsUnquoted(text, off + |quoted|, ": ");
    ReadsInTurn(MaskFrom, text, off, off + |quoted|, off + |quoted| + 2, quoted, ": ");
  }

  lemma {:induction false} KeyIsProtected(key: string)
    requires forall i :: 0 <= i < |key| ==> IsWord(key[i])
    ensures Protected(key, '\'')
  {
    if key != [] { KeyIsProtected(key[1..]); }
  }

  lemma MaskHidesLiteral(text: string, off: nat, s: string, printable: char -> bool)
    requires HasAt(text, off, Repr(s, printable))
    requires off + |Repr(s, printable)| < |text| && IsPunctuation(text[off + |Repr(s, printable)|])
    ensures Reads(MaskFrom, text, off, off + |Repr(s, printable)|, MaskedLiteral(Repr(s, printable)))
  {
    LiteralAtRepr(text, off, s, printable);
    HasAtChars(text, off, Repr(s, printable));
    assert text[off] == Repr(s, printable)[0];
    assert !IsKeyLiteral(text, off + |Repr(s, printable)|);
  }

  lemma UnquotedIsKept(piece: string)
    requires IsPlain(piece)
    ensures Becomes(MaskFrom, piece, piece)
  {
    forall text: string, off: nat | HasAt(text, off, piece) ensures Reads(MaskFrom, text, off, off + |piece|, piece) {
      MaskKeepsUnquoted(text, off, piece);
    }
  }

  lemma KeyIsKept(name: string)
    requires IsIdentifier(name)
    ensures Becomes(MaskFrom, KeyText(name), KeyText(name))
  {
    KeyPieceIsKept(name, KeyText(name));
  }

  lemma KeyPieceIsKept(name: string, piece: string)
    requires IsIdentifier(name) && piece == KeyText(name)
    ensures Becomes(MaskFrom, piece, piece)
  {
    forall text: string, off: nat | HasAt(text, off, piece) ensures Reads(MaskFrom, text, off, off + |piece|, piece) {
      MaskKeepsKey(text, off, name);
    }
  }

  lemma LiteralIsHidden(s: string, printable: char -> bool)
    ensures ValueBecomes(MaskFrom, Repr(s, printable), MaskedLiteral(Repr(s, printable)))
  {
    var piece := Repr(s, printable);
    forall text: string, off: nat | HasAt(text, off, piece) && off + |piece| < |text|
        && IsPunctuation(text[off + |piece|])
      ensures Reads(MaskFrom, text, off, off + |piece|, MaskedLiteral(piece))
    {
      MaskHidesLiteral(text, off, s, printable);
    }
  }

  lemma ValueIsMasked(v: Value, printable: char -> bool)
    requires v.Raw? ==> IsPlain(v.text)
    ensures ValueBecomes(MaskFrom, PrintValue(v, printable), MaskedValue(v, printable))
  {
    match v
    case Raw(t) => UnquotedIsKept(t);
    case Str(s) => LiteralIsHidden(s, printable);
    case Bytes(bs) =>
      UnquotedIsKept("b");
      LiteralIsHidden(Latin(bs), AsciiPrintable());
      PrefixedValueBecomes(MaskFrom, "b", BytesLiteral(bs), MaskedLiteral(BytesLiteral(bs)));
  }

  lemma ItemIsMasked(item: Item, printable: char -> bool)
    requires WellFormed(item)
    ensures Becomes(MaskFrom, PrintItem(item, printable), MaskedItem(item, printable))
  {
    KeyIsKept(item.key);
    ValueIsMasked(item.value, printable);
    UnquotedIsKept(item.sep);
    FieldBecomes(MaskFrom, KeyText(item.key), PrintValue(item.value, printable), MaskedValue(item.value, printable),
        item.sep);
  }

  lemma {:induction false} ItemsAreMasked(items: seq<Item>, printable: char -> bool)
    requires forall i :: 0 <= i < |items| ==> WellFormed(items[i])
    ensures Becomes(MaskFrom, Print(items, printable), MaskedItems(items, printable))
    decreases |items|
  {
    if items == [] {
      UnquotedIsKept("");
    } else {
      ItemIsMasked(items[0], printable);
      ItemsAreMasked(items[1..], printable);
      BothBecome(MaskFrom, PrintItem(items[0], printable), MaskedItem(items[0], printable),
                 Print(items[1..], printable), MaskedItems(items[1..], printable));
    }
  }

  /** Masking a printed line keeps its length, its keys and everything outside strings, and hides the
      content of every string value. */
  lemma MaskOfPrintedLine(header: string, items: seq<Item>, printable: char -> bool)
    requires IsHeader(header) && forall i :: 0 <= i < |items| ==> WellFormed(items[i])
    ensures Mask(header + Print(items, printable), 0) == header + MaskedItems(items, printable)
  {
    UnquotedIsKept(header);
    ItemsAreMasked(items, printable);
    BothBecome(MaskFrom, header, header, Print(items, printable), MaskedItems(items, printable));
    var text := header + Print(items, printable);
    assert MaskFrom(text, |text|) == "";
    WholeBecomes(MaskFrom, text, header + MaskedItems(items, printable));
  }

  // ------------------------------------------------------------------ where the field pattern can match

  ghost predicate FieldSilent(m: string, a: nat, b: nat, key: string) {
    forall i {:trigger FieldEnd(m, i, key)} :: a <= i < b ==> FieldEnd(m, i, key).None?
  }

  lemma {:induction false} FindFieldSkips(m: string, a: nat, b: nat, key: string)
    requires a <= b && FieldSilent(m, a, b, key)
    ensures FindField(m, a, key) == FindField(m, b, key)
    decreases b - a
  {
    if a < b {
      assert FieldEnd(m, a, key).None?;
      FindFieldSkips(m, a + 1, b, key);
    }
  }

  /** The anatomy of a match: an optional quote, word characters, an optional quote, spaces, a colon. */
  lemma FieldShape(m: string, i: nat, key: string) returns (k: nat, a: nat, b: nat, colon: nat)
    requires IsIdentifier(key) && FieldEnd(m, i, key).Some?
    ensures k == if IsQuote(m[i]) then i + 1 else i
    ensures a == k + |key| && a <= b <= a + 1 && b <= colon < |m|
    ensures SameIgnoringCase(m[k..a], key)
    ensures forall x :: k <= x < a ==> IsWord(m[x])
    ensures b == a + 1 <==> IsQuote(m[a])
    ensures forall x :: b <= x < colon ==> IsSpace(m[x])
    ensures m[colon] == ':'
    ensures i > 0 ==> !IsWord(m[i - 1])
  {
    k := if IsQuote(m[i]) then i + 1 else i;
    a := k + |key|;
    b := if a < |m| && IsQuote(m[a]) then a + 1 else a;
    colon := SkipSpaces(m, b);
    forall x | k <= x < a ensures IsWord(m[x]) {
      assert m[k..a][x - k] == m[x];
      assert Fold(m[x]) == Fold(key[x - k]) && IsWord(key[x - k]);
    }
  }

  /** A match that starts before a structural character (punctuation) has its colon before it too. */
  lemma ColonBefore(m: string, i: nat, key: string, stop: nat) returns (colon: nat)
    requires IsIdentifier(key) && FieldEnd(m, i, key).Some? && i <= stop < |m| && IsPunctuation(m[stop])
    ensures i < colon < stop && m[colon] == ':'
  {
    var k, a, b, c := FieldShape(m, i, key);
    colon := c;
  }

  lemma SilentWithoutColon(m: string, a: nat, stop: nat, key: string)
    requires IsIdentifier(key) && a <= stop < |m| && IsPunctuation(m[stop])
    requires forall x :: a <= x < stop ==> m[x] != ':'
    ensures FieldSilent(m, a, stop + 1, key)
  {
    forall i | a <= i < stop + 1 ensures FieldEnd(m, i, key).None? {
      if FieldEnd(m, i, key).Some? {
        var colon := ColonBefore(m, i, key, stop);
      }
    }
  }

  lemma SilentAtNonWords(m: string, a: nat, b: nat, key: string)
    requires IsIdentifier(key) && b <= |m| && forall x :: a <= x < b ==> !IsQuote(m[x]) && !IsWord(m[x])
    ensures FieldSilent(m, a, b, key)
  {
    forall i | a <= i < b ensures FieldEnd(m, i, key).None? {
      if FieldEnd(m, i, key).Some? {
        var k, a', b', colon := FieldShape(m, i, key);
      }
    }
  }

  /** In a quote-free stretch that ends with punctuation nothing matches: no value could follow. */
  lemma SilentWithoutQuotes(m: string, a: nat, stop: nat, key: string)
    requires IsIdentifier(key) && a <= stop < |m| && IsPunctuation(m[stop])
    requires forall x :: a <= x <= stop ==> !IsQuote(m[x])
    ensures FieldSilent(m, a, stop + 1, key)
  {
    forall i | a <= i < stop + 1 ensures FieldEnd(m, i, key).None? {
      if FieldEnd(m, i, key).Some? {
        var k, a', b', colon := FieldShape(m, i, key);
      }
    }
  }

  lemma HeaderIsSilent(m: string, header: string, key: string)
    requires IsIdentifier(key) && IsHeader(header) && HasAt(m, 0, header)
    ensures FieldSilent(m, 0, |header|, key)
  {
    HasAtChars(m, 0, header);
    assert m[|header| - 1] == header[|header| - 1];
    SilentWithoutQuotes(m, 0, |header| - 1, key);
  }

  /** A match inside `'name': ` spells out the whole name, and a quote follows. */
  lemma MatchSpellsTheName(m: string, off: nat, name: string, key: string, i: nat)
    requires IsIdentifier(key) && IsIdentifier(name) && HasAt(m, off, KeyText(name))
    requires off <= i <= off + 1 + |name| && FieldEnd(m, i, key).Some?
    ensures SameIgnoringCase(name, key) && QuoteFollows(m, off + |name| + 3)
  {
    KeyChars(m, off, name);
    MatchSpansTheWord(m, off, off + 1 + |name|, key, i);
  }

  /** A quote is the first thing from `i` on that is no space. */
  predicate QuoteFollows(m: string, i: nat) {
    i <= |m| && SkipSpaces(m, i) < |m| && IsQuote(m[SkipSpaces(m, i)])
  }

  lemma QuoteAfterColon(m: string, i: nat, key: string, k: nat, a: nat, b: nat, colon: nat)
    requires FieldEnd(m, i, key).Some? && k == (if IsQuote(m[i]) then i + 1 else i) && a == k + |key| && a < |m|
    requires b == (if IsQuote(m[a]) then a + 1 else a) && b <= |m| && colon == SkipSpaces(m, b)
    ensures QuoteFollows(m, colon + 1)
  {
  }

  lemma MatchSpansTheWord(m: string, off: nat, close: nat, key: string, i: nat)
    requires IsIdentifier(key) && off < close < |m| - 1 && off <= i <= close && FieldEnd(m, i, key).Some?
    requires m[off] == '\'' && m[close] == '\'' && m[close + 1] == ':' && forall x :: off < x < close ==> IsWord(m[x])
    ensures SameIgnoringCase(m[off + 1..close], key) && QuoteFollows(m, close + 2)
  {
    var k, a, b, colon := FieldShape(m, i, key);
    assert colon == close + 1;
    assert a == close;
    assert k == off + 1;
    SkipNothing(m, colon);
    QuoteAfterColon(m, i, key, k, a, b, colon);
  }

  /** Inside `'name': `, only a key equal to `name` up to case can match, and only if a quote follows. */
  lemma OtherKeyIsSilent(m: string, off: nat, name: string, key: string)
    requires IsIdentifier(key) && IsIdentifier(name) && HasAt(m, off, KeyText(name))
    requires !SameIgnoringCase(name, key) || !QuoteFollows(m, off + |name| + 3)
    ensures FieldSilent(m, off, off + |KeyText(name)|, key)
  {
    var close := off + 1 + |name|;
    forall i | off <= i < close + 1 ensures FieldEnd(m, i, key).None? {
      if FieldEnd(m, i, key).Some? { MatchSpellsTheName(m, off, name, key, i); }
    }
    KeyChars(m, off, name);
    SilentAtNonWords(m, close + 1, close + 3, key);
  }

  lemma {:induction false} SkipStops(m: string, i: nat, stop: nat)
    requires i <= stop < |m| && !IsSpace(m[stop])
    ensures SkipSpaces(m, i) <= stop
    decreases stop - i
  {
    if i < stop && IsSpace(m[i]) { SkipStops(m, i + 1, stop); }
  }

  /** A printed value that is no string: no quote at all, or something else before the first one. */
  predicate Unquoted(hidden: string) {
    IsPlain(hidden) || (hidden != [] && !IsSpace(hidden[0]) && !IsQuote(hidden[0]))
  }

  lemma NoQuoteFollows(m: string, off: nat, name: string, hidden: string, sep: string)
    requires IsIdentifier(name) && Unquoted(hidden) && sep != [] && IsPunctuation(sep[0])
    requires HasAt(m, off, KeyText(name)) && HasAt(m, off + |name| + 4, hidden)
    requires HasAt(m, off + |name| + 4 + |hidden|, sep)
    ensures !QuoteFollows(m, off + |name| + 3)
  {
    var a := off + |name| + 4;
    var b := a + |hidden|;
    KeyChars(m, off, name);
    HasAtChars(m, a, hidden);
    HasAtChars(m, b, sep);
    assert m[b] == sep[0] && m[a - 1] == ' ';
    assert SkipSpaces(m, a - 1) == SkipSpaces(m, a);
    SkipStops(m, a, b);
  }

  lemma MaskedValueHasNoColon(v: Value, printable: char -> bool)
    requires v.Raw? ==> forall i :: 0 <= i < |v.text| ==> v.text[i] != ':'
    ensures forall i :: 0 <= i < |MaskedValue(v, printable)| ==> MaskedValue(v, printable)[i] != ':'
  {
  }

  /** Wherever this piece sits in a masked line, the pattern for `key` does not match in it. */
  ghost predicate Mute(piece: string, key: string) {
    forall m: string, off: nat {:trigger HasAt(m, off, piece)} ::
      HasAt(m, off, piece) ==> FieldSilent(m, off, off + |piece|, key)
  }

  lemma OtherFieldIsMute(name: string, keyText: string, hidden: string, sep: string, key: string)
    requires IsIdentifier(key) && IsIdentifier(name) && keyText == KeyText(name)
    requires !SameIgnoringCase(name, key) || Unquoted(hidden)
    requires forall i :: 0 <= i < |hidden| ==> hidden[i] != ':'
    requires sep != [] && IsPunctuation(sep[0]) && forall i :: 0 <= i < |sep| ==> IsPunctuation(sep[i]) || sep[i] == ' '
    ensures Mute(keyText + hidden + sep, key)
  {
    forall m: string, off: nat | HasAt(m, off, keyText + hidden + sep)
      ensures FieldSilent(m, off, off + |keyText + hidden + sep|, key)
    {
      HasAtSplit3(m, off, keyText, hidden, sep);
      var a := off + |keyText|;
      var b := a + |hidden|;
      assert FieldSilent(m, off, a, key) by {
        if Unquoted(hidden) { NoQuoteFollows(m, off, name, hidden, sep); }
        OtherKeyIsSilent(m, off, name, key);
      }
      assert FieldSilent(m, a, b + 1, key) by {
        HasAtChars(m, a, hidden);
        HasAtChars(m, b, sep);
        SilentWithoutColon(m, a, b, key);
      }
      assert FieldSilent(m, b, b + |sep|, key) by {
        HasAtChars(m, b, sep);
        SilentAtNonWords(m, b, b + |sep|, key);
      }
    }
  }

  lemma BothMute(u: string, v: string, key: string)
    requires Mute(u, key) && Mute(v, key)
    ensures Mute(u + v, key)
  {
    forall m: string, off: nat | HasAt(m, off, u + v) ensures FieldSilent(m, off, off + |u + v|, key) {
      HasAtSplit(m, off, u, v);
    }
  }

  /** No item is a string field of that key; one of that key may hold a number, bytes or a dictionary. */
  ghost predicate NoSuchField(items: seq<Item>, key: string) {
    forall i :: 0 <= i < |items| ==>
      WellFormed(items[i]) && (SameIgnoringCase(items[i].key, key) ==> !items[i].value.Str?)
  }

  lemma OtherValueIsUnquoted(v: Value, printable: char -> bool)
    requires !v.Str? && (v.Raw? ==> IsPlain(v.text))
    ensures Unquoted(MaskedValue(v, printable))
  {
    if v.Bytes? { assert MaskedValue(v, printable)[0] == 'b'; }
  }

  lemma {:induction false} OtherItemsAreMute(items: seq<Item>, printable: char -> bool, key: string)
    requires IsIdentifier(key) && NoSuchField(items, key)
    ensures Mute(MaskedItems(items, printable), key)
    decreases |items|
  {
    if items != [] {
      var item := items[0];
      assert Mute(MaskedItem(item, printable), key) by {
        MaskedValueHasNoColon(item.value, printable);
        if !item.value.Str? { OtherValueIsUnquoted(item.value, printable); }
        OtherFieldIsMute(item.key, KeyText(item.key), MaskedValue(item.value, printable), item.sep, key);
      }
      OtherItemsAreMute(items[1..], printable, key);
      BothMute(MaskedItem(item, printable), MaskedItems(items[1..], printable), key);
    }
  }

  lemma FieldEndAt(m: string, i: nat, key: string, close: nat, e: nat)
    requires close == i + 1 + |key| && close + 1 < |m| && (i > 0 ==> !IsWord(m[i - 1]))
    requires IsQuote(m[i]) && SameIgnoringCase(m[i + 1..close], key) && IsQuote(m[close])
    requires SkipSpaces(m, close + 1) == close + 1 && m[close + 1] == ':'
    requires SkipSpaces(m, close + 2) == e && e < |m| && IsQuote(m[e])
    ensures FieldEnd(m, i, key) == Some(e)
  {
  }

  /** At the real field the pattern matches, up to the opening quote of the value. */
  lemma FieldMatches(m: string, off: nat, name: string, key: string)
    requires IsIdentifier(name) && SameIgnoringCase(name, key) && HasAt(m, off, KeyText(name))
    requires off > 0 ==> !IsWord(m[off - 1])
    requires off + |name| + 4 < |m| && IsQuote(m[off + |name| + 4])
    ensures FieldEnd(m, off, key) == Some(off + |name| + 4)
  {
    var n := |name|;
    KeyChars(m, off, name);
    SkipNothing(m, off + n + 2);
    SkipOneSpace(m, off + n + 3);
    FieldEndAt(m, off, key, off + n + 1, off + n + 4);
  }

  // ------------------------------------------------------------------ the lookup on printed lines

  /** A key that is no field of the line is not found, however often it occurs inside string values. */
  lemma AbsentFieldIsNotFound(header: string, items: seq<Item>, printable: char -> bool, key: string)
    requires IsHeader(header) && IsIdentifier(key) && NoSuchField(items, key)
    ensures var line := header + Print(items, printable); FieldToken(line, Mask(line, 0), 0, key) == None
  {
    var m := header + MaskedItems(items, printable);
    assert Mask(header + Print(items, printable), 0) == m by { MaskOfPrintedLine(header, items, printable); }
    assert FieldSilent(m, 0, |m|, key) by {
      OtherItemsAreMute(items, printable, key);
      assert HasAt(m, 0, m);
      FrontIsSilent(m, m, header, MaskedItems(items, printable), key);
    }
    NothingIsFound(header + Print(items, printable), m, key);
  }

  lemma NothingIsFound(text: string, masked: string, key: string)
    requires FieldSilent(masked, 0, |masked|, key)
    ensures FieldToken(text, masked, 0, key) == None
  {
    FindFieldSkips(masked, 0, |masked|, key);
  }

  lemma {:induction false} PrintAppend(a: seq<Item>, b: seq<Item>, printable: char -> bool)
    ensures Print(a + b, printable) == Print(a, printable) + Print(b, printable)
    ensures MaskedItems(a + b, printable) == MaskedItems(a, printable) + MaskedItems(b, printable)
    decreases |a|
  {
    if a == [] {
      assert a + b == b;
    } else {
      assert (a + b)[1..] == a[1..] + b;
      PrintAppend(a[1..], b, printable);
      Assoc(PrintItem(a[0], printable), Print(a[1..], printable), Print(b, printable));
      Assoc(MaskedItem(a[0], printable), MaskedItems(a[1..], printable), MaskedItems(b, printable));
    }
  }

  lemma {:induction false} LastOfItems(items: seq<Item>, printable: char -> bool)
    requires items != [] && forall i :: 0 <= i < |items| ==> WellFormed(items[i])
    ensures var m := MaskedItems(items, printable); m != [] && !IsWord(m[|m| - 1])
    decreases |items|
  {
    var first, sep := MaskedItem(items[0], printable), items[0].sep;
    assert first[|first| - 1] == sep[|sep| - 1];
    if |items| > 1 {
      LastOfItems(items[1..], printable);
    } else {
      assert MaskedItems(items, printable) == first + "";
    }
  }

  /** At the start of any item the character before is no word character. */
  lemma NoWordBefore(header: string, items: seq<Item>, printable: char -> bool)
    requires IsHeader(header) && forall i :: 0 <= i < |items| ==> WellFormed(items[i])
    ensures var front := header + MaskedItems(items, printable); !IsWord(front[|front| - 1])
  {
    var tail := MaskedItems(items, printable);
    if items != [] {
      LastOfItems(items, printable);
      LastOfConcat(header, tail);
    } else {
      assert tail == "" && header + tail == header;
    }
  }

  lemma LastOfConcat(a: string, b: string)
    requires b != []
    ensures (a + b)[|a + b| - 1] == b[|b| - 1]
  {
  }

  /** The pieces of a printed line and of its mask around one field. */
  lemma FieldPieces(front: string, key: string, value: string, rest: string)
    ensures var line := front + (key + value + rest);
            && HasAt(line, 0, front) && HasAt(line, |front|, key) && HasAt(line, |front| + |key|, value)
  {
    var line := front + (key + value + rest);
    assert HasAt(line, |front|, key + value + rest);
    HasAtSplit3(line, |front|, key, value, rest);
  }

  /** The first match decides, if a whole literal follows it. */
  lemma TokenOfMatch(text: string, masked: string, at: nat, key: string, e: nat, token: string)
    requires FieldSilent(masked, 0, at, key) && at < |masked| && FieldEnd(masked, at, key) == Some(e)
    requires HasAt(text, e, token) && LiteralAt(text, e) == Some(e + |token|)
    ensures FieldToken(text, masked, 0, key) == Some(token)
  {
    FindFieldSkips(masked, 0, at, key);
  }

  lemma FrontIsSilent(m: string, front: string, header: string, mbefore: string, key: string)
    requires IsIdentifier(key) && IsHeader(header) && Mute(mbefore, key) && front == header + mbefore
        && HasAt(m, 0, front)
    ensures FieldSilent(m, 0, |front|, key)
  {
    HasAtSplit(m, 0, header, mbefore);
    HeaderIsSilent(m, header, key);
    assert FieldSilent(m, |header|, |front|, key);
  }

  lemma KeyIsMatched(m: string, front: string, name: string, nameText: string, hidden: string, mrest: string,
      key: string)
    requires IsIdentifier(name) && SameIgnoringCase(name, key) && nameText == KeyText(name)
    requires front != [] && !IsWord(front[|front| - 1]) && hidden != [] && IsQuote(hidden[0])
    requires m == front + (nameText + hidden + mrest)
    ensures FieldEnd(m, |front|, key) == Some(|front| + |nameText|)
  {
    assert HasAt(m, |front|, nameText) && m[|front| + |nameText|] == hidden[0] by {
      FieldPieces(front, nameText, hidden, mrest);
      HasAtChars(m, |front| + |nameText|, hidden);
    }
    assert m[|front| - 1] == front[|front| - 1];
    FieldMatches(m, |front|, name, key);
  }

  lemma ValueIsLiteral(line: string, front: string, nameText: string, token: string, rest: string)
    requires IsLiteral(token) && line == front + (nameText + token + rest)
    ensures HasAt(line, |front| + |nameText|, token)
    ensures LiteralAt(line, |front| + |nameText|) == Some(|front| + |nameText| + |token|)
  {
    FieldPieces(front, nameText, token, rest);
  }

  /** The lookup in a line and its mask written out around the field. */
  lemma FieldInStrings(
    line: string, m: string, before: string, front: string, header: string, mbefore: string, name: string,
    nameText: string, token: string, hidden: string, rest: string, mrest: string, key: string)
    requires IsIdentifier(key) && IsHeader(header) && Mute(mbefore, key) && |before| == |front|
    requires IsIdentifier(name) && SameIgnoringCase(name, key) && nameText == KeyText(name)
    requires front == header + mbefore && front != [] && !IsWord(front[|front| - 1])
    requires IsLiteral(token) && hidden != [] && IsQuote(hidden[0])
    requires line == before + (nameText + token + rest)
    requires m == front + (nameText + hidden + mrest)
    ensures FieldToken(line, m, 0, key) == Some(token)
  {
    var e := |front| + |nameText|;
    assert FieldSilent(m, 0, |front|, key) by { FrontIsSilent(m, front, header, mbefore, key); }
    assert FieldEnd(m, |front|, key) == Some(e) by { KeyIsMatched(m, front, name, nameText, hidden, mrest, key); }
    assert HasAt(line, e, token) && LiteralAt(line, e) == Some(e + |token|) by {
      ValueIsLiteral(line, before, nameText, token, rest);
    }
    TokenOfMatch(line, m, |front|, key, e, token);
  }

  lemma WellFormedAround(items: seq<Item>, before: seq<Item>, item: Item, after: seq<Item>)
    requires items == before + [item] + after && WellFormed(item)
    requires (forall i :: 0 <= i < |before| ==> WellFormed(before[i])) && forall i :: 0 <= i < |after| ==>
        WellFormed(after[i])
    ensures forall i :: 0 <= i < |items| ==> WellFormed(items[i])
  {
    forall i | 0 <= i < |items| ensures WellFormed(items[i]) {
      assert items[i] == if i < |before| then before[i] else if i == |before| then item else after[i - |before| - 1];
    }
  }

  /** The field in a line whose text and mask are known around it. */
  lemma FieldOfSplitLine(
    line: string, m: string, header: string, before: seq<Item>, item: Item, rest: string, mrest: string,
    printable: char -> bool, key: string)
    requires IsHeader(header) && IsIdentifier(key) && NoSuchField(before, key)
    requires WellFormed(item) && item.value.Str? && SameIgnoringCase(item.key, key)
    requires line == (header + Print(before, printable)) + (KeyText(item.key) + Repr(item.value.s, printable) + rest)
    requires m == (header + MaskedItems(before, printable))
                  + (KeyText(item.key) + MaskedLiteral(Repr(item.value.s, printable)) + mrest)
    ensures FieldToken(line, m, 0, key) == Some(Repr(item.value.s, printable))
  {
    var token, mbefore := Repr(item.value.s, printable), MaskedItems(before, printable);
    assert !IsWord((header + mbefore)[|header + mbefore| - 1]) by { NoWordBefore(header, before, printable); }
    assert Mute(mbefore, key) by { OtherItemsAreMute(before, printable, key); }
    assert IsLiteral(token) by { ReprIsLiteral(item.value.s, printable); }
    FieldInStrings(line, m, header + Print(before, printable), header + mbefore, header, mbefore, item.key,
                   KeyText(item.key), token, MaskedLiteral(token), rest, mrest, key);
  }

  /** The real field is found, whatever the string values before it contain. */
  lemma RealFieldIsFound(header: string, before: seq<Item>, item: Item, after: seq<Item>, printable: char -> bool,
      key: string)
    requires IsHeader(header) && IsIdentifier(key) && NoSuchField(before, key)
    requires WellFormed(item) && item.value.Str? && SameIgnoringCase(item.key, key)
    requires forall i :: 0 <= i < |after| ==> WellFormed(after[i])
    ensures var line := header + Print(before + [item] + after, printable);
            FieldToken(line, Mask(line, 0), 0, key) == Some(Repr(item.value.s, printable))
  {
    var items := before + [item] + after;
    assert Mask(header + Print(items, printable), 0) == header + MaskedItems(items, printable) by {
      WellFormedAround(items, before, item, after);
      MaskOfPrintedLine(header, items, printable);
    }
    SplitAround(header, before, item, after, printable);
    FieldOfSplitLine(header + Print(items, printable), header + MaskedItems(items, printable), header, before, item,
                     item.sep + Print(after, printable), item.sep + MaskedItems(after, printable), printable, key);
  }

  lemma SplitAround(header: string, before: seq<Item>, item: Item, after: seq<Item>, printable: char -> bool)
    requires item.value.Str?
    ensures var token, name := Repr(item.value.s, printable), KeyText(item.key);
            && header + Print(before + [item] + after, printable)
               == (header + Print(before, printable)) + (name + token + (item.sep + Print(after, printable)))
            && header + MaskedItems(before + [item] + after, printable)
               == (header + MaskedItems(before, printable))
                   + (name + MaskedLiteral(token) + (item.sep + MaskedItems(after, printable)))
  {
    PrintAppend(before + [item], after, printable);
    PrintAppend(before, [item], printable);
    assert [item][1..] == [];
    assert Print([item], printable) == PrintItem(item, printable) + "";
    assert MaskedItems([item], printable) == MaskedItem(item, printable) + "";
    Regroup(header, Print(before, printable), KeyText(item.key), Repr(item.value.s, printable), item.sep,
        Print(after, printable));
    Regroup(header, MaskedItems(before, printable), KeyText(item.key), MaskedLiteral(Repr(item.value.s, printable)),
        item.sep,
            MaskedItems(after, printable));
  }

  lemma Regroup(header: string, before: string, key: string, value: string, sep: string, after: string)
    ensures header + (before + ((key + value + sep) + "") + after) == (header + before) + (key + value + (sep + after))
  {
  }

  // ------------------------------------------------------------------ what the token decodes to

  lemma {:induction false} OctalSkipsPlain(plain: string, rest: string)
    requires forall i :: 0 <= i < |plain| ==> plain[i] != '\\'
    ensures HasOctal(plain + rest) <==> HasOctal(rest)
  {
    if plain == [] {
      assert plain + rest == rest;
    } else {
      assert (plain + rest)[1..] == plain[1..] + rest;
      OctalSkipsPlain(plain[1..], rest);
    }
  }

  /** Three octal digits at the start, the first at most 3. */
  predicate OctalDigits(t: string) {
    |t| >= 3 && '0' <= t[0] <= '3' && IsOctal(t[1]) && IsOctal(t[2])
  }

  lemma OctalAfterBackslash(t: string)
    requires t != [] && t[0] == '\\'
    ensures OctalAt(t, 0) <==> OctalDigits(t[1..])
  {
  }

  /** Digits print as themselves, and nothing else prints as a digit. */
  lemma DigitsSurvivePrinting(s: string, quote: char, printable: char -> bool)
    requires IsQuote(quote) && AsciiAgrees(printable)
    ensures OctalDigits(Body(s, quote, printable) + [quote]) <==> OctalDigits(s)
  {
    var t := Body(s, quote, printable) + [quote];
    FirstCharSurvives(s, quote, printable);
    if s != [] && IsOctal(s[0]) {
      var t1 := Body(s[1..], quote, printable) + [quote];
      assert t[1..] == t1 by { assert t == [s[0]] + t1; }
      FirstCharSurvives(s[1..], quote, printable);
      if |s| > 1 && IsOctal(s[1]) {
        var t2 := Body(s[2..], quote, printable) + [quote];
        assert s[1..][1..] == s[2..];
        assert t1[1..] == t2 by { assert t1 == [s[1]] + t2; }
        FirstCharSurvives(s[2..], quote, printable);
        assert t[2] == t1[1] == t2[0];
      }
    }
  }

  lemma FirstCharSurvives(s: string, quote: char, printable: char -> bool)
    requires IsQuote(quote) && AsciiAgrees(printable)
    ensures var t := Body(s, quote, printable) + [quote];
            && (IsOctal(t[0]) <==> s != [] && IsOctal(s[0]))
            && (s != [] && IsOctal(s[0]) ==> t[0] == s[0] && Escape(s[0], quote, printable) == [s[0]])
  {
  }

  lemma OctalOfBackslash(rest: string)
    ensures HasOctal(['\\', '\\'] + rest) <==> OctalDigits(rest) || HasOctal(rest)
  {
    var t, u := ['\\', '\\'] + rest, ['\\'] + rest;
    assert t[1..] == u && u[1..] == rest;
    OctalAfterBackslash(u);
    assert !OctalAt(t, 0);
  }

  lemma OctalOfOtherEscape(e: string, rest: string)
    requires |e| >= 2 && !IsOctal(e[1]) && forall i :: 1 <= i < |e| ==> e[i] != '\\'
    ensures HasOctal(e + rest) <==> HasOctal(rest)
  {
    assert (e + rest)[1..] == e[1..] + rest;
    OctalSkipsPlain(e[1..], rest);
    assert !OctalAt(e + rest, 0);
  }

  lemma OctalOfEscape(c: char, quote: char, printable: char -> bool, rest: string)
    requires IsQuote(quote)
    ensures HasOctal(Escape(c, quote, printable) + rest) <==> (c == '\\' && OctalDigits(rest)) || HasOctal(rest)
  {
    var e := Escape(c, quote, printable);
    if c == '\\' {
      OctalOfBackslash(rest);
    } else if |e| == 1 {
      OctalSkipsPlain(e, rest);
    } else {
      OctalOfOtherEscape(e, rest);
    }
  }

  /** A printed text looks octal-escaped exactly when the text itself does. */
  lemma {:induction false} OctalSurvivesPrinting(s: string, quote: char, printable: char -> bool)
    requires IsQuote(quote) && AsciiAgrees(printable)
    ensures HasOctal(Body(s, quote, printable) + [quote]) <==> HasOctal(s)
  {
    if s == [] {
      assert Body(s, quote, printable) + [quote] == [quote];
      assert [quote][1..] == [];
    } else {
      var e, rest := Escape(s[0], quote, printable), Body(s[1..], quote, printable) + [quote];
      assert Body(s, quote, printable) + [quote] == e + rest by { Assoc(e, Body(s[1..], quote, printable), [quote]); }
      OctalSurvivesPrinting(s[1..], quote, printable);
      OctalOfEscape(s[0], quote, printable, rest);
      if s[0] == '\\' {
        OctalAfterBackslash(s);
        DigitsSurvivePrinting(s[1..], quote, printable);
      }
    }
  }

  lemma FieldTextOfRepr(s: string, printable: char -> bool)
    requires AsciiAgrees(printable)
    ensures FieldText(Repr(s, printable)) == if HasOctal(s) then Repaired(s) else s
  {
    var q := QuoteFor(s);
    DecodeRepr(s, printable);
    OctalSurvivesPrinting(s, q, printable);
    assert Repr(s, printable) == [q] + (Body(s, q, printable) + [q]);
    OctalSkipsPlain([q], Body(s, q, printable) + [q]);
  }

  /** One decoded character takes one byte if it is ASCII and more otherwise. */
  lemma Utf8Step(b: string)
    requires b != [] && IsLatin1(b)
    ensures b[0] as int < 0x80 ==> Utf8(b) == Cons(b[0], Utf8(b[1..]))
    ensures b[0] as int >= 0x80 && Utf8(b).Some? ==>
              var k := FrontOf(BytesOf(b)).length;
              2 <= k <= |b| && Utf8(b[k..]).Some? && |Utf8(b).value| == 1 + |Utf8(b[k..]).value|
  {
    assert BytesOf(b)[0] == b[0] as int;
  }

  /** Decoding as UTF-8 shortens a text unless it is all ASCII, which it leaves alone. */
  lemma {:induction false} Utf8Shortens(b: string)
    requires IsLatin1(b)
    ensures Utf8(b).Some? ==> |Utf8(b).value| <= |b|
    ensures Utf8(b).Some? && !IsAscii(b) ==> |Utf8(b).value| < |b|
    ensures IsAscii(b) ==> Utf8(b) == Some(b)
    decreases |b|
  {
    if b != [] {
      Utf8Step(b);
      if b[0] as int < 0x80 {
        Utf8Shortens(b[1..]);
        assert [b[0]] + b[1..] == b;
        assert forall i :: 0 < i < |b| ==> b[i] == b[1..][i - 1];
      } else if Utf8(b).Some? {
        Utf8Shortens(b[FrontOf(BytesOf(b)).length..]);
      }
    }
  }

  /** When the octal repair alters a value that needed none: it looks octal-escaped, has a non-ASCII
      character, and read as Latin-1 bytes it happens to be valid UTF-8. */
  predicate RepairMisfires(s: string) {
    HasOctal(s) && !IsAscii(s) && IsLatin1(s) && Utf8(s).Some?
  }

  /** `_string_field` on a printed line: the first key that is a string field gives the text of the first such
      field, exactly unless the octal repair misfires on it.  Items of that key without a string are passed
      over, and what comes after the field does not matter. */
  lemma {:induction false} StringFieldReadsTheRealField(
    header: string, before: seq<Item>, item: Item, after: seq<Item>, printable: char -> bool,
    absent: seq<string>, key: string, more: seq<string>)
    requires IsHeader(header) && AsciiAgrees(printable) && IsIdentifier(key)
    requires NoSuchField(before, key) && forall i :: 0 <= i < |after| ==> WellFormed(after[i])
    requires WellFormed(item) && item.value.Str? && SameIgnoringCase(item.key, key)
    requires forall i :: 0 <= i < |absent| ==>
               IsIdentifier(absent[i]) && NoSuchField(before + [item] + after, absent[i])
    ensures var found := StringField(header + Print(before + [item] + after, printable), absent + [key] + more);
            found.Some? && (found.value == item.value.s <==> !RepairMisfires(item.value.s))
    decreases |absent|
  {
    var items := before + [item] + after;
    var line, keys := header + Print(items, printable), absent + [key] + more;
    if absent == [] {
      assert keys[0] == key;
      RealFieldIsFound(header, before, item, after, printable, key);
      FieldTextOfRepr(item.value.s, printable);
      if IsLatin1(item.value.s) { Utf8Shortens(item.value.s); }
    } else {
      assert keys[0] == absent[0] && keys[1..] == absent[1..] + [key] + more;
      AbsentFieldIsNotFound(header, items, printable, absent[0]);
      StringFieldReadsTheRealField(header, before, item, after, printable, absent[1..], key, more);
    }
  }

  /** Such a misfire: the text of two accented capitals that spell a UTF-8 sequence, then `\303`. */
  lemma RepairCanMisfire()
    ensures RepairMisfires([0xC3 as char, 0xA9 as char] + "\\303")
    ensures Repaired([0xC3 as char, 0xA9 as char] + "\\303") == [0xE9 as char] + "\\303"
  {
    var tail := "\\303";
    var s := [0xC3 as char, 0xA9 as char] + tail;
    assert HasOctal(s) by {
      assert s[1..][1..] == tail && OctalAt(tail, 0);
      assert HasOctal(tail);
      assert HasOctal(s[1..]);
    }
    assert Utf8(s) == Some([0xE9 as char] + tail) by { TwoByteCharacter(s, tail); }
    assert !IsAscii(s) by { assert s[0] as int >= 0x80; }
  }

  lemma TwoByteCharacter(s: string, tail: string)
    requires IsAscii(tail) && s == [0xC3 as char, 0xA9 as char] + tail
    ensures IsLatin1(s) && Utf8(s) == Some([0xE9 as char] + tail)
  {
    var data := BytesOf(s);
    assert data[0] == 0xC3 && data[1] == 0xA9 && MayFollow(data[0], 1, data[1]);
    assert FrontOf(data) == Complete(2);
    assert Scalar(data) == 0xE9;
    assert s[2..] == tail;
    Utf8Shortens(tail);
  }
}
