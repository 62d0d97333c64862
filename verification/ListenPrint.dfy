/** The other direction: how the CLI prints a packet.  A printed dictionary, nested or not, is a header
    followed by items `'key': value` each closed by punctuation; an opened inner dictionary is an item
    whose value is empty and whose punctuation is `{`. */
module ListenPrint {
  import opened Options
  import opened PyText
  import opened PyLiteral
  import opened ListenLine

  datatype Value =
    | Raw(text: string)       // numbers, None, True, or nothing before an opening brace
    | Str(s: string)
    | Bytes(bs: seq<byte>)

  datatype Item = Item(key: string, value: Value, sep: string)

  predicate IsIdentifier(s: string) {
    s != [] && forall i :: 0 <= i < |s| ==> IsWord(s[i])
  }

  predicate IsPunctuation(c: char) {
    c == ',' || c == '{' || c == '}' || c == '[' || c == ']'
  }

  predicate WellFormed(item: Item) {
    && IsIdentifier(item.key)
    && (item.value.Raw? ==> forall i :: 0 <= i < |item.value.text| ==>
        !IsQuote(item.value.text[i]) && item.value.text[i] != ':')
    && item.sep != [] && IsPunctuation(item.sep[0])
    && (forall i :: 0 <= i < |item.sep| ==> IsPunctuation(item.sep[i]) || item.sep[i] == ' ')
  }

  /** What precedes the first item, such as `Received: {`. */
  predicate IsHeader(h: string) {
    h != [] && IsPunctuation(h[|h| - 1]) && forall i :: 0 <= i < |h| ==> !IsQuote(h[i])
  }

  function Latin(bs: seq<byte>): (s: string)
    ensures |s| == |bs|
  {
    seq(|bs|, i requires 0 <= i < |bs| => bs[i] as char)
  }

  function AsciiPrintable(): char -> bool {
    c => ' ' <= c <= '~'
  }

  /** `repr` of bytes, after its leading `b`, quotes and escapes exactly as `repr` of text does over ASCII. */
  function BytesLiteral(bs: seq<byte>): string {
    Repr(Latin(bs), AsciiPrintable())
  }

  function PrintValue(v: Value, printable: char -> bool): string {
    match v
    case Raw(text) => text
    case Str(s) => Repr(s, printable)
    case Bytes(bs) => "b" + BytesLiteral(bs)
  }

  function KeyText(key: string): string {
    "'" + key + "': "
  }

  function PrintItem(item: Item, printable: char -> bool): string {
    KeyText(item.key) + PrintValue(item.value, printable) + item.sep
  }

  function Print(items: seq<Item>, printable: char -> bool): string {
    if items == [] then "" else PrintItem(items[0], printable) + Print(items[1..], printable)
  }

  // ------------------------------------------------------------------ where a key cannot match

  /** No match of `name` as a key starts in `line[a..b]`. */
  ghost predicate Silent(line: string, a: nat, b: nat, name: string) {
    forall i {:trigger KeyEnd(line, i, name)} :: a <= i < b ==> KeyEnd(line, i, name).None?
  }

  lemma {:induction false} FindKeySkips(line: string, a: nat, b: nat, name: string)
    requires a <= b && Silent(line, a, b, name)
    ensures FindKey(line, a, name) == FindKey(line, b, name)
    decreases b - a
  {
    if a < b {
      assert KeyEnd(line, a, name).None?;
      FindKeySkips(line, a + 1, b, name);
    }
  }

  lemma NoQuotesNoKey(line: string, a: nat, b: nat, name: string)
    requires b <= |line| && forall i :: a <= i < b ==> !IsQuote(line[i])
    ensures Silent(line, a, b, name)
  {
  }

  /** A piece of a line, taken apart. */
  lemma HasAtChars(line: string, off: nat, text: string)
    requires HasAt(line, off, text)
    ensures forall k {:trigger text[k]} :: 0 <= k < |text| ==> line[off + k] == text[k]
    ensures forall i {:trigger line[i]} :: off <= i < off + |text| ==> line[i] == text[i - off]
  {
    var piece := line[off..off + |text|];
    assert forall k :: 0 <= k < |text| ==> piece[k] == line[off + k];
  }

  lemma HasAtSplit(line: string, off: nat, u: string, v: string)
    requires HasAt(line, off, u + v)
    ensures HasAt(line, off, u) && HasAt(line, off + |u|, v)
  {
    var whole := line[off..off + |u + v|];
    assert line[off..off + |u|] == whole[..|u|] == u;
    assert line[off + |u|..off + |u| + |v|] == whole[|u|..] == v;
  }

  lemma HasAtSplit3(line: string, off: nat, u: string, v: string, w: string)
    requires HasAt(line, off, u + v + w)
    ensures HasAt(line, off, u) && HasAt(line, off + |u|, v) && HasAt(line, off + |u| + |v|, w)
    ensures w != [] ==> line[off + |u| + |v|] == w[0]
  {
    HasAtSplit(line, off, u + v, w);
    HasAtSplit(line, off, u, v);
    HasAtChars(line, off + |u| + |v|, w);
  }

  /** The characters of a printed key. */
  lemma KeyChars(line: string, off: nat, name: string)
    requires HasAt(line, off, KeyText(name))
    ensures var close := off + 1 + |name|;
            && line[off] == '\'' && line[close] == '\'' && line[close + 1] == ':' && line[close + 2] == ' '
            && line[off + 1..close] == name
            && (forall x {:trigger line[x]} :: off < x < close ==> line[x] == name[x - off - 1])
  {
    HasAtSplit3(line, off, "'", name, "': ");
    HasAtChars(line, off, "'");
    HasAtChars(line, off + 1, name);
    HasAtChars(line, off + 1 + |name|, "': ");
    assert line[off] == "'"[0];
    assert line[off + 1 + |name| + 1] == "': "[1] && line[off + 1 + |name| + 2] == "': "[2];
  }

  /** A quoted word in a line, and which key can match at its opening quote. */
  lemma QuotedWord(line: string, i: nat, word: string, name: string)
    requires HasAt(line, i + 1, word) && i + 1 + |word| < |line| && IsQuote(line[i + 1 + |word|])
    requires forall k :: 0 <= k < |word| ==> !IsQuote(word[k])
    requires IsIdentifier(name) && KeyEnd(line, i, name).Some?
    ensures word == name
  {
    assert HasAt(line, i + 1, name);
    HasAtChars(line, i + 1, name);
    HasAtChars(line, i + 1, word);
    assert |name| == |word|;
  }

  /** At a quote that no identifier character follows, no key matches. */
  lemma ClosingQuote(line: string, i: nat, name: string)
    requires i + 1 < |line| && !IsWord(line[i + 1]) && IsIdentifier(name)
    ensures KeyEnd(line, i, name).None?
  {
    if HasAt(line, i + 1, name) { HasAtChars(line, i + 1, name); }
  }

  /** A plain text: printing it puts no quote between the quotes. */
  predicate IsPlain(s: string) {
    forall i :: 0 <= i < |s| ==> !IsQuote(s[i])
  }

  lemma {:induction false} PlainBody(s: string, quote: char, printable: char -> bool)
    requires IsPlain(s) && IsQuote(quote)
    ensures IsPlain(Body(s, quote, printable))
  {
    if s != [] {
      PlainBody(s[1..], quote, printable);
      var e := Escape(s[0], quote, printable);
      assert forall i :: 0 <= i < |e| ==> !IsQuote(e[i]);
    }
  }

  /** An item that cannot be taken for the field `name`: another key, and a value with no quotes. */
  predicate Quiet(item: Item, name: string) {
    && WellFormed(item) && item.key != name
    && !item.value.Bytes?
    && (item.value.Str? ==> IsPlain(item.value.s))
  }

  /** No key `name` matches inside the quoted word that starts at `off`, except perhaps `name` itself
      as a whole, followed by a colon. */
  lemma QuietWord(line: string, off: nat, quote: char, word: string, name: string)
    requires IsQuote(quote) && IsPlain(word) && IsIdentifier(name)
    requires HasAt(line, off, [quote] + word + [quote])
    requires off + |word| + 2 < |line| && !IsWord(line[off + |word| + 2]) && !IsSpace(line[off + |word| + 2])
    requires word == name ==> line[off + |word| + 2] != ':'
    ensures Silent(line, off, off + |word| + 2, name)
  {
    var close := off + 1 + |word|;
    assert HasAt(line, off + 1, word) && line[close] == quote && forall x :: off < x < close ==> !IsQuote(line[x]) by {
      HasAtSplit3(line, off, [quote], word, [quote]);
      HasAtChars(line, off + 1, word);
    }
    forall i | off <= i < close + 1 ensures KeyEnd(line, i, name).None? {
      if i == off {
        if KeyEnd(line, i, name).Some? {
          QuotedWord(line, i, word, name);
        }
      } else if i == close {
        ClosingQuote(line, i, name);
      }
    }
  }

  lemma QuietKey(line: string, off: nat, key: string, name: string)
    requires HasAt(line, off, KeyText(key)) && IsIdentifier(key) && IsIdentifier(name) && key != name
    ensures Silent(line, off, off + |KeyText(key)|, name)
  {
    assert KeyText(key) == (['\''] + key + ['\'']) + ": ";
    HasAtSplit(line, off, ['\''] + key + ['\''], ": ");
    HasAtChars(line, off + |key| + 2, ": ");
    assert line[off + |key| + 2] == ": "[0] && line[off + |key| + 3] == ": "[1];
    QuietWord(line, off, '\'', key, name);
    NoQuotesNoKey(line, off + |key| + 2, off + |key| + 4, name);
  }

  lemma QuietItem(line: string, off: nat, item: Item, printable: char -> bool, name: string)
    requires Quiet(item, name) && IsIdentifier(name) && HasAt(line, off, PrintItem(item, printable))
    ensures Silent(line, off, off + |PrintItem(item, printable)|, name)
  {
    var key, v := KeyText(item.key), PrintValue(item.value, printable);
    HasAtSplit(line, off, key + v, item.sep);
    HasAtSplit(line, off, key, v);
    QuietKey(line, off, item.key, name);
    var a := off + |key|;
    var b := a + |v|;
    HasAtChars(line, b, item.sep);
    assert line[b] == item.sep[0];
    if item.value.Str? {
      PlainBody(item.value.s, QuoteFor(item.value.s), printable);
      QuietWord(line, a, QuoteFor(item.value.s), Body(item.value.s, QuoteFor(item.value.s), printable), name);
    } else {
      HasAtChars(line, a, v);
      NoQuotesNoKey(line, a, b, name);
    }
    NoQuotesNoKey(line, b, b + |item.sep|, name);
  }

  ghost predicate AllQuiet(items: seq<Item>, name: string) {
    forall i :: 0 <= i < |items| ==> Quiet(items[i], name)
  }

  lemma {:induction false} QuietItems(line: string, off: nat, items: seq<Item>, printable: char -> bool, name: string)
    requires AllQuiet(items, name) && IsIdentifier(name) && HasAt(line, off, Print(items, printable))
    ensures Silent(line, off, off + |Print(items, printable)|, name)
    decreases |items|
  {
    if items != [] {
      var first, rest := PrintItem(items[0], printable), Print(items[1..], printable);
      HasAtSplit(line, off, first, rest);
      assert Silent(line, off, off + |first|, name) by { QuietItem(line, off, items[0], printable, name); }
      assert Silent(line, off + |first|, off + |first| + |rest|, name) by {
        QuietItems(line, off + |first|, items[1..], printable, name);
      }
      assert |Print(items, printable)| == |first| + |rest|;
    }
  }

  /** Wherever this piece sits in a line, the scanner takes it for exactly one literal. */
  ghost predicate IsLiteral(piece: string) {
    && piece != [] && IsQuote(piece[0])
    && forall line: string, off: nat {:trigger HasAt(line, off, piece)} ::
         HasAt(line, off, piece) ==> LiteralAt(line, off) == Some(off + |piece|)
  }

  lemma ReprIsLiteral(s: string, printable: char -> bool)
    ensures IsLiteral(Repr(s, printable))
  {
    var piece := Repr(s, printable);
    forall line: string, off: nat | HasAt(line, off, piece) ensures LiteralAt(line, off) == Some(off + |piece|) {
      LiteralAtRepr(line, off, s, printable);
    }
  }
}
