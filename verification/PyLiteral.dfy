/** Python string literals: the scanner of server.py, `repr`, and the escape grammar of section 2.4.1
    of the Python 3.11 Language Reference. */
module PyLiteral {
  import opened Options
  import opened HexDigits

  predicate IsQuote(c: char) {
    c == '\'' || c == '"'
  }

  // ------------------------------------------------------------------ scanning

  /** End of the literal whose opening quote is behind us: a backslash protects the next character. */
  function ScanTo(line: string, i: nat, quote: char): (end: Option<nat>)
    ensures end.Some? ==> i < end.value <= |line|
    decreases |line| - i
  {
    if i >= |line| then None
    else if line[i] == '\\' then ScanTo(line, i + 2, quote)
    else if line[i] == quote then Some(i + 1)
    else ScanTo(line, i + 1, quote)
  }

  function LiteralAt(line: string, start: nat): (end: Option<nat>)
    ensures end.Some? ==> start + 2 <= end.value <= |line| && IsQuote(line[start])
  {
    if start >= |line| || !IsQuote(line[start]) then None else ScanTo(line, start + 1, line[start])
  }

  /** `_python_string_literal_at`: the token, quotes included. */
  method PythonStringLiteralAt(line: string, start: nat) returns (token: Option<string>)
    ensures token == match LiteralAt(line, start) case None => None case Some(end) => Some(line[start..end])
  {
    if start >= |line| || !IsQuote(line[start]) {
      return None;
    }
    var quote := line[start];
    var i := start + 1;
    while i < |line|
      invariant start < i
      invariant ScanTo(line, i, quote) == LiteralAt(line, start)
    {
      if line[i] == '\\' {
        i := i + 2;
      } else if line[i] == quote {
        return Some(line[start..i + 1]);
      } else {
        i := i + 1;
      }
    }
    return None;
  }

  /** The text between two quotes in which every quote and backslash is protected. */
  predicate Protected(body: string, quote: char) {
    if body == [] then true
    else if body[0] == '\\' then |body| >= 2 && Protected(body[2..], quote)
    else body[0] != quote && Protected(body[1..], quote)
  }

  /** The scanner stops exactly at the closing quote of a protected body. */
  lemma {:induction false} ScanFindsTheClosingQuote(line: string, i: nat, j: nat, quote: char)
    requires i <= j < |line| && line[j] == quote && quote != '\\' && Protected(line[i..j], quote)
    ensures ScanTo(line, i, quote) == Some(j + 1)
    decreases j - i
  {
    var body := line[i..j];
    if i < j {
      assert body[0] == line[i];
      if line[i] == '\\' {
        assert body[2..] == line[i + 2..j];
        ScanFindsTheClosingQuote(line, i + 2, j, quote);
      } else {
        assert body[1..] == line[i + 1..j];
        ScanFindsTheClosingQuote(line, i + 1, j, quote);
      }
    }
  }

  // ------------------------------------------------------------------ repr

  /** `str.isprintable` of one character, as far as repr relies on it: ASCII is settled, the rest is
      whatever the Unicode tables of the interpreter say. */
  ghost predicate AsciiAgrees(printable: char -> bool) {
    forall c: char :: (' ' <= c <= '~' ==> printable(c)) && (c < ' ' || c == 0x7F as char ==> !printable(c))
  }

  function Escape(c: char, quote: char, printable: char -> bool): (e: string)
    ensures e != []
  {
    if c == quote || c == '\\' then ['\\', c]
    else if c == '\n' then ['\\', 'n']
    else if c == '\r' then ['\\', 'r']
    else if c == '\t' then ['\\', 't']
    else if printable(c) then [c]
    else if c as int < 0x100 then ['\\', 'x'] + ToHex(c as int, 2)
    else if c as int < 0x1_0000 then ['\\', 'u'] + ToHex(c as int, 4)
    else ['\\', 'U'] + ToHex(c as int, 8)
  }

  function Body(s: string, quote: char, printable: char -> bool): string {
    if s == [] then "" else Escape(s[0], quote, printable) + Body(s[1..], quote, printable)
  }

  /** Single quotes, unless the text has one and no double quote. */
  function QuoteFor(s: string): (q: char)
    ensures IsQuote(q)
  {
    if '\'' in s && '"' !in s then '"' else '\''
  }

  function Repr(s: string, printable: char -> bool): string {
    [QuoteFor(s)] + Body(s, QuoteFor(s), printable) + [QuoteFor(s)]
  }

  lemma {:induction false} BodyIsProtected(s: string, quote: char, printable: char -> bool)
    requires IsQuote(quote)
    ensures Protected(Body(s, quote, printable), quote)
  {
    if s != [] {
      BodyIsProtected(s[1..], quote, printable);
      EscapeIsProtected(s[0], quote, printable, Body(s[1..], quote, printable));
    }
  }

  lemma EscapeIsProtected(c: char, quote: char, printable: char -> bool, rest: string)
    requires IsQuote(quote) && Protected(rest, quote)
    ensures Protected(Escape(c, quote, printable) + rest, quote)
  {
    var e := Escape(c, quote, printable);
    if |e| == 1 {
      assert (e + rest)[1..] == rest;
    } else {
      assert (e + rest)[2..] == e[2..] + rest;
      PlainIsProtected(e[2..], rest, quote);
    }
  }

  lemma {:induction false} PlainIsProtected(plain: string, rest: string, quote: char)
    requires Protected(rest, quote)
    requires forall i :: 0 <= i < |plain| ==> plain[i] != '\\' && plain[i] != quote
    ensures Protected(plain + rest, quote)
  {
    if plain == [] {
      assert plain + rest == rest;
    } else {
      assert (plain + rest)[1..] == plain[1..] + rest;
      PlainIsProtected(plain[1..], rest, quote);
    }
  }

  /** A printed literal sitting anywhere in a line is found whole. */
  lemma LiteralAtRepr(line: string, start: nat, s: string, printable: char -> bool)
    requires start + |Repr(s, printable)| <= |line| && line[start..start + |Repr(s, printable)|] == Repr(s, printable)
    ensures LiteralAt(line, start) == Some(start + |Repr(s, printable)|)
  {
    var q, body := QuoteFor(s), Body(s, QuoteFor(s), printable);
    var end := start + |Repr(s, printable)|;
    assert line[start] == line[start..end][0] == q;
    assert line[end - 1] == line[start..end][|body| + 1] == q;
    assert line[start + 1..end - 1] == line[start..end][1..|body| + 1] == body;
    BodyIsProtected(s, q, printable);
    ScanFindsTheClosingQuote(line, start + 1, end - 1, q);
  }

  // ------------------------------------------------------------------ decoding

  function Cons(c: char, rest: Option<string>): Option<string> {
    if rest.None? then None else Some([c] + rest.value)
  }

  /** A code point as a character; surrogates and values past U+10FFFF have none. */
  function CodePoint(n: nat): Option<char> {
    if n < 0xD800 || 0xE000 <= n < 0x11_0000 then Some(n as char) else None
  }

  function ConsCode(n: nat, rest: Option<string>): Option<string> {
    if CodePoint(n).None? then None else Cons(CodePoint(n).value, rest)
  }

  predicate IsOctal(c: char) {
    '0' <= c <= '7'
  }

  function OctalValue(c: char): nat
    requires IsOctal(c)
  {
    c as int - '0' as int
  }

  /** The one-letter escapes. */
  function SimpleEscape(c: char): Option<char> {
    match c
    case '\\' => Some('\\')
    case '\'' => Some('\'')
    case '"' => Some('"')
    case 'a' => Some(0x07 as char)
    case 'b' => Some(0x08 as char)
    case 'f' => Some(0x0C as char)
    case 'n' => Some('\n')
    case 'r' => Some('\r')
    case 't' => Some('\t')
    case 'v' => Some(0x0B as char)
    case _ => None
  }

  function HexWidth(c: char): nat {
    if c == 'x' then 2 else if c == 'u' then 4 else if c == 'U' then 8 else 0
  }

  /** The text a literal's body stands for; None where evaluating the literal fails. */
  function Unescape(s: string): Option<string>
    decreases |s|
  {
    if s == [] then Some("")
    else if s[0] != '\\' then
      if s[0] == '\n' || s[0] == '\r' || s[0] == 0 as char then None else Cons(s[0], Unescape(s[1..]))
    else if |s| < 2 then None
    else if s[1] == '\n' then Unescape(s[2..])
    else if SimpleEscape(s[1]).Some? then Cons(SimpleEscape(s[1]).value, Unescape(s[2..]))
    else if HexWidth(s[1]) > 0 then
      var w := HexWidth(s[1]);
      if |s| < 2 + w || !AllHex(s[2..2 + w]) then None
      else ConsCode(FromHex(s[2..2 + w]), Unescape(s[2 + w..]))
    else if IsOctal(s[1]) then
      if |s| >= 3 && IsOctal(s[2]) then
        if |s| >= 4 && IsOctal(s[3])
        then ConsCode(64 * OctalValue(s[1]) + 8 * OctalValue(s[2]) + OctalValue(s[3]), Unescape(s[4..]))
        else ConsCode(8 * OctalValue(s[1]) + OctalValue(s[2]), Unescape(s[3..]))
      else ConsCode(OctalValue(s[1]), Unescape(s[2..]))
    else if s[1] == 'N' || s[1] == '\r' || s[1] == 0 as char then None
    else Cons('\\', Cons(s[1], Unescape(s[2..])))
  }

  /** `_decode_python_string_literal` of one scanned token. */
  function Decode(token: string): Option<string>
    requires |token| >= 2
  {
    Unescape(token[1..|token| - 1])
  }

  lemma UnescapeOne(c: char, quote: char, printable: char -> bool, rest: string)
    requires IsQuote(quote) && AsciiAgrees(printable)
    ensures Unescape(Escape(c, quote, printable) + rest) == Cons(c, Unescape(rest))
  {
    var e := Escape(c, quote, printable);
    var s := e + rest;
    if |e| == 1 {
      assert s[1..] == rest;
      assert c != 0 as char;
    } else if |e| == 2 {
      assert s[2..] == rest && s[0] == e[0] && s[1] == e[1];
    } else {
      var w := |e| - 2;
      assert s[0] == '\\' && s[1] == e[1] && HexWidth(s[1]) == w;
      assert SimpleEscape(s[1]).None?;
      assert s[2..2 + w] == ToHex(c as int, w) && s[2 + w..] == rest;
      Pow16Values();
      FromToHex(c as int, w);
    }
  }

  /** Decoding undoes printing, for every text. */
  lemma {:induction false} UnescapeBody(s: string, quote: char, printable: char -> bool)
    requires IsQuote(quote) && AsciiAgrees(printable)
    ensures Unescape(Body(s, quote, printable)) == Some(s)
  {
    if s != [] {
      UnescapeBody(s[1..], quote, printable);
      UnescapeOne(s[0], quote, printable, Body(s[1..], quote, printable));
      assert [s[0]] + s[1..] == s;
    }
  }

  lemma DecodeRepr(s: string, printable: char -> bool)
    requires AsciiAgrees(printable)
    ensures Decode(Repr(s, printable)) == Some(s)
  {
    var token := Repr(s, printable);
    assert token[1..|token| - 1] == Body(s, QuoteFor(s), printable);
    UnescapeBody(s, QuoteFor(s), printable);
  }
}
