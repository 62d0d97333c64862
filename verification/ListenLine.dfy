/** Reading a `--listen` line (server.py): the text of a message, the line with its text blanked out,
    the masked copy of a line, and the lookup of one string field.  A regex is a matcher at a position
    plus a leftmost search. */
module ListenLine {
  import opened Options
  import opened PyText
  import opened PyLiteral
  import opened Utf8Stream

  /** `\s*` from `i`. */
  function SkipSpaces(line: string, i: nat): (j: nat)
    requires i <= |line|
    ensures i <= j <= |line|
    ensures forall k :: i <= k < j ==> IsSpace(line[k])
    ensures j < |line| ==> !IsSpace(line[j])
    decreases |line| - i
  {
    if i < |line| && IsSpace(line[i]) then SkipSpaces(line, i + 1) else i
  }

  lemma SkipNothing(line: string, i: nat)
    requires i < |line| && !IsSpace(line[i])
    ensures SkipSpaces(line, i) == i
  {
  }

  lemma SkipOneSpace(line: string, i: nat)
    requires i + 1 < |line| && IsSpace(line[i]) && !IsSpace(line[i + 1])
    ensures SkipSpaces(line, i) == i + 1
  {
  }

  predicate HasAt(line: string, i: nat, word: string) {
    i + |word| <= |line| && line[i..i + |word|] == word
  }

  predicate Contains(line: string, word: string) {
    exists i :: 0 <= i <= |line| && HasAt(line, i, word)
  }

  /** `['"]name['"]\s*:\s*` at `i`: where the match ends. */
  function KeyEnd(line: string, i: nat, name: string): (end: Option<nat>)
    ensures end.Some? ==> i < end.value <= |line|
  {
    var close := i + 1 + |name|;
    if close < |line| && IsQuote(line[i]) && line[i + 1..close] == name && IsQuote(line[close]) then
      var colon := SkipSpaces(line, close + 1);
      if colon < |line| && line[colon] == ':' then Some(SkipSpaces(line, colon + 1)) else None
    else None
  }

  /** Leftmost match at or after `from`. */
  function FindKey(line: string, from: nat, name: string): (end: Option<nat>)
    ensures end.Some? ==> from < end.value <= |line|
    decreases |line| - from
  {
    if from >= |line| then None
    else if KeyEnd(line, from, name).Some? then KeyEnd(line, from, name)
    else FindKey(line, from + 1, name)
  }

  /** `['"]payload['"]\s*:\s*b?` */
  function FindPayload(line: string): (end: Option<nat>)
    ensures end.Some? ==> end.value <= |line|
  {
    match FindKey(line, 0, "payload")
    case None => None
    case Some(e) => Some(if e < |line| && line[e] == 'b' then e + 1 else e)
  }

  /** The first `text` key at or after `from` that a string literal follows: the literal's extent. */
  function TextLiteral(line: string, from: nat): (extent: Option<(nat, nat)>)
    ensures extent.Some? ==> extent.value.0 + 2 <= extent.value.1 <= |line|
    decreases |line| - from
  {
    match FindKey(line, from, "text")
    case None => None
    case Some(e) =>
      match LiteralAt(line, e)
      case Some(end) => Some((e, end))
      case None => TextLiteral(line, e)
  }

  /** First character at or after `i` that is `c`. */
  function IndexOf(line: string, i: nat, c: char): (j: Option<nat>)
    ensures j.Some? ==> i <= j.value < |line|
    decreases |line| - i
  {
    if i >= |line| then None else if line[i] == c then Some(i) else IndexOf(line, i + 1, c)
  }

  /** `KtextK:\s*V([^V]*)V` for key quote K and value quote V, leftmost from `i`; the stripped capture. */
  function RawCapture(line: string, i: nat, keyQuote: char, valueQuote: char): Option<string>
    decreases |line| - i
  {
    if i >= |line| then None
    else
      var key := [keyQuote] + "text" + [keyQuote] + ":";
      if HasAt(line, i, key) then
        var open := SkipSpaces(line, i + |key|);
        var close := if open < |line| && line[open] == valueQuote then IndexOf(line, open + 1, valueQuote) else None;
        if close.Some? then Some(Strip(line[open + 1..close.value])) else RawCapture(line, i + 1, keyQuote, valueQuote)
      else RawCapture(line, i + 1, keyQuote, valueQuote)
  }

  /** The old raw capture, tried with the four quote pairs in order. */
  function Fallback(line: string): Option<string> {
    var captures := [RawCapture(line, 0, '\'', '\''), RawCapture(line, 0, '"', '"'),
                     RawCapture(line, 0, '\'', '"'), RawCapture(line, 0, '"', '\'')];
    FirstNonEmpty(captures)
  }

  function FirstNonEmpty(captures: seq<Option<string>>): Option<string> {
    if captures == [] then None
    else if captures[0].Some? && captures[0].value != "" then captures[0]
    else FirstNonEmpty(captures[1..])
  }

  predicate LooksLikeText(line: string) {
    Contains(line, "TEXT_MESSAGE_APP") || Contains(line, "'text':") || Contains(line, "\"text\":")
  }

  /** Where the search for the text key starts: behind the payload literal, if there is one. */
  function SearchStart(line: string): nat {
    match FindPayload(line)
    case None => 0
    case Some(e) => LiteralAt(line, e).UnwrapOr(0)
  }

  /** `raw` is what the old raw capture would give, used when no literal decodes. */
  function ExtractOr(line: string, raw: Option<string>): Option<string> {
    if !LooksLikeText(line) then None
    else
      match TextLiteral(line, SearchStart(line))
      case None => raw
      case Some((start, end)) =>
        match Decode(line[start..end])
        case Some(text) => if IsBlank(text) then None else Some(text)
        case None => raw
  }

  function ExtractText(line: string): Option<string> {
    ExtractOr(line, Fallback(line))
  }

  /** The `while match` loop both readers run over the text keys. */
  method FindTextLiteral(line: string, from: nat) returns (extent: Option<(nat, nat)>)
    ensures extent == TextLiteral(line, from)
  {
    var found := FindKey(line, from, "text");
    while found.Some?
      invariant found.Some? ==> found.value <= |line|
      invariant TextLiteral(line, from) ==
                  if found.None? then None
                  else match LiteralAt(line, found.value)
                       case Some(end) => Some((found.value, end))
                       case None => TextLiteral(line, found.value)
      decreases if found.None? then 0 else 1 + |line| - found.value
    {
      var token := PythonStringLiteralAt(line, found.value);
      if token.Some? {
        return Some((found.value, found.value + |token.value|));
      }
      found := FindKey(line, found.value, "text");
    }
    return None;
  }

  method SkipPayload(line: string) returns (position: nat)
    ensures position == SearchStart(line)
  {
    position := 0;
    var payload := FindPayload(line);
    if payload.Some? {
      var token := PythonStringLiteralAt(line, payload.value);
      if token.Some? {
        position := payload.value + |token.value|;
      }
    }
  }

  method ExtractTextMessage(line: string) returns (text: Option<string>)
    ensures text == ExtractText(line)
  {
    if !LooksLikeText(line) {
      return None;
    }
    var position := SkipPayload(line);
    var extent := FindTextLiteral(line, position);
    if extent.Some? {
      var decoded := Decode(line[extent.value.0..extent.value.1]);
      if decoded.Some? {
        return if IsBlank(decoded.value) then None else decoded;
      }
    }
    return Fallback(line);
  }

  function BlankPayload(line: string): string {
    match FindPayload(line)
    case None => line
    case Some(e) =>
      match LiteralAt(line, e)
      case None => line
      case Some(end) => line[..e] + "''" + line[end..]
  }

  /** `line_without_text_literals` */
  function WithoutTextLiterals(line: string): string {
    var out := BlankPayload(line);
    match TextLiteral(out, FindPayload(line).UnwrapOr(0))
    case None => out
    case Some((start, end)) => out[..start] + "''" + out[end..]
  }

  method BlankPayloadLiteral(line: string, payload: Option<nat>) returns (out: string)
    requires payload == FindPayload(line)
    ensures out == BlankPayload(line)
  {
    out := line;
    if payload.Some? {
      var token := PythonStringLiteralAt(out, payload.value);
      if token.Some? {
        out := out[..payload.value] + "''" + out[payload.value + |token.value|..];
      }
    }
  }

  method LineWithoutTextLiterals(line: string) returns (out: string)
    ensures out == WithoutTextLiterals(line)
  {
    var payload := FindPayload(line);
    out := BlankPayloadLiteral(line, payload);
    var extent := FindTextLiteral(out, payload.UnwrapOr(0));
    if extent.Some? {
      out := out[..extent.value.0] + "''" + out[extent.value.1..];
    }
  }

  // ------------------------------------------------------------------ masking and field lookup

  /** Blanks and tabs only, as the masker skips before a colon. */
  function SkipBlanks(text: string, i: nat): (j: nat)
    requires i <= |text|
    ensures i <= j <= |text|
    decreases |text| - i
  {
    if i < |text| && (text[i] == ' ' || text[i] == '\t') then SkipBlanks(text, i + 1) else i
  }

  predicate IsKeyLiteral(text: string, end: nat)
    requires end <= |text|
  {
    var k := SkipBlanks(text, end);
    k < |text| && text[k] == ':'
  }

  function Underscores(n: nat): (s: string)
    ensures |s| == n
    ensures forall i :: 0 <= i < n ==> s[i] == '_'
  {
    seq(n, i => '_')
  }

  /** `_mask_string_values` from position `i` on: same length, string values hidden, all else kept. */
  function Mask(text: string, i: nat): (m: string)
    requires i <= |text|
    ensures |m| == |text| - i
    decreases |text| - i
  {
    if i == |text| then ""
    else
      match LiteralAt(text, i)
      case Some(end) =>
        (if IsKeyLiteral(text, end) then text[i..end] else [text[i]] + Underscores(end - i - 2) + [text[i]])
        + Mask(text, end)
      case None => [text[i]] + Mask(text, i + 1)
  }

  method FollowedByColon(text: string, end: nat) returns (isKey: bool)
    requires end <= |text|
    ensures isKey == IsKeyLiteral(text, end)
  {
    var k := end;
    while k < |text| && (text[k] == ' ' || text[k] == '\t')
      invariant end <= k <= |text|
      invariant SkipBlanks(text, k) == SkipBlanks(text, end)
    {
      k := k + 1;
    }
    isKey := k < |text| && text[k] == ':';
  }

  lemma Assoc(a: string, b: string, c: string)
    ensures a + (b + c) == (a + b) + c
  {
  }

  lemma MaskAtLiteral(text: string, i: nat, end: nat)
    requires i < |text| && LiteralAt(text, i) == Some(end)
    ensures Mask(text, i)
         == (if IsKeyLiteral(text, end) then text[i..end] else [text[i]] + Underscores(end - i - 2) + [text[i]])
             + Mask(text, end)
  {
  }

  /** The masked form of what stands at `i`, and where to go on. */
  method MaskNext(text: string, i: nat) returns (piece: string, next: nat)
    requires i < |text|
    ensures i < next <= |text| && Mask(text, i) == piece + Mask(text, next)
  {
    var token := PythonStringLiteralAt(text, i);
    if token.Some? {
      next := i + |token.value|;
      var isKey := FollowedByColon(text, next);
      piece := if isKey then token.value else [text[i]] + Underscores(|token.value| - 2) + [text[i]];
      MaskAtLiteral(text, i, next);
    } else {
      piece, next := [text[i]], i + 1;
    }
  }

  method MaskStringValues(text: string) returns (masked: string)
    ensures masked == Mask(text, 0)
  {
    masked := "";
    var i := 0;
    while i < |text|
      invariant 0 <= i <= |text|
      invariant masked + Mask(text, i) == Mask(text, 0)
    {
      var piece, next := MaskNext(text, i);
      Assoc(masked, piece, Mask(text, next));
      masked := masked + piece;
      i := next;
    }
  }

  /** Lower case of one character as an ignore-case match sees it, where that is ASCII: the dotted and dotless
      i, the long s and the Kelvin sign count as i, s and k. */
  function Fold(c: char): char {
    if c == 0x130 as char || c == 0x131 as char then 'i'
    else if c == 0x17F as char then 's'
    else if c == 0x212A as char then 'k'
    else LowerChar(c)
  }

  /** `[A-Za-z0-9_]`, ignoring case. */
  predicate IsWord(c: char) {
    'a' <= Fold(c) <= 'z' || '0' <= c <= '9' || c == '_'
  }

  predicate SameIgnoringCase(a: string, b: string) {
    |a| == |b| && forall i :: 0 <= i < |a| ==> Fold(a[i]) == Fold(b[i])
  }

  /** `(?<![A-Za-z0-9_])['"]?key['"]?\s*:\s*(?=['"])`, ignoring case, at `i`; `key` is an identifier, so
      neither optional quote can be given back. */
  function FieldEnd(masked: string, i: nat, key: string): (end: Option<nat>)
    ensures end.Some? ==> i < end.value < |masked| && IsQuote(masked[end.value])
  {
    if i >= |masked| || (i > 0 && IsWord(masked[i - 1])) then None
    else
      var k := if IsQuote(masked[i]) then i + 1 else i;
      var a := k + |key|;
      if a <= |masked| && SameIgnoringCase(masked[k..a], key) then
        var b := if a < |masked| && IsQuote(masked[a]) then a + 1 else a;
        var colon := SkipSpaces(masked, b);
        if colon < |masked| && masked[colon] == ':' then
          var e := SkipSpaces(masked, colon + 1);
          if e < |masked| && IsQuote(masked[e]) then Some(e) else None
        else None
      else None
  }

  function FindField(masked: string, from: nat, key: string): (end: Option<nat>)
    ensures end.Some? ==> from < end.value < |masked|
    decreases |masked| - from
  {
    if from >= |masked| then None
    else if FieldEnd(masked, from, key).Some? then FieldEnd(masked, from, key)
    else FindField(masked, from + 1, key)
  }

  /** The token of the first match at or after `from` that a whole literal of `text` follows. */
  function FieldToken(text: string, masked: string, from: nat, key: string): (token: Option<string>)
    ensures token.Some? ==> |token.value| >= 2
    decreases |masked| - from
  {
    match FindField(masked, from, key)
    case None => None
    case Some(e) =>
      match LiteralAt(text, e)
      case Some(end) => Some(text[e..end])
      case None => FieldToken(text, masked, e, key)
  }

  // ------------------------------------------------------------------ decoding one field

  predicate OctalAt(t: string, i: nat) {
    i + 3 < |t| && t[i] == '\\' && '0' <= t[i + 1] <= '3' && IsOctal(t[i + 2]) && IsOctal(t[i + 3])
  }

  /** `\\[0-3][0-7]{2}` somewhere in the text. */
  predicate HasOctal(t: string) {
    t != [] && (OctalAt(t, 0) || HasOctal(t[1..]))
  }

  predicate IsLatin1(s: string) {
    forall i :: 0 <= i < |s| ==> s[i] as int < 0x100
  }

  predicate IsAscii(s: string) {
    forall i :: 0 <= i < |s| ==> s[i] as int < 0x80
  }

  function BytesOf(s: string): (bs: seq<byte>)
    requires IsLatin1(s)
    ensures |bs| == |s| && forall i :: 0 <= i < |s| ==> bs[i] == s[i] as int
  {
    seq(|s|, i requires 0 <= i < |s| => s[i] as int)
  }

  /** Strict UTF-8 decoding of bytes that are held one per character. */
  function Utf8(b: string): Option<string>
    requires IsLatin1(b)
    decreases |b|
  {
    if b == [] then Some("")
    else
      match FrontOf(BytesOf(b))
      case Complete(n) =>
        SequenceIsEncoded(BytesOf(b));
        Cons(Scalar(BytesOf(b)) as char, Utf8(b[n..]))
      case _ => None
  }

  /** The repair of octal-escaped UTF-8: applied to any value whose token looks octal-escaped. */
  function Repaired(value: string): string {
    if IsLatin1(value) && Utf8(value).Some? then Utf8(value).value else value
  }

  /** `_decode_field_token` */
  function FieldText(token: string): string
    requires |token| >= 2
  {
    match Decode(token)
    case None => token[1..|token| - 1]
    case Some(value) => if HasOctal(token) then Repaired(value) else value
  }

  /** `_string_field` */
  function StringField(text: string, keys: seq<string>): Option<string> {
    if keys == [] then None
    else
      match FieldToken(text, Mask(text, 0), 0, keys[0])
      case Some(token) => Some(FieldText(token))
      case None => StringField(text, keys[1..])
  }

  method LookUpStringField(text: string, keys: seq<string>) returns (value: Option<string>)
    ensures value == StringField(text, keys)
  {
    var masked := MaskStringValues(text);
    for n := 0 to |keys|
      invariant StringField(text, keys[n..]) == StringField(text, keys)
    {
      assert keys[n..][1..] == keys[n + 1..];
      var found := FindField(masked, 0, keys[n]);
      while found.Some?
        invariant found.Some? ==> found.value < |masked|
        invariant FieldToken(text, masked, 0, keys[n]) ==
                    if found.None? then None
                    else match LiteralAt(text, found.value)
                         case Some(end) => Some(text[found.value..end])
                         case None => FieldToken(text, masked, found.value, keys[n])
        decreases if found.None? then 0 else 1 + |masked| - found.value
      {
        var token := PythonStringLiteralAt(text, found.value);
        if token.Some? {
          return Some(FieldText(token.value));
        }
        found := FindField(masked, found.value, keys[n]);
      }
    }
    return None;
  }
}
