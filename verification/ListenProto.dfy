/** Fields in the protobuf text format, which some firmware prints in place of a dictionary: a bare key and a
    double-quoted value whose UTF-8 bytes outside printable ASCII are written in octal. */
module ListenProto {
  import opened Options
  import opened PyText
  import opened PyLiteral
  import opened Utf8Stream
  import opened ListenLine
  import opened ListenPrint
  import opened ListenFields

  // ------------------------------------------------------------------ printing

  function OctalDigit(n: int): char
    requires 0 <= n < 8
  {
    ('0' as int + n) as char
  }

  /** One byte in the text format. */
  function ProtoByte(b: byte): (e: string)
    ensures e != []
  {
    if b == 0x0A then "\\n"
    else if b == 0x0D then "\\r"
    else if b == 0x09 then "\\t"
    else if b == 0x22 then "\\\""
    else if b == 0x27 then "\\'"
    else if b == 0x5C then "\\\\"
    else if 0x20 <= b < 0x7F then [b as char]
    else OctalByte(b)
  }

  function OctalByte(b: byte): string {
    ['\\', OctalDigit(b / 64), OctalDigit(b / 8 % 8), OctalDigit(b % 8)]
  }

  function ProtoBody(bs: seq<byte>): string {
    if bs == [] then "" else ProtoByte(bs[0]) + ProtoBody(bs[1..])
  }

  function Codes(text: string): (cs: seq<int>)
    ensures |cs| == |text| && AllScalars(cs)
  {
    seq(|text|, i requires 0 <= i < |text| => text[i] as int)
  }

  function ProtoLiteral(text: string): string {
    ['"'] + ProtoBody(EncodeAll(Codes(text))) + ['"']
  }

  // ------------------------------------------------------------------ the escapes

  lemma OctalEscapeStands(d: char, e: char, f: char, rest: string)
    requires '0' <= d <= '3' && IsOctal(e) && IsOctal(f)
    ensures Unescape(['\\', d, e, f] + rest)
         == Cons((64 * OctalValue(d) + 8 * OctalValue(e) + OctalValue(f)) as char, Unescape(rest))
  {
    var s := ['\\', d, e, f] + rest;
    assert s[4..] == rest && s[1] == d && s[2] == e && s[3] == f;
  }

  lemma OneLetterEscapesStand(c: char, rest: string)
    requires c in "abfv"
    ensures Unescape(['\\', c] + rest)
         == Cons(if c == 'a' then 0x07 as char else if c == 'b' then 0x08 as char
                 else if c == 'f' then 0x0C as char else 0x0B as char, Unescape(rest))
  {
    assert (['\\', c] + rest)[2..] == rest;
  }

  /** An escape that means nothing stands for itself, backslash included. */
  lemma UnknownEscapesStay(c: char, rest: string)
    requires c !in "\\'\"abfnrtvxuUN01234567\n\r\0"
    ensures Unescape(['\\', c] + rest) == Cons('\\', Cons(c, Unescape(rest)))
  {
    assert (['\\', c] + rest)[2..] == rest;
    assert forall x :: x in "\\'\"abfnrtvxuUN01234567\n\r\0" ==> x != c;
    assert !IsOctal(c) by {
      assert forall d :: '0' <= d <= '7' ==> d in "01234567";
      assert forall d :: d in "01234567" ==> d in "\\'\"abfnrtvxuUN01234567\n\r\0";
    }
    assert SimpleEscape(c).None? && HexWidth(c) == 0;
  }

  // ------------------------------------------------------------------ decoding the printed bytes

  lemma UnescapeOctalByte(b: byte, rest: string)
    ensures Unescape(OctalByte(b) + rest) == Cons(b as char, Unescape(rest))
  {
    assert 64 * (b / 64) + 8 * (b / 8 % 8) + b % 8 == b;
    OctalEscapeStands(OctalDigit(b / 64), OctalDigit(b / 8 % 8), OctalDigit(b % 8), rest);
  }

  lemma UnescapeProtoByte(b: byte, rest: string)
    ensures Unescape(ProtoByte(b) + rest) == Cons(b as char, Unescape(rest))
  {
    var e := ProtoByte(b);
    if |e| == 1 {
      assert (e + rest)[1..] == rest;
    } else if |e| == 2 {
      assert (e + rest)[2..] == rest;
    } else {
      UnescapeOctalByte(b, rest);
    }
  }

  lemma {:induction false} UnescapeProtoBody(bs: seq<byte>)
    ensures Unescape(ProtoBody(bs)) == Some(Latin(bs))
  {
    if bs != [] {
      UnescapeProtoBody(bs[1..]);
      UnescapeProtoByte(bs[0], ProtoBody(bs[1..]));
      assert [bs[0] as char] + Latin(bs[1..]) == Latin(bs);
    }
  }

  lemma {:induction false} ProtoBodyIsProtected(bs: seq<byte>)
    ensures Protected(ProtoBody(bs), '"')
  {
    if bs != [] {
      ProtoBodyIsProtected(bs[1..]);
      ProtoByteIsProtected(bs[0], ProtoBody(bs[1..]));
    }
  }

  lemma ProtoByteIsProtected(b: byte, rest: string)
    requires Protected(rest, '"')
    ensures Protected(ProtoByte(b) + rest, '"')
  {
    var e := ProtoByte(b);
    if |e| == 1 {
      assert (e + rest)[1..] == rest;
    } else {
      assert (e + rest)[2..] == e[2..] + rest;
      PlainIsProtected(e[2..], rest, '"');
    }
  }

  lemma {:induction false} OctalBehind(u: string, v: string)
    requires HasOctal(v)
    ensures HasOctal(u + v)
  {
    if u == [] {
      assert u + v == v;
    } else {
      assert (u + v)[1..] == u[1..] + v;
      OctalBehind(u[1..], v);
    }
  }

  /** A byte outside ASCII makes the literal look octal-escaped. */
  lemma {:induction false} HighByteLooksOctal(bs: seq<byte>, tail: string, k: nat)
    requires k < |bs| && bs[k] >= 0x80
    ensures HasOctal(ProtoBody(bs) + tail)
  {
    var e, rest := ProtoByte(bs[0]), ProtoBody(bs[1..]) + tail;
    assert ProtoBody(bs) + tail == e + rest by { Assoc(e, ProtoBody(bs[1..]), tail); }
    if k == 0 {
      assert OctalAt(e + rest, 0);
    } else {
      HighByteLooksOctal(bs[1..], tail, k - 1);
      OctalBehind(e, rest);
    }
  }

  // ------------------------------------------------------------------ decoding the text

  lemma EncodingIsInjective(a: int, b: int)
    requires IsScalar(a) && IsScalar(b) && Encode(a) == Encode(b)
    ensures a == b
  {
    assert |Encode(a)| == |Encode(b)|;
    var n := |Encode(a)|;
    assert Encode(a)[0] == Encode(b)[0] && Encode(a)[n - 1] == Encode(b)[n - 1];
    if n >= 3 { assert Encode(a)[1] == Encode(b)[1] && Encode(a)[2] == Encode(b)[2]; }
  }

  lemma ScalarOfEncoded(c: int, rest: seq<byte>)
    requires IsScalar(c)
    ensures FrontOf(Encode(c) + rest) == Complete(|Encode(c)|) && Scalar(Encode(c) + rest) == c
  {
    var data := Encode(c) + rest;
    EncodeIsASequence(c, rest);
    SequenceIsEncoded(data);
    assert data[..|Encode(c)|] == Encode(c);
    EncodingIsInjective(Scalar(data), c);
  }

  lemma BytesOfLatin(bs: seq<byte>)
    ensures IsLatin1(Latin(bs)) && BytesOf(Latin(bs)) == bs
  {
  }

  lemma Utf8Head(c: int, rest: seq<byte>)
    requires IsScalar(c)
    ensures IsLatin1(Latin(Encode(c) + rest)) && IsLatin1(Latin(rest))
    ensures Utf8(Latin(Encode(c) + rest)) == Cons(c as char, Utf8(Latin(rest)))
  {
    var b := Latin(Encode(c) + rest);
    BytesOfLatin(Encode(c) + rest);
    BytesOfLatin(rest);
    ScalarOfEncoded(c, rest);
    assert b[|Encode(c)|..] == Latin(rest);
  }

  lemma {:induction false} Utf8OfEncoded(text: string)
    ensures IsLatin1(Latin(EncodeAll(Codes(text)))) && Utf8(Latin(EncodeAll(Codes(text)))) == Some(text)
  {
    if text != [] {
      assert Codes(text)[1..] == Codes(text[1..]);
      Utf8OfEncoded(text[1..]);
      Utf8Head(text[0] as int, EncodeAll(Codes(text[1..])));
      assert [text[0]] + text[1..] == text;
    }
  }

  /** Whatever a field says in the text format, decoding its literal gives the text: octal bytes are read
      back, and the repair never misfires here. */
  lemma ProtoLiteralIsRead(text: string)
    ensures FieldText(ProtoLiteral(text)) == text
  {
    var bs, token := EncodeAll(Codes(text)), ProtoLiteral(text);
    var b := Latin(bs);
    assert token[1..|token| - 1] == ProtoBody(bs);
    UnescapeProtoBody(bs);
    Utf8OfEncoded(text);
    assert token == ['"'] + (ProtoBody(bs) + ['"']);
    if !HasOctal(token) {
      forall k | 0 <= k < |b| ensures b[k] as int < 0x80 {
        if bs[k] >= 0x80 {
          HighByteLooksOctal(bs, ['"'], k);
          OctalBehind(['"'], ProtoBody(bs) + ['"']);
        }
      }
      Utf8Shortens(b);
    }
  }

  // ------------------------------------------------------------------ the lookup

  lemma QuotedIsFound(line: string, off: nat, body: string)
    requires off <= |line| && line == line[..off] + (['"'] + body + ['"']) && Protected(body, '"')
    ensures LiteralAt(line, off) == Some(|line|)
  {
    assert line[off] == '"' && line[|line| - 1] == '"';
    assert line[off + 1..|line| - 1] == body;
    ScanFindsTheClosingQuote(line, off + 1, |line| - 1, '"');
  }

  lemma ProtoLiteralIsFound(line: string, off: nat, text: string)
    requires off <= |line| && line == line[..off] + ProtoLiteral(text)
    ensures LiteralAt(line, off) == Some(|line|)
  {
    ProtoBodyIsProtected(EncodeAll(Codes(text)));
    QuotedIsFound(line, off, ProtoBody(EncodeAll(Codes(text))));
  }

  /** The masked line: the key stays, the value becomes underscores. */
  lemma MaskOfProtoLine(key: string, text: string)
    requires IsIdentifier(key)
    ensures Mask(key + ": " + ProtoLiteral(text), 0) == key + ": " + MaskedLiteral(ProtoLiteral(text))
  {
    var head, token := key + ": ", ProtoLiteral(text);
    var line := head + token;
    assert HasAt(line, 0, head);
    assert IsPlain(head);
    MaskKeepsUnquoted(line, 0, head);
    assert line[..|head|] == head;
    ProtoLiteralIsFound(line, |head|, text);
    assert !IsKeyLiteral(line, |line|);
    assert Mask(line, |head|) == MaskedLiteral(token) + Mask(line, |line|);
    assert MaskedLiteral(token) + "" == MaskedLiteral(token);
  }

  lemma BareKeyIsMatched(m: string, key: string)
    requires IsIdentifier(key) && |m| > |key| + 2 && m[..|key|] == key
    requires m[|key|] == ':' && m[|key| + 1] == ' ' && m[|key| + 2] == '"'
    ensures FieldEnd(m, 0, key) == Some(|key| + 2)
  {
    var n := |key|;
    assert m[0] == m[..n][0] && IsWord(key[0]);
    SkipNothing(m, n);
    SkipOneSpace(m, n + 1);
  }

  lemma BareFieldIsFound(line: string, m: string, key: string, token: string, hidden: string)
    requires IsIdentifier(key) && hidden != [] && hidden[0] == '"'
    requires line == key + ": " + token && m == key + ": " + hidden
    requires LiteralAt(line, |key| + 2) == Some(|line|)
    ensures FieldToken(line, m, 0, key) == Some(token)
  {
    var e := |key| + 2;
    assert FieldEnd(m, 0, key) == Some(e) by {
      assert m[..|key|] == key;
      BareKeyIsMatched(m, key);
    }
    assert HasAt(line, e, token);
    TokenOfMatch(line, m, 0, key, e, token);
  }

  lemma LookupOfProtoLine(key: string, text: string)
    requires IsIdentifier(key)
    ensures var line := key + ": " + ProtoLiteral(text);
            FieldToken(line, Mask(line, 0), 0, key) == Some(ProtoLiteral(text))
  {
    var head, token := key + ": ", ProtoLiteral(text);
    var line := head + token;
    assert LiteralAt(line, |head|) == Some(|line|) by {
      assert line[..|head|] == head;
      ProtoLiteralIsFound(line, |head|, text);
    }
    MaskOfProtoLine(key, text);
    BareFieldIsFound(line, head + MaskedLiteral(token), key, token, MaskedLiteral(token));
  }

  /** A field printed in the text format comes back exactly, whatever its value. */
  lemma ProtoFieldIsRead(key: string, text: string)
    requires IsIdentifier(key)
    ensures StringField(key + ": " + ProtoLiteral(text), [key]) == Some(text)
  {
    LookupOfProtoLine(key, text);
    ProtoLiteralIsRead(text);
  }
}
