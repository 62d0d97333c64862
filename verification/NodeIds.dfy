/** Node numbers and the ids printed from them (server.py). */
module NodeIds {
  import opened Options
  import opened PyText
  import opened HexDigits

  const WRAP := 0x1_0000_0000

  /** `node_num_to_id`: the low 32 bits as "!" and eight hex digits. */
  function NodeNumToId(num: int): string {
    "!" + ToHex(num % WRAP, 8)
  }

  // ------------------------------------------------------------------ int(text, 16)

  /** First characters of the blocks of ten decimal digits, beyond ASCII, of Unicode 14. */
  const DIGIT_BLOCKS: seq<int> := [
    0x0660, 0x06F0, 0x07C0, 0x0966, 0x09E6, 0x0A66, 0x0AE6, 0x0B66, 0x0BE6, 0x0C66, 0x0CE6, 0x0D66, 0x0DE6,
    0x0E50, 0x0ED0, 0x0F20, 0x1040, 0x1090, 0x17E0, 0x1810, 0x1946, 0x19D0, 0x1A80, 0x1A90, 0x1B50, 0x1BB0,
    0x1C40, 0x1C50, 0xA620, 0xA8D0, 0xA900, 0xA9D0, 0xA9F0, 0xAA50, 0xABF0, 0xFF10, 0x104A0, 0x10D30, 0x11066,
    0x110F0, 0x11136, 0x111D0, 0x112F0, 0x11450, 0x114D0, 0x11650, 0x116C0, 0x11730, 0x118E0, 0x11950, 0x11C50,
    0x11D50, 0x11DA0, 0x16A60, 0x16AC0, 0x16B50, 0x1D7CE, 0x1D7D8, 0x1D7E2, 0x1D7EC, 0x1D7F6, 0x1E140, 0x1E2F0,
    0x1E950, 0x1FBF0]

  function BlockDigit(c: int, blocks: seq<int>): (d: Option<nat>)
    ensures d.Some? ==> d.value < 10
  {
    if blocks == [] then None
    else if blocks[0] <= c < blocks[0] + 10 then Some(c - blocks[0])
    else BlockDigit(c, blocks[1..])
  }

  function DigitOf(c: char): (d: Option<nat>)
    ensures IsHex(c) ==> d == Some(HexValue(c))
    ensures d.Some? ==> d.value < 16
  {
    if IsHex(c) then Some(HexValue(c)) else BlockDigit(c as int, DIGIT_BLOCKS)
  }

  /** Digits, with single underscores allowed between them. */
  function Digits(s: string): Option<nat>
    decreases |s|
  {
    if s == [] || DigitOf(s[|s| - 1]).None? then None
    else if |s| == 1 then DigitOf(s[0])
    else
      match Digits(if s[|s| - 2] == '_' then s[..|s| - 2] else s[..|s| - 1])
      case None => None
      case Some(n) => Some(16 * n + DigitOf(s[|s| - 1]).value)
  }

  /** A `0x` prefix is optional, and may be set off by an underscore. */
  function Unsigned(s: string): Option<nat> {
    if |s| >= 2 && s[0] == '0' && (s[1] == 'x' || s[1] == 'X') then
      Digits(if |s| >= 3 && s[2] == '_' then s[3..] else s[2..])
    else Digits(s)
  }

  /** `int(s, 16)`, None for a ValueError. */
  function ParseHex(s: string): Option<int> {
    var t := Strip(s);
    if t != [] && t[0] == '-' then
      match Unsigned(t[1..]) case None => None case Some(n) => Some(0 - n as int)
    else
      match Unsigned(if t != [] && t[0] == '+' then t[1..] else t) case None => None case Some(n) => Some(n)
  }

  /** `_dm_destination_num` */
  function DmDestination(chatId: string): Option<int> {
    if |chatId| == 9 && chatId[0] == '!' then ParseHex(chatId[1..]) else None
  }

  // ------------------------------------------------------------------ printing and parsing

  lemma {:induction false} PlainDigits(s: string)
    requires AllHex(s) && s != []
    ensures Digits(s) == Some(FromHex(s))
    decreases |s|
  {
    if |s| > 1 {
      assert IsHex(s[|s| - 2]);
      PlainDigits(s[..|s| - 1]);
    } else {
      assert FromHex(s[..|s| - 1]) == 0;
    }
  }

  /** A plain hex number is read as what its digits say. */
  lemma PlainNumber(s: string)
    requires AllHex(s) && s != []
    ensures ParseHex(s) == Some(FromHex(s))
  {
    assert IsHex(s[0]) && IsHex(s[|s| - 1]);
    assert Strip(s) == s;
    assert |s| >= 2 ==> IsHex(s[1]);
    PlainDigits(s);
  }

  lemma {:induction false} DigitsSplit(a: string, b: string)
    requires AllHex(a) && AllHex(b) && a != [] && b != []
    ensures Digits(a + "_" + b) == Digits(a + b)
    decreases |b|
  {
    var s, t, n := a + "_" + b, a + b, |b|;
    assert s[|s| - 1] == b[n - 1] == t[|t| - 1];
    assert IsHex(b[n - 1]);
    if n == 1 {
      assert s[|s| - 2] == '_' && s[..|s| - 2] == a;
      assert t[|t| - 2] == a[|a| - 1] && IsHex(a[|a| - 1]) && t[..|t| - 1] == a;
    } else {
      var b' := b[..n - 1];
      assert s[|s| - 2] == b[n - 2] == t[|t| - 2] && IsHex(b[n - 2]);
      assert s[..|s| - 1] == a + "_" + b' && t[..|t| - 1] == a + b';
      DigitsSplit(a, b');
    }
  }

  /** What else `int(text, 16)` reads as the same number: a sign, a prefix, and single
      underscores between digits; and what it does not read. */
  lemma OtherSpellings(d: string, e: string)
    requires AllHex(d) && AllHex(e) && d != [] && e != []
    ensures ParseHex("-" + d) == Some(0 - FromHex(d) as int) && ParseHex("+" + d) == Some(FromHex(d))
    ensures ParseHex("0x" + d) == ParseHex("0X" + d) == ParseHex("0x_" + d) == Some(FromHex(d))
    ensures ParseHex(d + "_" + e) == ParseHex(d + e)
    ensures ParseHex("") == None && ParseHex("-") == None && ParseHex("0x") == None
  {
    SignedSpellings(d);
    PrefixedSpellings(d);
    JoinedSpellings(d, e);
    NoDigits();
  }

  lemma NoDigits()
    ensures ParseHex("") == None && ParseHex("-") == None && ParseHex("0x") == None
  {
    assert Strip("") == "" && Digits("") == None;
    assert Strip("-") == "-" && "-"[1..] == "";
    assert Strip("0x") == "0x" && "0x"[2..] == "";
  }

  lemma HexIsNoSpace(s: string)
    requires s != [] && !IsSpace(s[0]) && !IsSpace(s[|s| - 1])
    ensures Strip(s) == s
  {
  }

  lemma UnsignedPlain(d: string)
    requires AllHex(d) && d != []
    ensures Unsigned(d) == Some(FromHex(d))
  {
    assert IsHex(d[0]) && (|d| >= 2 ==> IsHex(d[1]));
    PlainDigits(d);
  }

  lemma SignedSpellings(d: string)
    requires AllHex(d) && d != []
    ensures ParseHex("-" + d) == Some(0 - FromHex(d) as int) && ParseHex("+" + d) == Some(FromHex(d))
  {
    assert IsHex(d[|d| - 1]);
    HexIsNoSpace("-" + d);
    HexIsNoSpace("+" + d);
    assert ("-" + d)[1..] == d && ("+" + d)[1..] == d;
    UnsignedPlain(d);
  }

  lemma PrefixedSpellings(d: string)
    requires AllHex(d) && d != []
    ensures ParseHex("0x" + d) == ParseHex("0X" + d) == ParseHex("0x_" + d) == Some(FromHex(d))
  {
    assert IsHex(d[|d| - 1]) && IsHex(d[0]);
    HexIsNoSpace("0x" + d);
    HexIsNoSpace("0X" + d);
    HexIsNoSpace("0x_" + d);
    assert ("0x" + d)[2..] == d && ("0X" + d)[2..] == d && ("0x_" + d)[3..] == d;
    PlainDigits(d);
  }

  lemma JoinedSpellings(d: string, e: string)
    requires AllHex(d) && AllHex(e) && d != [] && e != []
    ensures ParseHex(d + "_" + e) == ParseHex(d + e)
  {
    assert IsHex(d[0]) && IsHex(e[|e| - 1]) && IsHex(e[0]);
    assert |d| >= 2 ==> IsHex(d[1]);
    HexIsNoSpace(d + "_" + e);
    HexIsNoSpace(d + e);
    DigitsSplit(d, e);
  }

  /** Parsing what was printed gives the number modulo 2^32. */
  lemma ParsePrint(num: int)
    ensures DmDestination(NodeNumToId(num)) == Some(num % 0x1_0000_0000)
  {
    var digits := ToHex(num % WRAP, 8);
    assert NodeNumToId(num)[1..] == digits;
    Pow16Values();
    FromToHex(num % WRAP, 8);
    PlainNumber(digits);
  }

  lemma DigitsBack(digits: string, width: nat)
    requires AllHex(digits) && width == |digits| && Pow16(width) == WRAP
    ensures FromHex(digits) < WRAP
    ensures ToHex(FromHex(digits) % WRAP, width) == Lower(digits)
  {
    FromHexBound(digits);
    ToFromHex(digits);
    var n := FromHex(digits);
    assert n % WRAP == n;
  }

  lemma {:induction false} LowerAt(s: string, i: nat)
    requires i < |s|
    ensures Lower(s)[i] == LowerChar(s[i])
  {
    if i < |s| - 1 { LowerAt(s[..|s| - 1], i); }
  }

  /** Printing what was parsed gives the id back in lower case if and only if it is "!" and eight hex digits;
      signs, blanks, underscores, a prefix or foreign digits do not come back. */
  lemma PrintParse(chatId: string)
    requires DmDestination(chatId).Some?
    ensures NodeNumToId(DmDestination(chatId).value) == "!" + Lower(chatId[1..]) <==> AllHex(chatId[1..])
    ensures AllHex(chatId[1..]) ==> 0 <= DmDestination(chatId).value < WRAP
  {
    var digits, num := chatId[1..], DmDestination(chatId).value;
    if AllHex(digits) {
      Pow16Values();
      PlainNumber(digits);
      DigitsBack(digits, 8);
    } else if NodeNumToId(num) == "!" + Lower(digits) {
      assert NodeNumToId(num)[1..] == ToHex(num % WRAP, 8) && ("!" + Lower(digits))[1..] == Lower(digits);
      forall i | 0 <= i < |digits| ensures IsHex(digits[i]) {
        LowerAt(digits, i);
        assert IsHex(Lower(digits)[i]);
      }
    }
  }
}
