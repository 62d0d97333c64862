/** Fixed-width lower-case hexadecimal, as `format(n, "08x")` and the \x, \u, \U escapes print it. */
module HexDigits {
  import opened PyText

  function Digit(d: int): (c: char)
    requires 0 <= d < 16
    ensures IsHex(c) && HexValue(c) == d
    ensures c != '\\' && c != '\'' && c != '"'
  {
    if d < 10 then ('0' as int + d) as char else ('a' as int + d - 10) as char
  }

  predicate IsHex(c: char) {
    '0' <= c <= '9' || 'a' <= c <= 'f' || 'A' <= c <= 'F'
  }

  function HexValue(c: char): (v: int)
    requires IsHex(c)
    ensures 0 <= v < 16
  {
    if c <= '9' then c as int - '0' as int
    else if c <= 'F' then c as int - 'A' as int + 10
    else c as int - 'a' as int + 10
  }

  function Pow16(w: nat): nat {
    if w == 0 then 1 else 16 * Pow16(w - 1)
  }

  function ToHex(n: nat, width: nat): (s: string)
    ensures |s| == width
    ensures forall i :: 0 <= i < |s| ==> IsHex(s[i])
    ensures forall i :: 0 <= i < |s| ==> s[i] != '\\' && s[i] != '\'' && s[i] != '"' && !('A' <= s[i] <= 'F')
  {
    if width == 0 then "" else ToHex(n / 16, width - 1) + [Digit(n % 16)]
  }

  predicate AllHex(s: string) {
    forall i :: 0 <= i < |s| ==> IsHex(s[i])
  }

  function FromHex(s: string): nat
    requires AllHex(s)
  {
    if s == [] then 0 else 16 * FromHex(s[..|s| - 1]) + HexValue(s[|s| - 1])
  }

  lemma {:induction false} FromToHex(n: nat, width: nat)
    requires n < Pow16(width)
    ensures FromHex(ToHex(n, width)) == n
  {
    if width > 0 {
      var s := ToHex(n, width);
      assert s[..|s| - 1] == ToHex(n / 16, width - 1);
      FromToHex(n / 16, width - 1);
    }
  }

  lemma {:induction false} FromHexBound(s: string)
    requires AllHex(s)
    ensures FromHex(s) < Pow16(|s|)
  {
    if s != [] { FromHexBound(s[..|s| - 1]); }
  }

  function Lower(s: string): (r: string)
    ensures |r| == |s|
  {
    if s == [] then "" else Lower(s[..|s| - 1]) + [LowerChar(s[|s| - 1])]
  }

  lemma DigitOfHexValue(c: char)
    requires IsHex(c)
    ensures Digit(HexValue(c)) == LowerChar(c)
  {
  }

  lemma HexStep(n: nat, d: nat, width: nat)
    requires d < 16
    ensures ToHex(16 * n + d, width + 1) == ToHex(n, width) + [Digit(d)]
  {
    assert (16 * n + d) / 16 == n && (16 * n + d) % 16 == d;
  }

  /** Reading digits and printing them back gives the same digits in lower case. */
  lemma {:induction false} ToFromHex(s: string)
    requires AllHex(s)
    ensures ToHex(FromHex(s), |s|) == Lower(s)
  {
    if s != [] {
      var front, last := s[..|s| - 1], s[|s| - 1];
      ToFromHex(front);
      DigitOfHexValue(last);
      HexStep(FromHex(front), HexValue(last), |front|);
    }
  }

  lemma Pow16Values()
    ensures Pow16(2) == 0x100 && Pow16(4) == 0x1_0000 && Pow16(8) == 0x1_0000_0000
  {
    assert Pow16(3) == 0x1000 && Pow16(4) == 0x1_0000;
    assert Pow16(6) == 0x100_0000;
  }
}
