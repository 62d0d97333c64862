/** Small text vocabulary of Python that several components share. */
module PyText {

  /** `str.isspace()` of one character, which is also the regex class `\s`. */
  predicate IsSpace(c: char) {
    || 0x09 as char <= c <= 0x0D as char
    || 0x1C as char <= c <= 0x20 as char
    || c == 0x85 as char
    || c == 0xA0 as char
    || c == 0x1680 as char
    || 0x2000 as char <= c <= 0x200A as char
    || c == 0x2028 as char
    || c == 0x2029 as char
    || c == 0x202F as char
    || c == 0x205F as char
    || c == 0x3000 as char
  }

  /** `not s.strip()`: nothing but whitespace, or nothing at all. */
  predicate IsBlank(s: string) {
    forall i :: 0 <= i < |s| ==> IsSpace(s[i])
  }

  /** `s.strip()` */
  function Strip(s: string): string
    decreases |s|
  {
    if s != [] && IsSpace(s[0]) then Strip(s[1..])
    else if s != [] && IsSpace(s[|s| - 1]) then Strip(s[..|s| - 1])
    else s
  }

  /** Between `i` and `j` stands all of `s` but the whitespace at its ends. */
  predicate Trimmed(s: string, i: nat, j: nat) {
    && i <= j <= |s|
    && (forall k :: 0 <= k < i ==> IsSpace(s[k]))
    && (forall k :: j <= k < |s| ==> IsSpace(s[k]))
    && (i < j ==> !IsSpace(s[i]) && !IsSpace(s[j - 1]))
  }

  /** `Strip` takes whitespace off both ends and nothing else: what is left starts and ends with another
      character, or all was whitespace. */
  lemma {:induction false} StripIsExact(s: string) returns (i: nat, j: nat)
    ensures Trimmed(s, i, j) && Strip(s) == s[i..j]
    decreases |s|
  {
    if s != [] && IsSpace(s[0]) {
      var a, b := StripIsExact(s[1..]);
      TrimmedBehind(s, a, b);
      i, j := a + 1, b + 1;
    } else if s != [] && IsSpace(s[|s| - 1]) {
      i, j := StripIsExact(s[..|s| - 1]);
      assert s[..|s| - 1][i..j] == s[i..j];
    } else {
      i, j := 0, |s|;
    }
  }

  lemma TrimmedBehind(s: string, i: nat, j: nat)
    requires s != [] && IsSpace(s[0]) && Trimmed(s[1..], i, j)
    ensures Trimmed(s, i + 1, j + 1) && s[1..][i..j] == s[i + 1..j + 1]
  {
    forall k | 0 <= k < i + 1 ensures IsSpace(s[k]) {
      if k > 0 { assert s[k] == s[1..][k - 1]; }
    }
    forall k | j + 1 <= k < |s| ensures IsSpace(s[k]) {
      assert s[k] == s[1..][k - 1];
    }
  }

  lemma StripIsEmptyExactlyWhen(s: string)
    ensures Strip(s) == "" <==> IsBlank(s)
  {
    var i, j := StripIsExact(s);
    if i == j {
      forall k | 0 <= k < |s| ensures IsSpace(s[k]) {
        assert k < i || j <= k;
      }
    }
  }

  /** ASCII lower case of one character. */
  function LowerChar(c: char): char {
    if 'A' <= c <= 'Z' then (c as int + 32) as char else c
  }

  type byte = x: int | 0 <= x < 256
}
