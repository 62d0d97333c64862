/** Incremental text validation (`TextStreamValidator` in meshsrv/attachments/mime_allowlist.py): UTF-8 and
    no NUL, fed chunk by chunk, with sequences split across chunks. */
module Utf8Stream {

  import opened PyText

  // ------------------------------------------------------------------ UTF-8, RFC 3629

  predicate IsScalar(c: int) {
    0 <= c < 0xD800 || 0xE000 <= c < 0x110000
  }

  function Encode(c: int): seq<byte>
    requires IsScalar(c)
  {
    if c < 0x80 then [c]
    else if c < 0x800 then [0xC0 + c / 64, 0x80 + c % 64]
    else if c < 0x10000 then [0xE0 + c / 64 / 64, 0x80 + c / 64 % 64, 0x80 + c % 64]
    else [0xF0 + c / 64 / 64 / 64, 0x80 + c / 64 / 64 % 64, 0x80 + c / 64 % 64, 0x80 + c % 64]
  }

  predicate AllScalars(cs: seq<int>) {
    forall i :: 0 <= i < |cs| ==> IsScalar(cs[i])
  }

  function EncodeAll(cs: seq<int>): seq<byte>
    requires AllScalars(cs)
  {
    if cs == [] then [] else Encode(cs[0]) + EncodeAll(cs[1..])
  }

  // ------------------------------------------------------------------ one sequence at a time

  /** Bytes a sequence has, judged by its first one; zero if none can start so. */
  function Length(first: byte): nat {
    if first < 0x80 then 1
    else if 0xC2 <= first <= 0xDF then 2
    else if 0xE0 <= first <= 0xEF then 3
    else if 0xF0 <= first <= 0xF4 then 4
    else 0
  }

  /** `b` may follow as byte `k` of a sequence starting with `first`. */
  predicate MayFollow(first: byte, k: nat, b: byte) {
    if k != 1 then 0x80 <= b <= 0xBF
    else if first == 0xE0 then 0xA0 <= b <= 0xBF
    else if first == 0xED then 0x80 <= b <= 0x9F
    else if first == 0xF0 then 0x90 <= b <= 0xBF
    else if first == 0xF4 then 0x80 <= b <= 0x8F
    else 0x80 <= b <= 0xBF
  }

  datatype Front = Complete(length: nat) | Incomplete | Invalid

  predicate FollowsWell(data: seq<byte>, n: nat)
    requires n <= |data|
  {
    forall k :: 1 <= k < n ==> MayFollow(data[0], k, data[k])
  }

  function FrontOf(data: seq<byte>): (f: Front)
    requires data != []
    ensures f.Complete? ==> 1 <= f.length <= |data|
  {
    var n := Length(data[0]);
    if n == 0 || !FollowsWell(data, if n < |data| then n else |data|) then Invalid
    else if |data| < n then Incomplete
    else Complete(n)
  }

  /** What decoding all complete sequences leaves: an error, or the unfinished tail. */
  datatype Decoded = Bad | Rest(tail: seq<byte>)

  function Scan(data: seq<byte>): Decoded
    decreases |data|
  {
    if data == [] then Rest([])
    else match FrontOf(data)
      case Invalid => Bad
      case Incomplete => Rest(data)
      case Complete(n) => Scan(data[n..])
  }

  predicate HasNul(data: seq<byte>) {
    exists i :: 0 <= i < |data| && data[i] == 0
  }

  /** The verdict on a whole stream. */
  predicate CleanText(data: seq<byte>) {
    !HasNul(data) && Scan(data) == Rest([])
  }

  // ------------------------------------------------------------------ the validator

  datatype Validator = Validator(clean: bool, pending: seq<byte>)

  function Feed(v: Validator, chunk: seq<byte>): Validator {
    if !v.clean then v
    else if HasNul(chunk) then v.(clean := false)
    else match Scan(v.pending + chunk)
      case Bad => v.(clean := false)
      case Rest(tail) => v.(pending := tail)
  }

  function Finish(v: Validator): bool {
    v.clean && v.pending == []
  }

  const FreshValidator := Validator(true, [])

  /** The validator after a stream: it knows whether the bytes so far can still become clean text. */
  ghost predicate Tracks(v: Validator, data: seq<byte>) {
    v.clean == (!HasNul(data) && Scan(data).Rest?) && (v.clean ==> v.pending == Scan(data).tail)
  }

  lemma NulOfConcat(a: seq<byte>, b: seq<byte>)
    ensures HasNul(a + b) <==> HasNul(a) || HasNul(b)
  {
    if HasNul(a) {
      var i :| 0 <= i < |a| && a[i] == 0;
      assert (a + b)[i] == 0;
    }
    if HasNul(b) {
      var i :| 0 <= i < |b| && b[i] == 0;
      assert (a + b)[|a| + i] == 0;
    }
  }

  /** More bytes never change a verdict on the first sequence, unless it was incomplete. */
  lemma FrontIsStable(a: seq<byte>, b: seq<byte>)
    requires a != []
    ensures !FrontOf(a).Incomplete? ==> FrontOf(a + b) == FrontOf(a)
  {
    var n := Length(a[0]);
    assert forall k :: 0 <= k < |a| ==> (a + b)[k] == a[k];
    if n > 0 {
      var m := if n < |a| then n else |a|;
      if !FollowsWell(a, m) {
        var k :| 1 <= k < m && !MayFollow(a[0], k, a[k]);
        assert !MayFollow((a + b)[0], k, (a + b)[k]);
      }
    }
  }

  /** Decoding can stop anywhere and go on from the unfinished tail. */
  lemma {:induction false} ScanContinues(a: seq<byte>, b: seq<byte>)
    ensures Scan(a + b) == match Scan(a) case Bad => Bad case Rest(tail) => Scan(tail + b)
    decreases |a|
  {
    if a == [] {
      assert a + b == b && [] + b == b;
    } else {
      FrontIsStable(a, b);
      if FrontOf(a).Complete? {
        var n := FrontOf(a).length;
        assert (a + b)[n..] == a[n..] + b;
        ScanContinues(a[n..], b);
      }
    }
  }

  /** Feeding a chunk is the same as having seen the bytes in one piece. */
  lemma FeedTracks(v: Validator, data: seq<byte>, chunk: seq<byte>)
    requires Tracks(v, data)
    ensures Tracks(Feed(v, chunk), data + chunk)
  {
    NulOfConcat(data, chunk);
    ScanContinues(data, chunk);
  }

  // ------------------------------------------------------------------ against the encoding

  lemma EncodeIsASequence(c: int, rest: seq<byte>)
    requires IsScalar(c)
    ensures FrontOf(Encode(c) + rest) == Complete(|Encode(c)|)
  {
    var data := Encode(c) + rest;
    assert data[0] == Encode(c)[0];
    assert Length(data[0]) == |Encode(c)|;
    forall k | 1 <= k < |Encode(c)| ensures MayFollow(data[0], k, data[k]) {
      assert data[k] == Encode(c)[k];
    }
  }

  /** Appending six bits. */
  function Push(c: int, b: int): int {
    c * 64 + (b - 0x80)
  }

  lemma PushSplits(c: int, b: int)
    requires 0x80 <= b < 0xC0
    ensures Push(c, b) / 64 == c && Push(c, b) % 64 == b - 0x80
  {
  }

  /** The scalar that a complete sequence stands for. */
  function Scalar(data: seq<byte>): int
    requires data != [] && FrontOf(data).Complete?
  {
    var first: int := data[0];
    match FrontOf(data).length
    case 1 => first
    case 2 => Push(first - 0xC0, data[1])
    case 3 => Push(Push(first - 0xE0, data[1]), data[2])
    case _ => Push(Push(Push(first - 0xF0, data[1]), data[2]), data[3])
  }

  lemma PairIsEncoded(a: int, b: int)
    requires 0xC2 <= a <= 0xDF && 0x80 <= b <= 0xBF
    ensures var c := Push(a - 0xC0, b); IsScalar(c) && Encode(c) == [a, b]
  {
    PushSplits(a - 0xC0, b);
  }

  lemma TripleIsEncoded(a: int, b: int, c: int)
    requires 0xE0 <= a <= 0xEF && 0 <= b < 256 && MayFollow(a, 1, b) && 0x80 <= c <= 0xBF
    ensures var s := Push(Push(a - 0xE0, b), c); IsScalar(s) && Encode(s) == [a, b, c]
  {
    PushSplits(a - 0xE0, b);
    PushSplits(Push(a - 0xE0, b), c);
  }

  lemma QuadIsEncoded(a: int, b: int, c: int, d: int)
    requires 0xF0 <= a <= 0xF4 && 0 <= b < 256 && MayFollow(a, 1, b) && 0x80 <= c <= 0xBF && 0x80 <= d <= 0xBF
    ensures var s := Push(Push(Push(a - 0xF0, b), c), d); IsScalar(s) && Encode(s) == [a, b, c, d]
  {
    PushSplits(a - 0xF0, b);
    PushSplits(Push(a - 0xF0, b), c);
    PushSplits(Push(Push(a - 0xF0, b), c), d);
  }

  lemma SequenceIsEncoded(data: seq<byte>)
    requires data != [] && FrontOf(data).Complete?
    ensures IsScalar(Scalar(data)) && Encode(Scalar(data)) == data[..FrontOf(data).length]
  {
    var n := FrontOf(data).length;
    if n >= 2 { assert MayFollow(data[0], 1, data[1]); }
    if n >= 3 { assert MayFollow(data[0], 2, data[2]); }
    if n >= 4 { assert MayFollow(data[0], 3, data[3]); }
    if n == 2 {
      PairIsEncoded(data[0], data[1]);
      assert data[..n] == [data[0], data[1]];
    } else if n == 3 {
      TripleIsEncoded(data[0], data[1], data[2]);
      assert data[..n] == [data[0], data[1], data[2]];
    } else if n == 4 {
      QuadIsEncoded(data[0], data[1], data[2], data[3]);
      assert data[..n] == [data[0], data[1], data[2], data[3]];
    }
  }

  lemma {:induction false} EncodedScansClean(cs: seq<int>)
    requires AllScalars(cs)
    ensures Scan(EncodeAll(cs)) == Rest([])
    decreases |cs|
  {
    if cs != [] {
      var rest := EncodeAll(cs[1..]);
      EncodeIsASequence(cs[0], rest);
      assert (Encode(cs[0]) + rest)[|Encode(cs[0])|..] == rest;
      EncodedScansClean(cs[1..]);
    }
  }

  lemma {:induction false} CleanScanIsEncoded(data: seq<byte>) returns (cs: seq<int>)
    requires Scan(data) == Rest([])
    ensures AllScalars(cs) && EncodeAll(cs) == data
    decreases |data|
  {
    if data == [] {
      cs := [];
    } else {
      var n, c := FrontOf(data).length, Scalar(data);
      SequenceIsEncoded(data);
      var rest := CleanScanIsEncoded(data[n..]);
      EncodeAllHead(c, rest, data, n);
      cs := [c] + rest;
    }
  }

  lemma EncodeAllHead(c: int, rest: seq<int>, data: seq<byte>, n: nat)
    requires IsScalar(c) && AllScalars(rest) && n <= |data| && Encode(c) == data[..n] && EncodeAll(rest) == data[n..]
    ensures AllScalars([c] + rest) && EncodeAll([c] + rest) == data
  {
    assert ([c] + rest)[1..] == rest;
    assert data == data[..n] + data[n..];
  }

  /** The validator's verdict means what it should: the bytes are the UTF-8 encoding of some text. */
  lemma CleanMeansEncodedText(data: seq<byte>)
    ensures Scan(data) == Rest([]) <==> exists cs: seq<int> :: AllScalars(cs) && EncodeAll(cs) == data
  {
    if Scan(data) == Rest([]) {
      var cs := CleanScanIsEncoded(data);
    }
    if exists cs: seq<int> :: AllScalars(cs) && EncodeAll(cs) == data {
      var cs: seq<int> :| AllScalars(cs) && EncodeAll(cs) == data;
      EncodedScansClean(cs);
    }
  }
}
