/** Chunked staging of an upload (`_stage_spool_file`, `_stage_spool_encrypted` in api/api_attachments.py).
    Both loops are proved to compute a function of the received bytes alone. */
module Staging {
  import opened PyText
  import opened Utf8Stream

  const MAX_FILE_BYTES := 5 * 1024 * 1024
  const SNIFF_HEAD_BYTES := 512

  /** A digest over everything a hasher was fed. */
  type Hash = seq<byte> -> seq<byte>

  /** What successive reads return; the end of the list is the end of the upload, or a failure. */
  datatype Stream = Stream(chunks: seq<seq<byte>>, breaks: bool)

  datatype Outcome =
    | Staged(digest: seq<byte>, head: seq<byte>, size: nat, textClean: bool)
    | TooLarge
    | Broken

  /** The bytes up to the first empty read. */
  function Received(chunks: seq<seq<byte>>): seq<byte> {
    if chunks == [] || chunks[0] == [] then [] else chunks[0] + Received(chunks[1..])
  }

  predicate EndsEarly(chunks: seq<seq<byte>>) {
    exists i :: 0 <= i < |chunks| && chunks[i] == []
  }

  predicate Breaks(s: Stream) {
    s.breaks && !EndsEarly(s.chunks)
  }

  function Head(data: seq<byte>): seq<byte> {
    if |data| <= SNIFF_HEAD_BYTES then data else data[..SNIFF_HEAD_BYTES]
  }

  /** Reference: the verdict on the bytes in one piece. */
  function StageOf(data: seq<byte>, broke: bool, hash: Hash): Outcome {
    if |data| > MAX_FILE_BYTES then TooLarge
    else if broke then Broken
    else Staged(hash(data), Head(data), |data|, CleanText(data))
  }

  /** What the loop variables hold after the chunks before `i`: all of them, none empty. */
  ghost predicate Progress(chunks: seq<seq<byte>>, i: nat, data: seq<byte>, head: seq<byte>, v: Validator) {
    && i <= |chunks| && |data| <= MAX_FILE_BYTES
    && Received(chunks) == data + Received(chunks[i..])
    && (forall k :: 0 <= k < i ==> chunks[k] != [])
    && head == Head(data) && Tracks(v, data)
  }

  /** The next chunk, if it exists and fits. */
  lemma ProgressStep(chunks: seq<seq<byte>>, i: nat, data: seq<byte>, head: seq<byte>, v: Validator)
    requires Progress(chunks, i, data, head, v) && i < |chunks| && chunks[i] != []
    ensures Received(chunks) == data + chunks[i] + Received(chunks[i + 1..])
    ensures |data + chunks[i]| <= MAX_FILE_BYTES ==>
              Progress(chunks, i + 1, data + chunks[i], HeadAfter(head, chunks[i]), Feed(v, chunks[i]))
  {
    assert chunks[i..][0] == chunks[i] && chunks[i..][1..] == chunks[i + 1..];
    assert data + (chunks[i] + Received(chunks[i + 1..])) == (data + chunks[i]) + Received(chunks[i + 1..]);
    HeadGrows(data, chunks[i]);
    FeedTracks(v, data, chunks[i]);
  }

  function HeadAfter(head: seq<byte>, chunk: seq<byte>): seq<byte>
    requires |head| <= SNIFF_HEAD_BYTES
  {
    var room := SNIFF_HEAD_BYTES - |head|;
    head + if |chunk| <= room then chunk else chunk[..room]
  }

  lemma HeadGrows(data: seq<byte>, chunk: seq<byte>)
    ensures HeadAfter(Head(data), chunk) == Head(data + chunk)
  {
  }

  lemma ProgressEnd(s: Stream, i: nat, data: seq<byte>, head: seq<byte>, v: Validator)
    requires Progress(s.chunks, i, data, head, v) && (i < |s.chunks| ==> s.chunks[i] == [])
    ensures Received(s.chunks) == data && Utf8Stream.Finish(v) == CleanText(data)
    ensures Breaks(s) <==> i == |s.chunks| && s.breaks
  {
    if i < |s.chunks| { assert s.chunks[i..][0] == []; }
    assert data + [] == data;
  }

  lemma EmptyTracks()
    ensures Tracks(FreshValidator, []) && Head([]) == []
  {
  }

  /** Plain staging: the bytes go to the file as they come.  `file` is what was written, never more than
      the cap, and `taken` counts the chunks taken: at most one beyond the cap. */
  method StagePlain(s: Stream, hash: Hash) returns (o: Outcome, file: seq<byte>, taken: nat)
    ensures o == StageOf(Received(s.chunks), Breaks(s), hash)
    ensures o.Staged? ==> file == Received(s.chunks)
    ensures |file| <= MAX_FILE_BYTES && file <= Received(s.chunks)
    ensures taken <= |s.chunks| + 1
    ensures o == TooLarge ==> 1 <= taken <= |s.chunks| && |Received(s.chunks[..taken - 1])| <= MAX_FILE_BYTES
  {
    var hashed, size, head, validator := [], 0, [], FreshValidator;
    file, taken := [], 0;
    EmptyTracks();
    assert s.chunks[0..] == s.chunks && [] + Received(s.chunks) == Received(s.chunks);
    while taken < |s.chunks| && s.chunks[taken] != []
      invariant Progress(s.chunks, taken, file, head, validator) && hashed == file && size == |file|
      invariant Received(s.chunks[..taken]) == file
    {
      var chunk := s.chunks[taken];
      ProgressStep(s.chunks, taken, file, head, validator);
      ReceivedOfPrefix(s.chunks, taken);
      taken := taken + 1;
      size := size + |chunk|;
      if size > MAX_FILE_BYTES {
        assert |Received(s.chunks)| >= |file + chunk|;
        assert s.chunks[..taken - 1] == s.chunks[..taken][..taken - 1];
        o := TooLarge;
        return;
      }
      hashed, file, validator := hashed + chunk, file + chunk, Feed(validator, chunk);
      head := HeadAfter(head, chunk);
    }
    ProgressEnd(s, taken, file, head, validator);
    o := if taken == |s.chunks| && s.breaks then Broken
         else Staged(hash(hashed), head, size, Utf8Stream.Finish(validator));
  }

  lemma {:induction false} ReceivedOfPrefix(chunks: seq<seq<byte>>, i: nat)
    requires i < |chunks| && forall k :: 0 <= k <= i ==> chunks[k] != []
    ensures Received(chunks[..i + 1]) == Received(chunks[..i]) + chunks[i]
    decreases i
  {
    if i == 0 {
      assert chunks[..1] == [chunks[0]];
    } else {
      var rest := chunks[1..];
      assert chunks[..i + 1][1..] == rest[..i] && chunks[..i][1..] == rest[..i - 1];
      ReceivedOfPrefix(rest, i - 1);
      assert chunks[0] + (Received(rest[..i - 1]) + rest[i - 1]) == (chunks[0] + Received(rest[..i - 1])) + rest[i - 1];
    }
  }

  /** Encrypting staging: the bytes stay in memory, same verdict. */
  method StageInMemory(s: Stream, hash: Hash) returns (o: Outcome, data: seq<byte>)
    ensures o == StageOf(Received(s.chunks), Breaks(s), hash)
    ensures o.Staged? ==> data == Received(s.chunks)
  {
    var hashed, head, validator, i := [], [], FreshValidator, 0;
    data := [];
    EmptyTracks();
    assert s.chunks[0..] == s.chunks && [] + Received(s.chunks) == Received(s.chunks);
    while i < |s.chunks| && s.chunks[i] != []
      invariant Progress(s.chunks, i, data, head, validator) && hashed == data
    {
      var chunk := s.chunks[i];
      ProgressStep(s.chunks, i, data, head, validator);
      if |data| + |chunk| > MAX_FILE_BYTES {
        assert |Received(s.chunks)| >= |data + chunk|;
        o := TooLarge;
        return;
      }
      hashed, data, validator := hashed + chunk, data + chunk, Feed(validator, chunk);
      head := HeadAfter(head, chunk);
      i := i + 1;
    }
    ProgressEnd(s, i, data, head, validator);
    o := if i == |s.chunks| && s.breaks then Broken
         else Staged(hash(hashed), head, |data|, Utf8Stream.Finish(validator));
  }

  /** Cutting a chunk anywhere inside changes nothing that is received. */
  lemma {:induction false} ChunkBoundariesDoNotMatter(chunks: seq<seq<byte>>, i: nat, cut: nat)
    requires i < |chunks| && 0 < cut < |chunks[i]|
    ensures Received(chunks[..i] + [chunks[i][..cut], chunks[i][cut..]] + chunks[i + 1..]) == Received(chunks)
    decreases i
  {
    var a, b := chunks[i][..cut], chunks[i][cut..];
    var finer := chunks[..i] + [a, b] + chunks[i + 1..];
    if i == 0 {
      assert finer == [a, b] + chunks[1..];
      assert finer[1..] == [b] + chunks[1..] && finer[1..][1..] == chunks[1..];
      assert a + (b + Received(chunks[1..])) == (a + b) + Received(chunks[1..]);
      assert a + b == chunks[0];
    } else {
      var rest := chunks[1..];
      assert rest[i - 1] == chunks[i] && rest[..i - 1] == chunks[1..i] && rest[i..] == chunks[i + 1..];
      assert finer[1..] == rest[..i - 1] + [a, b] + rest[i..];
      ChunkBoundariesDoNotMatter(rest, i - 1, cut);
    }
  }

  /** Accepted exactly up to the cap, and the verdict names the bytes' own size, head and text status. */
  lemma AcceptedExactlyWithinTheCap(data: seq<byte>, hash: Hash)
    ensures StageOf(data, false, hash).Staged? <==> |data| <= 5_242_880
    ensures StageOf(data, false, hash).Staged? ==>
              var staged := StageOf(data, false, hash);
              && staged.digest == hash(data) && staged.size == |data|
              && staged.head <= data && |staged.head| == (if |data| < 512 then |data| else 512)
              && (staged.textClean
                  <==> !HasNul(data) && exists cs: seq<int> :: AllScalars(cs) && EncodeAll(cs) == data)
    ensures StageOf(data, true, hash) == if |data| <= 5_242_880 then Broken else TooLarge
  {
    CleanMeansEncodedText(data);
  }
}
