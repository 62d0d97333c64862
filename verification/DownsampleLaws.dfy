/** What the down-sampled chart promises: no record lost, sums conserved, averages in range, time in order. */
module DownsampleLaws {
  import opened Options
  import opened SortedKeys
  import opened Downsample

  // ------------------------------------------------------------------ nothing is lost

  function Usable(records: seq<Record>): seq<Record> {
    if records == [] then []
    else
      var front, r := records[..|records| - 1], records[|records| - 1];
      Usable(front) + if r.timestamp.Some? then [r] else []
  }

  function SumOf(records: seq<Record>, w: Record -> real): real {
    if records == [] then 0.0 else SumOf(records[..|records| - 1], w) + w(records[|records| - 1])
  }

  /** Sum of `h` over the buckets of a chart. */
  function Total(keys: seq<int>, h: int -> real): real {
    if keys == [] then 0.0 else h(keys[0]) + Total(keys[1..], h)
  }

  function GroupSum(g: Grid, records: seq<Record>, w: Record -> real): int -> real
    requires GridOk(g)
  {
    (i: int) => SumOf(Group(g, records, i), w)
  }

  function GroupTotal(g: Grid, records: seq<Record>, keys: seq<int>, w: Record -> real): real
    requires GridOk(g)
  {
    Total(keys, GroupSum(g, records, w))
  }

  lemma {:induction false} TotalsAgree(keys: seq<int>, h: int -> real, h': int -> real)
    requires forall k :: 0 <= k < |keys| ==> h(keys[k]) == h'(keys[k])
    ensures Total(keys, h) == Total(keys, h')
  {
    if keys != [] {
      assert forall k :: 0 <= k < |keys[1..]| ==> keys[1..][k] == keys[k + 1];
      TotalsAgree(keys[1..], h, h');
    }
  }

  lemma SumOfGrows(records: seq<Record>, r: Record, w: Record -> real)
    ensures SumOf(records + [r], w) == SumOf(records, w) + w(r)
  {
    assert (records + [r])[..|records|] == records;
  }

  lemma GroupSumGrows(g: Grid, records: seq<Record>, r: Record, i: int, w: Record -> real)
    requires GridOk(g)
    ensures SumOf(Group(g, records + [r], i), w)
         == SumOf(Group(g, records, i), w) + if Belongs(g, r, i) then w(r) else 0.0
  {
    assert (records + [r])[..|records|] == records;
    SumOfGrows(Group(g, records, i), r, w);
    assert Group(g, records, i) + [] == Group(g, records, i);
  }

  predicate HasHome(g: Grid, r: Record, keys: seq<int>)
    requires GridOk(g)
  {
    r.timestamp.Some? && Index(g, r.timestamp.value) in keys
  }

  lemma HomeIsUnique(g: Grid, r: Record, keys: seq<int>)
    requires GridOk(g) && Increasing(keys) && keys != []
    ensures HasHome(g, r, keys) <==> Belongs(g, r, keys[0]) || HasHome(g, r, keys[1..])
    ensures !(Belongs(g, r, keys[0]) && HasHome(g, r, keys[1..]))
  {
  }

  /** One more record adds to its own bucket and to no other. */
  lemma {:induction false} GroupTotalGrows(g: Grid, records: seq<Record>, r: Record, keys: seq<int>, w: Record -> real)
    requires GridOk(g) && Increasing(keys)
    ensures GroupTotal(g, records + [r], keys, w)
         == GroupTotal(g, records, keys, w) + if HasHome(g, r, keys) then w(r) else 0.0
  {
    if keys != [] {
      GroupSumGrows(g, records, r, keys[0], w);
      GroupTotalGrows(g, records, r, keys[1..], w);
      HomeIsUnique(g, r, keys);
    }
  }

  lemma {:induction false} EmptyTotal(g: Grid, keys: seq<int>, w: Record -> real)
    requires GridOk(g)
    ensures GroupTotal(g, [], keys, w) == 0.0
  {
    if keys != [] { EmptyTotal(g, keys[1..], w); }
  }

  /** Buckets partition the usable records, whatever is added up. */
  lemma {:induction false} BucketsPartition(g: Grid, records: seq<Record>, keys: seq<int>, w: Record -> real)
    requires GridOk(g) && Increasing(keys) && forall i :: i in Indices(g, records) ==> i in keys
    ensures GroupTotal(g, records, keys, w) == SumOf(Usable(records), w)
  {
    if records == [] {
      EmptyTotal(g, keys, w);
    } else {
      var front, r := records[..|records| - 1], records[|records| - 1];
      assert records == front + [r];
      IndicesGrow(g, front, r);
      BucketsPartition(g, front, keys, w);
      GroupTotalGrows(g, front, r, keys, w);
      if r.timestamp.Some? {
        assert Index(g, r.timestamp.value) in Indices(g, records);
        SumOfGrows(Usable(front), r, w);
      } else {
        assert Usable(records) == Usable(front);
      }
    }
  }

  function TimeOf(r: Record): real {
    r.timestamp.UnwrapOr(0.0)
  }

  function ValueOf(f: Field): Record -> real {
    (r: Record) => if f in r.values then r.values[f] else 0.0
  }

  lemma SumGrows(xs: seq<real>, x: real)
    ensures Sum(xs + [x]) == Sum(xs) + x
  {
    assert (xs + [x])[..|xs|] == xs;
  }

  lemma {:induction false} SumOfTimes(records: seq<Record>)
    ensures Sum(Times(records)) == SumOf(records, TimeOf)
  {
    if records != [] {
      var front, r := records[..|records| - 1], records[|records| - 1];
      SumOfTimes(front);
      if r.timestamp.Some? {
        assert Times(records) == Times(front) + [r.timestamp.value];
        SumGrows(Times(front), r.timestamp.value);
      } else {
        assert Times(records) == Times(front);
      }
    }
  }

  lemma {:induction false} SumOfValues(records: seq<Record>, f: Field)
    ensures Sum(Values(records, f)) == SumOf(records, ValueOf(f))
  {
    if records != [] {
      var front, r := records[..|records| - 1], records[|records| - 1];
      SumOfValues(front, f);
      if f in r.values {
        assert Values(records, f) == Values(front, f) + [r.values[f]];
        SumGrows(Values(front, f), r.values[f]);
      } else {
        assert Values(records, f) == Values(front, f);
      }
    }
  }

  lemma {:induction false} SumOfOnes(records: seq<Record>, one: Record -> real)
    requires forall r :: one(r) == 1.0
    ensures SumOf(records, one) == |records| as real
  {
    if records != [] { SumOfOnes(records[..|records| - 1], one); }
  }

  // ------------------------------------------------------------------ what the chart promises

  /** Number of records in each bucket. */
  function Sizes(g: Grid, records: seq<Record>): int -> real
    requires GridOk(g)
  {
    (i: int) => |Group(g, records, i)| as real
  }

  /** Bucket sizes add up to the number of usable records. */
  lemma NoRecordIsLost(g: Grid, records: seq<Record>)
    requires GridOk(g)
    ensures Total(Ascending(Indices(g, records)), Sizes(g, records)) == |Usable(records)| as real
  {
    var keys, one := Ascending(Indices(g, records)), (r: Record) => 1.0;
    forall k | 0 <= k < |keys| ensures Sizes(g, records)(keys[k]) == GroupSum(g, records, one)(keys[k]) {
      SumOfOnes(Group(g, records, keys[k]), one);
    }
    TotalsAgree(keys, Sizes(g, records), GroupSum(g, records, one));
    BucketsPartition(g, records, keys, one);
    SumOfOnes(Usable(records), one);
  }

  lemma AtMostMaxPoints(g: Grid, records: seq<Record>)
    requires GridOk(g)
    ensures |History(g, records)| <= g.maxPoints
  {
    IntervalSize(g.maxPoints, Indices(g, records));
  }

  /** `n` times `x`. */
  function Copies(n: nat, x: real): real {
    if n == 0 then 0.0 else Copies(n - 1, x) + x
  }

  lemma {:induction false} CopiesIsProduct(n: nat, x: real)
    ensures Copies(n, x) == n as real * x
  {
    if n > 0 {
      CopiesIsProduct(n - 1, x);
      assert n as real * x == (n - 1) as real * x + x;
    }
  }

  /** Count times average of each bucket, zero for a bucket where the field never occurs. */
  function TimeShare(g: Grid, records: seq<Record>): int -> real
    requires GridOk(g)
  {
    (i: int) => if i in Indices(g, records)
                then Copies(|Group(g, records, i)|, EntryFor(g, records, i).timestamp) else 0.0
  }

  function ValueShare(g: Grid, records: seq<Record>, f: Field): int -> real
    requires GridOk(g)
  {
    (i: int) => if i in Indices(g, records) && f in EntryFor(g, records, i).values
                then Copies(|Values(Group(g, records, i), f)|, EntryFor(g, records, i).values[f]) else 0.0
  }

  lemma MeanTimesCount(xs: seq<real>)
    requires xs != []
    ensures Copies(|xs|, Mean(xs)) == Sum(xs)
  {
    CopiesIsProduct(|xs|, Mean(xs));
  }

  lemma ShownValue(g: Grid, records: seq<Record>, i: int, f: Field)
    requires GridOk(g) && i in Indices(g, records)
    ensures f in EntryFor(g, records, i).values <==> Values(Group(g, records, i), f) != []
    ensures f in EntryFor(g, records, i).values ==>
        EntryFor(g, records, i).values[f] == Mean(Values(Group(g, records, i), f))
  {
    assert f in AllFields();
  }

  lemma EntryTime(g: Grid, records: seq<Record>, i: int)
    requires GridOk(g) && i in Indices(g, records)
    ensures TimeShare(g, records)(i) == GroupSum(g, records, TimeOf)(i)
  {
    var group := Group(g, records, i);
    GroupsAreInhabited(g, records, i);
    assert |Times(group)| == |group| by { TimesOfGroup(g, records, i); }
    assert Copies(|group|, Mean(Times(group))) == Sum(Times(group)) by { MeanTimesCount(Times(group)); }
    assert Sum(Times(group)) == SumOf(group, TimeOf) by { SumOfTimes(group); }
  }

  lemma EntryValue(g: Grid, records: seq<Record>, i: int, f: Field)
    requires GridOk(g) && i in Indices(g, records)
    ensures ValueShare(g, records, f)(i) == GroupSum(g, records, ValueOf(f))(i)
  {
    var group, e := Group(g, records, i), EntryFor(g, records, i);
    var v := Values(group, f);
    assert Sum(v) == SumOf(group, ValueOf(f)) by { SumOfValues(group, f); }
    ShownValue(g, records, i, f);
    if v != [] {
      assert Copies(|v|, Mean(v)) == Sum(v) by { MeanTimesCount(v); }
    }
  }

  /** Weighted by their counts, the averages of a field add up to the sum of the input. */
  lemma AveragesConserveSums(g: Grid, records: seq<Record>, f: Field)
    requires GridOk(g)
    ensures Total(Ascending(Indices(g, records)), ValueShare(g, records, f)) == Sum(Values(Usable(records), f))
  {
    var keys := Ascending(Indices(g, records));
    forall k | 0 <= k < |keys| ensures ValueShare(g, records, f)(keys[k]) == GroupSum(g, records, ValueOf(f))(keys[k]) {
      EntryValue(g, records, keys[k], f);
    }
    TotalsAgree(keys, ValueShare(g, records, f), GroupSum(g, records, ValueOf(f)));
    BucketsPartition(g, records, keys, ValueOf(f));
    SumOfValues(Usable(records), f);
  }

  /** So do the timestamps shown. */
  lemma TimestampsConserveSum(g: Grid, records: seq<Record>)
    requires GridOk(g)
    ensures Total(Ascending(Indices(g, records)), TimeShare(g, records)) == Sum(Times(Usable(records)))
  {
    var keys := Ascending(Indices(g, records));
    forall k | 0 <= k < |keys| ensures TimeShare(g, records)(keys[k]) == GroupSum(g, records, TimeOf)(keys[k]) {
      EntryTime(g, records, keys[k]);
    }
    TotalsAgree(keys, TimeShare(g, records), GroupSum(g, records, TimeOf));
    BucketsPartition(g, records, keys, TimeOf);
    SumOfTimes(Usable(records));
  }

  // ------------------------------------------------------------------ averages and order

  predicate Within(xs: seq<real>, lo: real, hi: real) {
    forall k :: 0 <= k < |xs| ==> lo <= xs[k] <= hi
  }

  lemma {:induction false} SumWithin(xs: seq<real>, lo: real, hi: real)
    requires Within(xs, lo, hi)
    ensures |xs| as real * lo <= Sum(xs) <= |xs| as real * hi
  {
    if xs != [] {
      SumWithin(xs[..|xs| - 1], lo, hi);
      assert |xs| as real * lo == (|xs| - 1) as real * lo + lo;
      assert |xs| as real * hi == (|xs| - 1) as real * hi + hi;
    }
  }

  /** A mean lies between any bounds of what is averaged. */
  lemma MeanWithin(xs: seq<real>, lo: real, hi: real)
    requires xs != [] && Within(xs, lo, hi)
    ensures lo <= Mean(xs) <= hi
  {
    SumWithin(xs, lo, hi);
    QuotientWithin(Sum(xs), |xs| as real, lo, hi);
  }

  lemma QuotientWithin(s: real, n: real, lo: real, hi: real)
    requires n > 0.0 && n * lo <= s <= n * hi
    ensures lo <= s / n <= hi
  {
    assert (n * lo) / n == lo && (n * hi) / n == hi;
  }

  /** Every average of the chart lies within the range of its bucket's own values. */
  lemma AverageIsWithinItsBucket(g: Grid, records: seq<Record>, i: int, f: Field, lo: real, hi: real)
    requires GridOk(g) && i in Indices(g, records)
    requires Within(Values(Group(g, records, i), f), lo, hi)
    ensures f in EntryFor(g, records, i).values <==> Values(Group(g, records, i), f) != []
    ensures f in EntryFor(g, records, i).values ==> lo <= EntryFor(g, records, i).values[f] <= hi
  {
    ShownValue(g, records, i, f);
    if Values(Group(g, records, i), f) != [] { MeanWithin(Values(Group(g, records, i), f), lo, hi); }
  }

  /** A timestamp of an earlier bucket lies before every timestamp of a later one, clamped or not. */
  lemma BucketsAreOrdered(g: Grid, a: real, b: real)
    requires GridOk(g) && Index(g, a) < Index(g, b)
    ensures a < g.since + (Index(g, b) * g.width) as real <= b
  {
    var w := g.width as real;
    var x, y := (a - g.since) / w, (b - g.since) / w;
    assert x * w == a - g.since && y * w == b - g.since;
    assert x < Index(g, b) as real <= y;
    assert x * w < Index(g, b) as real * w <= y * w;
  }

  lemma AllBelow(xs: seq<real>, bound: real)
    requires xs != [] && forall k :: 0 <= k < |xs| ==> xs[k] < bound
    ensures Mean(xs) < bound
  {
    var m := MaxOf(xs);
    MeanWithin(xs, MinOf(xs), m);
  }

  function MaxOf(xs: seq<real>): (m: real)
    requires xs != []
    ensures m in xs && forall k :: 0 <= k < |xs| ==> xs[k] <= m
  {
    if |xs| == 1 then xs[0]
    else
      var m := MaxOf(xs[..|xs| - 1]);
      if xs[|xs| - 1] > m then xs[|xs| - 1] else m
  }

  function MinOf(xs: seq<real>): (m: real)
    requires xs != []
    ensures m in xs && forall k :: 0 <= k < |xs| ==> m <= xs[k]
  {
    if |xs| == 1 then xs[0]
    else
      var m := MinOf(xs[..|xs| - 1]);
      if xs[|xs| - 1] < m then xs[|xs| - 1] else m
  }

  lemma EntryTimesIncrease(g: Grid, records: seq<Record>, i: int, j: int)
    requires GridOk(g) && i in Indices(g, records) && j in Indices(g, records) && i < j
    ensures EntryFor(g, records, i).timestamp < EntryFor(g, records, j).timestamp
  {
    var ti, tj := Times(Group(g, records, i)), Times(Group(g, records, j));
    GroupsAreInhabited(g, records, i);
    GroupsAreInhabited(g, records, j);
    TimesOfGroup(g, records, i);
    TimesOfGroup(g, records, j);
    var bound := g.since + (j * g.width) as real;
    forall k | 0 <= k < |ti| ensures ti[k] < bound { BucketsAreOrdered(g, ti[k], tj[0]); }
    forall k | 0 <= k < |tj| ensures bound <= tj[k] { BucketsAreOrdered(g, ti[0], tj[k]); }
    AllBelow(ti, bound);
    MeanWithin(tj, bound, MaxOf(tj));
  }

  /** The chart's timestamps strictly increase, whatever the records. */
  lemma HistoryIsInOrder(g: Grid, records: seq<Record>, i: nat, j: nat)
    requires GridOk(g) && i < j < |History(g, records)|
    ensures History(g, records)[i].timestamp < History(g, records)[j].timestamp
  {
    var keys := Ascending(Indices(g, records));
    assert keys[i] in keys && keys[j] in keys;
    EntryTimesIncrease(g, records, keys[i], keys[j]);
  }

  /** The grid reaches from `since` to `now`: no record in that span is pulled into an earlier bucket,
      except one exactly at the far end. */
  lemma GridCoversTheSpan(since: real, maxPoints: int, now: real, timestamp: real)
    requires maxPoints >= 1 && since <= timestamp <= now
    ensures var g := MakeGrid(since, maxPoints, now);
            && now <= since + (g.maxPoints * g.width) as real
            && (timestamp < since + (g.maxPoints * g.width) as real ==> Index(g, timestamp) == Slot(g, timestamp))
  {
    var g := MakeGrid(since, maxPoints, now);
    var span, n, w := if now - since > 1.0 then now - since else 1.0, maxPoints as real, g.width as real;
    assert span <= w * n by { QuotientReaches(span, n, w); }
    assert w * n == (g.maxPoints * g.width) as real;
    if timestamp - since < w * n { QuotientBelow(timestamp - since, w, n); }
  }

  /** A bucket is never wider than it must be: one second less, and the grid would not reach to `now`. */
  lemma WidthIsLeast(since: real, maxPoints: int, now: real)
    requires maxPoints >= 1
    ensures var g := MakeGrid(since, maxPoints, now);
            && g.since == since && g.maxPoints == maxPoints && g.width >= 1
            && (g.width > 1 ==> since + ((g.width - 1) * maxPoints) as real < now)
  {
    var g := MakeGrid(since, maxPoints, now);
    if g.width > 1 {
      var span, n, w := if now - since > 1.0 then now - since else 1.0, maxPoints as real, (g.width - 1) as real;
      assert span / n > w;
      assert w * n < span by { assert span / n * n == span; }
      assert w * n == ((g.width - 1) * maxPoints) as real;
      assert (g.width - 1) * maxPoints >= 1;
    }
  }

  /** A record lies in the bucket that covers its time; records before the grid go to the first bucket and
      records behind it to the last. */
  lemma BucketCoversItsRecords(g: Grid, timestamp: real)
    requires GridOk(g)
    ensures var i, start := Index(g, timestamp), g.since + (Index(g, timestamp) * g.width) as real;
            && (i > 0 ==> start <= timestamp)
            && (i < g.maxPoints - 1 ==> timestamp < start + g.width as real)
  {
    var i, w := Index(g, timestamp), g.width as real;
    var x := (timestamp - g.since) / w;
    assert x * w == timestamp - g.since;
    assert i as real * w == (i * g.width) as real;
    CellBounds(x, i as real, w, timestamp - g.since, (i * g.width) as real);
  }

  lemma Positive(a: real, b: real)
    requires a > 0.0 && b > 0.0
    ensures a * b > 0.0
  {
  }

  lemma CellBounds(x: real, i: real, w: real, distance: real, start: real)
    requires w > 0.0 && x * w == distance && i * w == start
    ensures i <= x ==> start <= distance
    ensures x < i + 1.0 ==> distance < start + w
  {
    if i <= x { assert (x - i) * w >= 0.0; }
    if x < i + 1.0 {
      var d := i + 1.0 - x;
      assert start + w - distance == d * w;
      Positive(d, w);
    }
  }

  lemma QuotientReaches(span: real, n: real, w: real)
    requires n > 0.0 && span / n <= w
    ensures span <= w * n
  {
    assert span / n * n == span;
  }

  lemma QuotientBelow(x: real, w: real, n: real)
    requires w > 0.0 && 0.0 <= x < w * n
    ensures 0.0 <= x / w < n
  {
    assert x / w * w == x;
  }
}
