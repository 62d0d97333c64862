/** Telemetry down-sampling (`_downsample_telemetry_history` in server.py), over exact reals: records are
    grouped into at most `maxPoints` time buckets and every field is averaged per bucket. */
module Downsample {
  import opened Options
  import opened SortedKeys

  datatype Field =
    | Temperature | Humidity | Pressure | Voltage | Current | Power
    | BatteryLevel | ChannelUtilization | AirUtilTx | UptimeSeconds

  /** A record's usable timestamp, if it has one, and its usable numeric fields. */
  datatype Record = Record(timestamp: Option<real>, values: map<Field, real>)

  datatype Entry = Entry(timestamp: real, values: map<Field, real>)

  datatype Grid = Grid(since: real, width: int, maxPoints: int)

  predicate GridOk(g: Grid) {
    g.width >= 1 && g.maxPoints >= 1
  }

  function Ceiling(x: real): int {
    -((-x).Floor)
  }

  function MakeGrid(since: real, maxPoints: int, now: real): (g: Grid)
    requires maxPoints >= 1
    ensures GridOk(g)
  {
    var span := if now - since > 1.0 then now - since else 1.0;
    var width := Ceiling(span / maxPoints as real);
    Grid(since, if width > 1 then width else 1, maxPoints)
  }

  function Slot(g: Grid, timestamp: real): int
    requires GridOk(g)
  {
    ((timestamp - g.since) / g.width as real).Floor
  }

  function Index(g: Grid, timestamp: real): (i: int)
    requires GridOk(g)
    ensures 0 <= i < g.maxPoints
  {
    var i := Slot(g, timestamp);
    if i < 0 then 0 else if i > g.maxPoints - 1 then g.maxPoints - 1 else i
  }

  // ------------------------------------------------------------------ reference: grouping by index

  predicate Belongs(g: Grid, r: Record, i: int)
    requires GridOk(g)
  {
    r.timestamp.Some? && Index(g, r.timestamp.value) == i
  }

  /** The records of bucket `i`, in order. */
  function Group(g: Grid, records: seq<Record>, i: int): seq<Record>
    requires GridOk(g)
  {
    if records == [] then []
    else
      var front, r := records[..|records| - 1], records[|records| - 1];
      Group(g, front, i) + if Belongs(g, r, i) then [r] else []
  }

  function Indices(g: Grid, records: seq<Record>): set<int>
    requires GridOk(g)
  {
    set r | r in records && r.timestamp.Some? :: Index(g, r.timestamp.value)
  }

  function Times(records: seq<Record>): seq<real> {
    if records == [] then []
    else
      var front, r := records[..|records| - 1], records[|records| - 1];
      Times(front) + if r.timestamp.Some? then [r.timestamp.value] else []
  }

  function Values(records: seq<Record>, f: Field): seq<real> {
    if records == [] then []
    else
      var front, r := records[..|records| - 1], records[|records| - 1];
      Values(front, f) + if f in r.values then [r.values[f]] else []
  }

  function Sum(xs: seq<real>): real {
    if xs == [] then 0.0 else Sum(xs[..|xs| - 1]) + xs[|xs| - 1]
  }

  function Mean(xs: seq<real>): real
    requires xs != []
  {
    Sum(xs) / |xs| as real
  }

  function Summary(times: seq<real>, fields: map<Field, seq<real>>): Entry
    requires times != []
  {
    Entry(Mean(times), map f | f in fields && fields[f] != [] :: Mean(fields[f]))
  }

  function AllFields(): set<Field> {
    {Temperature, Humidity, Pressure, Voltage, Current, Power, BatteryLevel, ChannelUtilization, AirUtilTx,
        UptimeSeconds}
  }

  function FieldsOf(group: seq<Record>): map<Field, seq<real>> {
    map f | f in AllFields() :: Values(group, f)
  }

  /** What the chart shows for bucket `i`. */
  function EntryFor(g: Grid, records: seq<Record>, i: int): Entry
    requires GridOk(g) && i in Indices(g, records)
  {
    GroupsAreInhabited(g, records, i);
    Summary(Times(Group(g, records, i)), FieldsOf(Group(g, records, i)))
  }

  function History(g: Grid, records: seq<Record>): (h: seq<Entry>)
    requires GridOk(g)
    ensures |h| == |Ascending(Indices(g, records))|
  {
    var keys := Ascending(Indices(g, records));
    seq(|keys|, k requires 0 <= k < |keys| => EntryFor(g, records, keys[k]))
  }

  // ------------------------------------------------------------------ grouping

  lemma {:induction false} GroupMembers(g: Grid, records: seq<Record>, i: int, r: Record)
    requires GridOk(g)
    ensures r in Group(g, records, i) <==> r in records && Belongs(g, r, i)
  {
    if records != [] {
      var front, last := records[..|records| - 1], records[|records| - 1];
      assert r in records <==> r in front || r == last;
      GroupMembers(g, front, i, r);
    }
  }

  ghost predicate AllIn(g: Grid, times: seq<real>, i: int)
    requires GridOk(g)
  {
    forall k :: 0 <= k < |times| ==> Index(g, times[k]) == i
  }

  lemma {:induction false} TimesOfGroup(g: Grid, records: seq<Record>, i: int)
    requires GridOk(g)
    ensures |Times(Group(g, records, i))| == |Group(g, records, i)|
    ensures AllIn(g, Times(Group(g, records, i)), i)
  {
    if records != [] {
      var front, r := records[..|records| - 1], records[|records| - 1];
      TimesOfGroup(g, front, i);
      if Belongs(g, r, i) {
        var group := Group(g, records, i);
        assert group[..|group| - 1] == Group(g, front, i) && group[|group| - 1] == r;
        assert Times(group) == Times(Group(g, front, i)) + [r.timestamp.value];
      } else {
        assert Group(g, records, i) == Group(g, front, i);
      }
    }
  }

  lemma GroupsAreInhabited(g: Grid, records: seq<Record>, i: int)
    requires GridOk(g) && i in Indices(g, records)
    ensures Group(g, records, i) != [] && Times(Group(g, records, i)) != []
  {
    var r :| r in records && r.timestamp.Some? && Index(g, r.timestamp.value) == i;
    GroupMembers(g, records, i, r);
    TimesOfGroup(g, records, i);
  }

  // ------------------------------------------------------------------ the loops

  datatype Bucket = Bucket(timestamps: seq<real>, fields: map<Field, seq<real>>)

  /** The bucket that holds exactly the records of group `i`. */
  function BucketFor(g: Grid, records: seq<Record>, i: int): Bucket
    requires GridOk(g)
  {
    Bucket(Times(Group(g, records, i)), FieldsOf(Group(g, records, i)))
  }

  function Extended(b: Bucket, r: Record): Bucket
    requires r.timestamp.Some?
  {
    Bucket(b.timestamps + [r.timestamp.value],
           map f | f in b.fields :: if f in r.values then b.fields[f] + [r.values[f]] else b.fields[f])
  }

  ghost predicate Grouped(g: Grid, records: seq<Record>, buckets: map<int, Bucket>)
    requires GridOk(g)
  {
    && buckets.Keys == Indices(g, records)
    && forall i :: i in buckets ==> buckets[i] == BucketFor(g, records, i)
  }

  lemma ValuesGrow(group: seq<Record>, r: Record, f: Field)
    ensures Values(group + [r], f) == if f in r.values then Values(group, f) + [r.values[f]] else Values(group, f)
  {
    assert (group + [r])[..|group|] == group && (group + [r])[|group|] == r;
  }

  lemma FieldsGrow(group: seq<Record>, r: Record)
    ensures FieldsOf(group + [r])
         == map f | f in FieldsOf(group) :: if f in r.values then FieldsOf(group)[f] + [r.values[f]]
             else FieldsOf(group)[f]
  {
    forall f | f in AllFields()
      ensures Values(group + [r], f) == if f in r.values then Values(group, f) + [r.values[f]] else Values(group, f)
    {
      ValuesGrow(group, r, f);
    }
  }

  lemma BucketGrows(group: seq<Record>, r: Record)
    requires r.timestamp.Some?
    ensures Extended(Bucket(Times(group), FieldsOf(group)), r) == Bucket(Times(group + [r]), FieldsOf(group + [r]))
  {
    assert Times(group + [r]) == Times(group) + [r.timestamp.value] by {
      assert (group + [r])[..|group|] == group && (group + [r])[|group|] == r;
    }
    FieldsGrow(group, r);
  }

  lemma GroupGrows(g: Grid, records: seq<Record>, r: Record, i: int)
    requires GridOk(g)
    ensures Belongs(g, r, i) ==> BucketFor(g, records + [r], i) == Extended(BucketFor(g, records, i), r)
    ensures !Belongs(g, r, i) ==> Group(g, records + [r], i) == Group(g, records, i)
  {
    assert (records + [r])[..|records|] == records;
    if Belongs(g, r, i) {
      assert Group(g, records + [r], i) == Group(g, records, i) + [r];
      BucketGrows(Group(g, records, i), r);
    }
  }

  lemma IndicesGrow(g: Grid, records: seq<Record>, r: Record)
    requires GridOk(g)
    ensures Indices(g, records + [r])
         == Indices(g, records) + if r.timestamp.Some? then {Index(g, r.timestamp.value)} else {}
  {
    assert forall x :: x in records + [r] <==> x in records || x == r;
  }

  lemma {:induction false} EmptyGroup(g: Grid, records: seq<Record>, i: int)
    requires GridOk(g) && i !in Indices(g, records)
    ensures Group(g, records, i) == []
  {
    if records != [] {
      var front, r := records[..|records| - 1], records[|records| - 1];
      assert records == front + [r];
      IndicesGrow(g, front, r);
      EmptyGroup(g, front, i);
    }
  }

  /** One record falls into its bucket, which is created on first use. */
  lemma GroupedStep(g: Grid, records: seq<Record>, r: Record, buckets: map<int, Bucket>)
    requires GridOk(g) && Grouped(g, records, buckets) && r.timestamp.Some?
    ensures var i := Index(g, r.timestamp.value);
            var b := if i in buckets then buckets[i] else Bucket([], map f | f in AllFields() :: []);
            Grouped(g, records + [r], buckets[i := Extended(b, r)])
  {
    var i := Index(g, r.timestamp.value);
    var b := if i in buckets then buckets[i] else Bucket([], map f | f in AllFields() :: []);
    var after := buckets[i := Extended(b, r)];
    assert after.Keys == Indices(g, records + [r]) by { IndicesGrow(g, records, r); }
    assert b == BucketFor(g, records, i) by {
      if i !in buckets { EmptyGroup(g, records, i); }
    }
    assert after[i] == BucketFor(g, records + [r], i) by { GroupGrows(g, records, r, i); }
    forall k | k in after && k != i ensures after[k] == BucketFor(g, records + [r], k) {
      GroupGrows(g, records, r, k);
    }
  }

  lemma GroupedSkip(g: Grid, records: seq<Record>, r: Record, buckets: map<int, Bucket>)
    requires GridOk(g) && Grouped(g, records, buckets) && r.timestamp.None?
    ensures Grouped(g, records + [r], buckets)
  {
    IndicesGrow(g, records, r);
    forall k | k in buckets ensures buckets[k] == BucketFor(g, records + [r], k) {
      GroupGrows(g, records, r, k);
    }
  }

  method CollectBuckets(g: Grid, records: seq<Record>) returns (buckets: map<int, Bucket>)
    requires GridOk(g)
    ensures Grouped(g, records, buckets)
  {
    buckets := map[];
    for n := 0 to |records|
      invariant Grouped(g, records[..n], buckets)
    {
      var r, seen := records[n], records[..n];
      assert records[..n + 1] == seen + [r];
      if r.timestamp.Some? {
        var index := Index(g, r.timestamp.value);
        var bucket := if index in buckets then buckets[index] else Bucket([], map f | f in AllFields() :: []);
        assert Grouped(g, seen + [r], buckets[index := Extended(bucket, r)]) by { GroupedStep(g, seen, r, buckets); }
        buckets := buckets[index := Extended(bucket, r)];
      } else {
        assert Grouped(g, seen + [r], buckets) by { GroupedSkip(g, seen, r, buckets); }
      }
    }
    assert records[..|records|] == records;
  }

  lemma SummaryOfBucket(g: Grid, records: seq<Record>, buckets: map<int, Bucket>, i: int)
    requires GridOk(g) && Grouped(g, records, buckets) && i in buckets
    ensures buckets[i].timestamps != []
    ensures Summary(buckets[i].timestamps, buckets[i].fields) == EntryFor(g, records, i)
  {
    GroupsAreInhabited(g, records, i);
  }

  method DownsampleHistory(records: seq<Record>, since: real, maxPoints: int, now: real)
    returns (history: seq<Entry>, bucketSeconds: int)
    requires maxPoints >= 1
    ensures bucketSeconds == MakeGrid(since, maxPoints, now).width
    ensures history == History(MakeGrid(since, maxPoints, now), records)
  {
    var g := MakeGrid(since, maxPoints, now);
    bucketSeconds := g.width;
    var buckets := CollectBuckets(g, records);
    var keys := Ascending(buckets.Keys);
    history := [];
    for k := 0 to |keys|
      invariant |history| == k
      invariant forall j :: 0 <= j < k ==> history[j] == EntryFor(g, records, keys[j])
    {
      var bucket := buckets[keys[k]];
      SummaryOfBucket(g, records, buckets, keys[k]);
      history := history + [Summary(bucket.timestamps, bucket.fields)];
    }
  }
}
