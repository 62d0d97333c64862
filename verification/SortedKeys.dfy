/** Python's `sorted` over the keys of a dict with integer keys. */
module SortedKeys {

  predicate Increasing(s: seq<int>) {
    forall i, j :: 0 <= i < j < |s| ==> s[i] < s[j]
  }

  lemma MinExists(s: set<int>) returns (m: int)
    requires s != {}
    ensures m in s && forall x :: x in s ==> m <= x
    decreases |s|
  {
    assert (forall x :: x !in s) ==> s == {};
    var x :| x in s;
    m := x;
    if s != {x} {
      var m' := MinExists(s - {x});
      assert forall y :: y in s ==> y == x || y in s - {x};
      if m' < x { m := m'; }
    }
  }

  function Min(s: set<int>): (m: int)
    requires s != {}
    ensures m in s && forall x :: x in s ==> m <= x
  {
    assert exists m :: m in s && forall x :: x in s ==> m <= x by { var m := MinExists(s); }
    var m :| m in s && forall x :: x in s ==> m <= x;
    m
  }

  function Ascending(s: set<int>): (r: seq<int>)
    ensures Increasing(r) && |r| == |s|
    ensures forall x :: x in r <==> x in s
    decreases |s|
  {
    if s == {} then []
    else
      var rest := Ascending(s - {Min(s)});
      assert forall i :: 0 <= i < |rest| ==> rest[i] in s - {Min(s)};
      [Min(s)] + rest
  }

  lemma {:induction false} IntervalSize(n: nat, s: set<int>)
    requires forall x :: x in s ==> 0 <= x < n
    ensures |s| <= n
  {
    if n == 0 {
      assert forall x :: x !in s;
      assert s == {};
    } else {
      IntervalSize(n - 1, s - {n - 1});
    }
  }
}
