/**
 Facts about finite sets of integer keys: the largest key (SQL `MAX`) and the
 keys in ascending order (SQL `ORDER BY`).
 */
module Ids {

  /** A set is empty or has an element. */
  lemma EmptyOrInhabited(ids: set<int>)
    ensures ids == {} || exists x :: x in ids
  {
    if forall x :: x !in ids {
      assert ids == {};
    }
  }

  /** Every non-empty finite set of integers has a largest element. */
  lemma {:induction false} MaxExists(ids: set<int>)
    requires ids != {}
    ensures exists m :: m in ids && forall i | i in ids :: i <= m
    decreases |ids|
  {
    EmptyOrInhabited(ids);
    var x :| x in ids;
    var rest := ids - {x};
    if rest == {} {
      forall i | i in ids
        ensures i <= x
      {
        assert i !in rest;
      }
    } else {
      MaxExists(rest);
      var m :| m in rest && forall i | i in rest :: i <= m;
      var top := if x <= m then m else x;
      forall i | i in ids
        ensures i <= top
      {
        if i != x {
          assert i in rest;
        }
      }
      assert top in ids;
    }
  }

  /** The largest key of a non-empty key set. */
  function MaxId(ids: set<int>): (m: int)
    requires ids != {}
    ensures m in ids
    ensures forall i | i in ids :: i <= m
  {
    MaxExists(ids);
    var m :| m in ids && (forall i | i in ids :: i <= m);
    m
  }

  /** Strictly increasing, hence also free of duplicates. */
  predicate Ascending(xs: seq<int>)
  {
    forall i, j | 0 <= i < j < |xs| :: xs[i] < xs[j]
  }

  /** The keys of `ids` in ascending order, each exactly once. */
  function SortedIds(ids: set<int>): (r: seq<int>)
    ensures Ascending(r)
    ensures forall x :: x in r <==> x in ids
    ensures |r| == |ids|
    decreases |ids|
  {
    if ids == {} then []
    else
      var m := MaxId(ids);
      SortedIds(ids - {m}) + [m]
  }

  /** An ascending sequence is determined by the set of its elements. */
  lemma {:induction false} AscendingUnique(a: seq<int>, b: seq<int>)
    requires Ascending(a) && Ascending(b)
    requires forall x :: x in a <==> x in b
    ensures a == b
    decreases |a|
  {
    assert |a| > 0 ==> a[0] in a && a[0] in b;
    assert |b| > 0 ==> b[0] in b && b[0] in a;
    if a != [] {
      var ka :| 0 <= ka < |a| && a[ka] == b[0];
      assert a[0] <= a[ka];
      var kb :| 0 <= kb < |b| && b[kb] == a[0];
      assert b[0] <= b[kb];
      assert a[0] == b[0];
      forall x
        ensures x in a[1..] <==> x in b[1..]
      {
        if x in a[1..] {
          var k :| 1 <= k < |a| && a[k] == x;
          assert a[0] < x;
          assert x in b && x != b[0];
        }
        if x in b[1..] {
          var k :| 1 <= k < |b| && b[k] == x;
          assert b[0] < x;
          assert x in a && x != a[0];
        }
      }
      AscendingUnique(a[1..], b[1..]);
      assert a == [a[0]] + a[1..];
      assert b == [b[0]] + b[1..];
    }
  }

  /** Dropping one position of an ascending sequence leaves an ascending sequence. */
  lemma RemoveAtAscending(xs: seq<int>, k: nat)
    requires Ascending(xs) && k < |xs|
    ensures Ascending(xs[..k] + xs[k + 1..])
    ensures forall x :: x in xs[..k] + xs[k + 1..] <==> x in xs && x != xs[k]
  {
    var ys := xs[..k] + xs[k + 1..];
    assert forall i | 0 <= i < |ys| :: ys[i] == (if i < k then xs[i] else xs[i + 1]);
    forall x
      ensures x in ys <==> x in xs && x != xs[k]
    {
      if x in xs && x != xs[k] {
        var j :| 0 <= j < |xs| && xs[j] == x;
        assert j != k;
        if j < k { assert ys[j] == x; } else { assert ys[j - 1] == x; }
      }
    }
  }
}
