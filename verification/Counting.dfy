// Sequences of distinct numbers below a bound.
module Counting {
  ghost predicate Distinct(list: seq<nat>) { forall j, k :: 0 <= j < k < |list| ==> list[j] != list[k] }

  ghost function UpTo(n: nat): (s: set<nat>)
    ensures |s| == n && forall i: nat :: i in s <==> i < n
  {
    if n == 0 then {} else UpTo(n - 1) + {n - 1}
  }

  ghost function Elements(list: seq<nat>): (s: set<nat>)
    ensures forall i :: i in s <==> i in list
  {
    if list == [] then {}
    else
      var n := |list| - 1;
      assert list == list[..n] + [list[n]];
      Elements(list[..n]) + {list[n]}
  }

  lemma {:induction false} CountDistinct(list: seq<nat>)
    requires Distinct(list)
    ensures |Elements(list)| == |list|
  {
    if list != [] {
      var n := |list| - 1;
      CountDistinct(list[..n]);
      assert list[n] !in list[..n];
    }
  }

  lemma {:induction false} SubsetSize(a: set<nat>, b: set<nat>)
    requires a <= b
    ensures |a| <= |b|
  {
    if a != {} {
      var x :| x in a;
      SubsetSize(a - {x}, b - {x});
    }
  }

  // There is room for at most n of them, and all numbers below n occur exactly when there are n.
  lemma Pigeonhole(list: seq<nat>, n: nat)
    requires Distinct(list) && forall k :: 0 <= k < |list| ==> list[k] < n
    ensures |list| <= n
    ensures |list| == n <==> forall i: nat :: i < n ==> i in list
  {
    CountDistinct(list);
    var taken := Elements(list);
    SubsetSize(taken, UpTo(n));
    if i: nat :| i < n && i !in list {
      SubsetSize(taken, UpTo(n) - {i});
    } else {
      assert taken == UpTo(n);
    }
  }
}
