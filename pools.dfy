/** The candidate pool of one lexicase slot: a boolean mask over the N individuals. */
module Pools {

  /** The mask holding every one of n individuals (`np.ones(n, dtype=bool)`). */
  function Full(n: nat): (p: seq<bool>)
    ensures |p| == n && forall i :: 0 <= i < n ==> p[i]
    ensures n > 0 ==> true in p
  {
    var p := seq(n, _ => true);
    assert n > 0 ==> p[0];
    p
  }

  /** Every member of p is a member of q (masks over the same population). */
  predicate Subset(p: seq<bool>, q: seq<bool>) {
    |p| == |q| && forall i :: 0 <= i < |p| && p[i] ==> q[i]
  }

  /** The number of members of a pool (`np.sum(pool)`). */
  function Count(p: seq<bool>): (c: nat)
    ensures c <= |p|
    ensures c == 0 <==> true !in p
  {
    if p == [] then 0
    else
      assert p == p[..|p| - 1] + [p[|p| - 1]];
      Count(p[..|p| - 1]) + (if p[|p| - 1] then 1 else 0)
  }

  /** The members of a pool in ascending order (`np.nonzero(pool)[0]`). */
  function Survivors(p: seq<bool>): (r: seq<nat>)
    ensures |r| == Count(p)
    ensures forall k :: 0 <= k < |r| ==> r[k] < |p| && p[r[k]]
    ensures forall i {:trigger i in r} :: 0 <= i < |p| && p[i] ==> i in r
  {
    if p == [] then []
    else
      var last := |p| - 1;
      var prefix := Survivors(p[..last]);
      var tail := if p[last] then [last] else [];
      var r := prefix + tail;
      assert Count(p) == Count(p[..last]) + |tail|;
      assert forall k :: 0 <= k < |prefix| ==> r[k] == prefix[k] && prefix[k] < last && p[prefix[k]];
      assert forall k :: |prefix| <= k < |r| ==> r[k] == last && p[last];
      assert forall i :: 0 <= i < last && p[i] ==> p[..last][i] && i in prefix && i in r;
      assert p[last] ==> r[|r| - 1] == last && last in r;
      r
  }

  /** The members are listed in strictly ascending order, each once. */
  lemma {:induction false} SurvivorsAscending(p: seq<bool>)
    ensures forall a, b :: 0 <= a < b < |Survivors(p)| ==> Survivors(p)[a] < Survivors(p)[b]
  {
    if p != [] {
      var last := |p| - 1;
      SurvivorsAscending(p[..last]);
      var prefix := Survivors(p[..last]);
      assert Survivors(p) == prefix + (if p[last] then [last] else []);
    }
  }

  /** The largest score among the members of a non-empty pool (`np.max(col[pool])`). */
  function PoolMax(col: seq<real>, p: seq<bool>): (best: real)
    requires |col| == |p| && true in p
    ensures exists i :: 0 <= i < |p| && p[i] && col[i] == best
    ensures forall i :: 0 <= i < |p| && p[i] ==> col[i] <= best
  {
    var last := |p| - 1;
    assert p == p[..last] + [p[last]];
    if true !in p[..last] then col[last]
    else
      var m := PoolMax(col[..last], p[..last]);
      if p[last] && col[last] > m then col[last] else m
  }

  /** The members of p whose score reaches the threshold
      (`np.logical_and(pool, col >= threshold)`). */
  function Filter(p: seq<bool>, col: seq<real>, threshold: real): (q: seq<bool>)
    requires |col| == |p|
    ensures |q| == |p| && forall i :: 0 <= i < |p| ==> q[i] == (p[i] && col[i] >= threshold)
  {
    seq(|p|, i requires 0 <= i < |p| => p[i] && col[i] >= threshold)
  }

  /** A pool with one member names exactly that member. */
  lemma SingleMember(p: seq<bool>, d: nat)
    requires d < |p| && p[d] && Count(p) == 1
    ensures Survivors(p) == [d]
    ensures forall i :: 0 <= i < |p| && p[i] ==> i == d
  {
    var r := Survivors(p);
    assert |r| == 1 && d in r;
    assert r == [d];
    forall i | 0 <= i < |p| && p[i]
      ensures i == d
    {
      assert i in r;
    }
  }

  /** A pool whose only member is d has size one. */
  lemma OnlyMember(p: seq<bool>, d: nat)
    requires d < |p| && p[d]
    requires forall i :: 0 <= i < |p| && p[i] ==> i == d
    ensures Count(p) == 1
  {
    var r := Survivors(p);
    SurvivorsAscending(p);
    assert d in r;
  }
}
