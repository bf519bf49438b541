/** Walks in a finite graph: nodes `0..n` and a set of edges. */
module Walks {
  type Edges = set<(nat, nat)>

  ghost predicate IsWalk(e: Edges, p: seq<nat>) {
    p != [] && forall k :: 0 <= k < |p| - 1 ==> (p[k], p[k + 1]) in e
  }

  /** A walk of at least one edge. */
  ghost predicate Joins(e: Edges, p: seq<nat>, i: nat, j: nat) {
    IsWalk(e, p) && |p| >= 2 && p[0] == i && p[|p| - 1] == j
  }

  ghost predicate Reaches(e: Edges, i: nat, j: nat) {
    exists p :: Joins(e, p, i, j)
  }

  ghost predicate Acyclic(e: Edges) {
    forall i :: !Reaches(e, i, i)
  }

  ghost predicate Within(e: Edges, n: nat) {
    forall i, j :: (i, j) in e ==> i < n && j < n
  }

  lemma EdgeReaches(e: Edges, i: nat, j: nat)
    requires (i, j) in e
    ensures Reaches(e, i, j)
  {
    assert Joins(e, [i, j], i, j);
  }

  lemma ReachesJoin(e: Edges, i: nat, j: nat, k: nat)
    requires Reaches(e, i, j) && Reaches(e, j, k)
    ensures Reaches(e, i, k)
  {
    var p :| Joins(e, p, i, j);
    var q :| Joins(e, q, j, k);
    var r := p + q[1..];
    forall t | 0 <= t < |r| - 1 ensures (r[t], r[t + 1]) in e {
      if t >= |p| - 1 {
        assert (q[t - |p| + 1], q[t - |p| + 2]) in e;
      }
    }
    assert Joins(e, r, i, k);
  }

  lemma WalkReaches(e: Edges, p: seq<nat>, a: nat, b: nat)
    requires IsWalk(e, p) && a < b < |p|
    ensures Reaches(e, p[a], p[b])
  {
    var q := p[a..b + 1];
    forall t | 0 <= t < |q| - 1 ensures (q[t], q[t + 1]) in e {
      assert (p[a + t], p[a + t + 1]) in e;
    }
    assert Joins(e, q, p[a], p[b]);
  }

  function Upto(n: nat): (s: set<nat>)
    ensures |s| == n && forall i: nat :: i in s <==> i < n
  {
    if n == 0 then {} else Upto(n - 1) + {n - 1}
  }

  lemma SubsetSize(a: set<nat>, b: set<nat>)
    requires a <= b
    ensures |a| <= |b| && (|a| == |b| ==> a == b)
  {
    assert b == a + (b - a);
  }

  function Elements(p: seq<nat>): (s: set<nat>)
    ensures forall x :: x in s <==> x in p
  {
    if p == [] then {} else Elements(p[..|p| - 1]) + {p[|p| - 1]}
  }

  lemma {:induction false} DistinctSize(p: seq<nat>)
    requires forall i, j :: 0 <= i < j < |p| ==> p[i] != p[j]
    ensures |Elements(p)| == |p|
  {
    if p == [] {
    } else {
      DistinctSize(p[..|p| - 1]);
    }
  }

  /** More places than nodes: some node is visited twice. */
  lemma Pigeonhole(p: seq<nat>, n: nat) returns (i: nat, j: nat)
    requires |p| > n && forall x :: x in p ==> x < n
    ensures i < j < |p| && p[i] == p[j]
  {
    if forall i, j :: 0 <= i < j < |p| ==> p[i] != p[j] {
      DistinctSize(p);
      SubsetSize(Elements(p), Upto(n));
      assert false;
    }
    i, j :| 0 <= i < j < |p| && p[i] == p[j];
  }

  /** As many distinct places as nodes: every node is visited. */
  lemma DistinctFills(p: seq<nat>, n: nat)
    requires |p| == n && (forall x :: x in p ==> x < n)
    requires forall i, j :: 0 <= i < j < |p| ==> p[i] != p[j]
    ensures forall i: nat :: i < n ==> i in p
  {
    DistinctSize(p);
    SubsetSize(Elements(p), Upto(n));
  }

  ghost predicate HasNext(e: Edges, stuck: set<nat>, i: nat) {
    exists j :: j in stuck && (i, j) in e
  }

  /** From a set whose every node has an edge into the set, a walk of any length. */
  lemma {:induction false} LongWalk(e: Edges, stuck: set<nat>, start: nat, len: nat) returns (p: seq<nat>)
    requires start in stuck && forall i :: i in stuck ==> HasNext(e, stuck, i)
    ensures |p| == len + 1 && p[0] == start && IsWalk(e, p) && forall x :: x in p ==> x in stuck
  {
    if len == 0 {
      p := [start];
    } else {
      var q := LongWalk(e, stuck, start, len - 1);
      var last := q[|q| - 1];
      assert last in q && HasNext(e, stuck, last);
      var next: nat :| next in stuck && (last, next) in e;
      p := q + [next];
    }
  }

  /** `i` is on a cycle or leads to one. */
  ghost predicate LeadsToCycle(e: Edges, i: nat) {
    exists j :: (i == j || Reaches(e, i, j)) && Reaches(e, j, j)
  }

  lemma StuckLeadsToCycle(e: Edges, n: nat, stuck: set<nat>, start: nat)
    requires start in stuck && forall i :: i in stuck ==> i < n && HasNext(e, stuck, i)
    ensures LeadsToCycle(e, start)
  {
    var p := LongWalk(e, stuck, start, n);
    var i, j := Pigeonhole(p, n);
    WalkReaches(e, p, i, j);
    if i > 0 {
      WalkReaches(e, p, 0, i);
    }
  }

  /** An order in which every edge points back is a proof that there is no cycle. */
  lemma OrderedIsAcyclic(e: Edges, n: nat, order: seq<nat>)
    requires Within(e, n) && Points(e, order)
    requires forall i: nat :: i < n ==> i in order
    ensures Acyclic(e)
  {
    forall i ensures !Reaches(e, i, i) {
      if Reaches(e, i, i) {
        var p :| Joins(e, p, i, i);
        assert (p[0], p[1]) in e && i in order;
        var at :| 0 <= at < |order| && order[at] == i;
        WalkFalls(e, order, p, at);
        assert false;
      }
    }
  }

  /** Distinct nodes, each edge from one of them leading to an earlier one. */
  ghost predicate Points(e: Edges, order: seq<nat>) {
    && (forall a, b :: 0 <= a < b < |order| ==> order[a] != order[b])
    && (forall a, j :: 0 <= a < |order| && (order[a], j) in e ==> j in order[..a])
  }

  lemma {:induction false} WalkFalls(e: Edges, order: seq<nat>, p: seq<nat>, at: nat)
    requires Points(e, order) && IsWalk(e, p) && |p| >= 2
    requires at < |order| && order[at] == p[0]
    ensures p[|p| - 1] in order[..at]
    decreases |p|
  {
    assert (p[0], p[1]) in e;
    var next :| 0 <= next < at && order[..at][next] == p[1];
    if |p| <= 2 {
    } else {
      assert IsWalk(e, p[1..]) by {
        forall k | 0 <= k < |p| - 2 ensures (p[1..][k], p[1..][k + 1]) in e {
          assert (p[k + 1], p[k + 2]) in e;
        }
      }
      WalkFalls(e, order, p[1..], next);
    }
  }
}
