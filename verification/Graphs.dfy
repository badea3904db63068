/**
 Walks in a finite directed graph, given by an adjacency map. Shared by every module
 whose source code searches a graph: forwarders, multicast paths, model dependencies,
 object graphs.
 */
module Graphs {

  type Graph<T> = map<T, seq<T>>

  predicate Edge<T(==)>(g: Graph<T>, a: T, b: T) {
    a in g && b in g[a]
  }

  /** A non-empty node sequence in which every consecutive pair is an edge. */
  ghost predicate IsWalk<T>(g: Graph<T>, p: seq<T>) {
    && |p| > 0
    && forall i :: 0 <= i < |p| - 1 ==> Edge(g, p[i], p[i + 1])
  }

  ghost predicate WalkBetween<T>(g: Graph<T>, p: seq<T>, a: T, b: T) {
    IsWalk(g, p) && p[0] == a && p[|p| - 1] == b
  }

  ghost predicate Reaches<T(!new)>(g: Graph<T>, a: T, b: T) {
    exists p :: WalkBetween(g, p, a, b)
  }

  predicate NoDuplicates<T(==)>(p: seq<T>) {
    forall i, j :: 0 <= i < j < |p| ==> p[i] != p[j]
  }

  /** A closed walk of at least one edge; a self-loop counts. */
  ghost predicate IsClosedWalk<T>(g: Graph<T>, p: seq<T>) {
    IsWalk(g, p) && |p| >= 2 && p[0] == p[|p| - 1]
  }

  ghost predicate Acyclic<T(!new)>(g: Graph<T>) {
    forall p :: !IsClosedWalk(g, p)
  }

  /** A closed walk that visits no node twice, apart from closing up. */
  ghost predicate IsSimpleCycle<T>(g: Graph<T>, p: seq<T>) {
    IsClosedWalk(g, p) && NoDuplicates(p[..|p| - 1])
  }

  // ------------------------------------------------------------------ sets and sequences

  function Elements<T(==)>(p: seq<T>): set<T> {
    set x | x in p
  }

  lemma {:induction false} NoDuplicatesCardinality<T>(p: seq<T>)
    requires NoDuplicates(p)
    ensures |Elements(p)| == |p|
  {
    if p == [] {
      assert Elements(p) == {};
    } else {
      var rest := p[..|p| - 1];
      NoDuplicatesCardinality(rest);
      assert Elements(p) == Elements(rest) + {p[|p| - 1]};
      assert p[|p| - 1] !in Elements(rest);
    }
  }

  lemma SubsetCardinality<T>(a: set<T>, b: set<T>)
    requires a <= b
    ensures |a| <= |b|
  {
    assert b == a + (b - a);
    assert |b| == |a| + |b - a|;
  }

  /** One more member taken out of a set. */
  lemma RemainingShrinks<T>(all: set<T>, seen: set<T>, x: T)
    requires x in all && x !in seen
    ensures |all - (seen + {x})| < |all - seen|
  {
    assert all - seen == (all - (seen + {x})) + {x};
  }

  lemma NoDuplicatesBound<T>(p: seq<T>, s: set<T>)
    requires NoDuplicates(p) && forall x :: x in p ==> x in s
    ensures |p| <= |s|
  {
    NoDuplicatesCardinality(p);
    SubsetCardinality(Elements(p), s);
  }

  // ------------------------------------------------------------------ walks

  /** In an acyclic graph no walk repeats a node, so a walk inside `nodes` is no longer than `nodes`. */
  lemma AcyclicWalksAreBounded<T(!new)>(g: Graph<T>, p: seq<T>, nodes: set<T>)
    requires Acyclic(g) && IsWalk(g, p) && forall x :: x in p ==> x in nodes
    ensures NoDuplicates(p) && |p| <= |nodes|
  {
    forall i, j | 0 <= i < j < |p|
      ensures p[i] != p[j]
    {
      var q := p[i..j + 1];
      if p[i] == p[j] {
        assert IsClosedWalk(g, q);
      }
    }
    NoDuplicatesBound(p, nodes);
  }

  /** A numbering that drops along every edge leaves no room for a closed walk. */
  lemma RankedIsAcyclic<T(!new)>(g: Graph<T>, rank: map<T, nat>)
    requires forall a, b :: Edge(g, a, b) ==> a in rank && b in rank && rank[b] < rank[a]
    ensures Acyclic(g)
  {
    forall p | IsClosedWalk(g, p)
      ensures false
    {
      assert Edge(g, p[0], p[1]);
      RankDrops(g, rank, p, |p| - 1);
    }
  }

  lemma {:induction false} RankDrops<T(!new)>(g: Graph<T>, rank: map<T, nat>, p: seq<T>, k: nat)
    requires forall a, b :: Edge(g, a, b) ==> a in rank && b in rank && rank[b] < rank[a]
    requires IsWalk(g, p) && 0 < k < |p|
    ensures p[0] in rank && p[k] in rank && rank[p[k]] < rank[p[0]]
  {
    assert Edge(g, p[k - 1], p[k]);
    if k > 1 {
      RankDrops(g, rank, p, k - 1);
    }
  }

  lemma ReachesSelf<T(!new)>(g: Graph<T>, a: T)
    ensures Reaches(g, a, a)
  {
    assert WalkBetween(g, [a], a, a);
  }

  lemma ReachesStep<T(!new)>(g: Graph<T>, a: T, b: T, c: T)
    requires Reaches(g, a, b) && Edge(g, b, c)
    ensures Reaches(g, a, c)
  {
    var p :| WalkBetween(g, p, a, b);
    assert WalkBetween(g, p + [c], a, c);
  }

  /** A set that holds the source and is closed under edges holds everything reachable. */
  lemma ClosedSetHoldsReachable<T(!new)>(g: Graph<T>, s: set<T>, a: T, b: T)
    requires a in s && (forall x, y :: x in s && Edge(g, x, y) ==> y in s)
    requires Reaches(g, a, b)
    ensures b in s
  {
    var p :| WalkBetween(g, p, a, b);
    WalkStaysIn(g, s, p, |p| - 1);
  }

  lemma {:induction false} WalkStaysIn<T(!new)>(g: Graph<T>, s: set<T>, p: seq<T>, k: nat)
    requires IsWalk(g, p) && k < |p| && p[0] in s
    requires forall x, y :: x in s && Edge(g, x, y) ==> y in s
    ensures p[k] in s
  {
    if k > 0 {
      WalkStaysIn(g, s, p, k - 1);
      assert Edge(g, p[k - 1], p[k]);
    }
  }
}
