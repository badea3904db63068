/**
 Iterating an object graph with an explicit stack, not looking below instances of a stop class.
 Nodes are object identities; an edge is an attribute, item or value. The graph may be cyclic.
 */
module DeepIter {
  import opened Graphs

  /** The graph without the edges that leave a stop instance. */
  function StopAt<T(==)>(g: Graph<T>, stop: set<T>): Graph<T> {
    map x | x in g && x !in stop :: g[x]
  }

  /** `y` can be met from `root` without passing through a stop instance. */
  ghost predicate Visible<T(!new)>(g: Graph<T>, stop: set<T>, root: T, y: T) {
    Reaches(StopAt(g, stop), root, y)
  }

  function Mentioned<T(==)>(g: Graph<T>, root: T): set<T> {
    (set x, y | x in g && y in g[x] :: y) + {root}
  }

  /** Everything on the stack or seen is visible, and what follows a seen node is on the stack or seen. */
  ghost predicate Searching<T(!new)>(g: Graph<T>, stop: set<T>, root: T, stack: seq<T>, seen: set<T>) {
    && (forall x :: x in stack || x in seen ==> x in Mentioned(g, root) && Visible(g, stop, root, x))
    && (root in stack || root in seen)
    && (forall x, y :: x in seen && Edge(StopAt(g, stop), x, y) ==> y in stack || y in seen)
  }

  lemma StartsSearching<T(!new)>(g: Graph<T>, stop: set<T>, root: T)
    ensures Searching(g, stop, root, [root], {})
  {
    ReachesSelf(StopAt(g, stop), root);
  }

  lemma PoppedSeen<T(!new)>(g: Graph<T>, stop: set<T>, root: T, stack: seq<T>, seen: set<T>)
    requires Searching(g, stop, root, stack, seen) && stack != [] && stack[|stack| - 1] in seen
    ensures Searching(g, stop, root, stack[..|stack| - 1], seen)
  {
    assert forall x :: x in stack ==> x in stack[..|stack| - 1] || x == stack[|stack| - 1];
  }

  lemma PoppedNew<T(!new)>(g: Graph<T>, stop: set<T>, root: T, stack: seq<T>, seen: set<T>, current: T,
                           children: seq<T>)
    requires Searching(g, stop, root, stack, seen) && stack != [] && current == stack[|stack| - 1]
    requires children == if current in g && current !in stop then g[current] else []
    ensures Searching(g, stop, root, stack[..|stack| - 1] + children, seen + {current})
  {
    var rest := stack[..|stack| - 1];
    assert forall x :: x in stack ==> x in rest || x == current;
    forall y | y in children ensures y in Mentioned(g, root) && Visible(g, stop, root, y) {
      assert Edge(StopAt(g, stop), current, y);
      ReachesStep(StopAt(g, stop), root, current, y);
    }
    forall x, y | x in seen + {current} && Edge(StopAt(g, stop), x, y)
      ensures y in rest + children || y in seen + {current}
    {
      if x in seen {
        assert y in stack || y in seen;
      }
    }
  }

  lemma SearchedAll<T(!new)>(g: Graph<T>, stop: set<T>, root: T, seen: set<T>, y: T)
    requires Searching(g, stop, root, [], seen)
    ensures y in seen <==> Visible(g, stop, root, y)
  {
    if Visible(g, stop, root, y) {
      ClosedSetHoldsReachable(StopAt(g, stop), seen, root, y);
    }
  }

  /** Yields each visible object exactly once, and nothing else, whatever cycles the graph has. */
  method DeepIter<T(==, !new)>(g: Graph<T>, root: T, stop: set<T>) returns (yielded: seq<T>)
    ensures NoDuplicates(yielded)
    ensures forall y :: y in yielded <==> Visible(g, stop, root, y)
  {
    var seen: set<T> := {};
    var stack := [root];
    yielded := [];
    StartsSearching(g, stop, root);
    while stack != []
      invariant Searching(g, stop, root, stack, seen)
      invariant NoDuplicates(yielded) && Elements(yielded) == seen && seen <= Mentioned(g, root)
      decreases |Mentioned(g, root) - seen|, |stack|
    {
      var current := stack[|stack| - 1];
      if current in seen {
        PoppedSeen(g, stop, root, stack, seen);
        stack := stack[..|stack| - 1];
        continue;
      }
      var children := if current in g && current !in stop then g[current] else [];
      PoppedNew(g, stop, root, stack, seen, current, children);
      RemainingShrinks(Mentioned(g, root), seen, current);
      AppendNew(yielded, current);
      stack := stack[..|stack| - 1] + children;
      seen := seen + {current};
      yielded := yielded + [current];
    }
    forall y ensures y in yielded <==> Visible(g, stop, root, y) {
      SearchedAll(g, stop, root, seen, y);
      assert y in yielded <==> y in Elements(yielded);
    }
  }

  lemma AppendNew<T>(xs: seq<T>, x: T)
    requires NoDuplicates(xs) && x !in xs
    ensures NoDuplicates(xs + [x]) && Elements(xs + [x]) == Elements(xs) + {x}
  {
  }

  // ------------------------------------------------------------------ find_all

  function Filtered<T(==)>(xs: seq<T>, keep: set<T>): seq<T> {
    if xs == [] then []
    else Filtered(xs[..|xs| - 1], keep) + if xs[|xs| - 1] in keep then [xs[|xs| - 1]] else []
  }

  lemma {:induction false} FilteredMembers<T>(xs: seq<T>, keep: set<T>)
    ensures forall x :: x in Filtered(xs, keep) <==> x in xs && x in keep
    ensures NoDuplicates(xs) ==> NoDuplicates(Filtered(xs, keep))
  {
    if xs != [] {
      var n := |xs| - 1;
      FilteredMembers(xs[..n], keep);
      assert xs == xs[..n] + [xs[n]];
      if NoDuplicates(xs) {
        assert xs[n] !in xs[..n];
      }
    }
  }

  /** The instances of the target class, each once, that no other instance hides. */
  method FindAll<T(==, !new)>(g: Graph<T>, base: T, targets: set<T>) returns (found: seq<T>)
    ensures NoDuplicates(found)
    ensures forall y :: y in found <==> y in targets && Visible(g, targets, base, y)
  {
    var objects := DeepIter(g, base, targets);
    FilteredMembers(objects, targets);
    found := Filtered(objects, targets);
  }

  /** "All instances of the target class found within the base object." */
  ghost predicate FindsAll<T(!new)>(g: Graph<T>, base: T, targets: set<T>) {
    forall y :: y in targets && Reaches(g, base, y) ==> Visible(g, targets, base, y)
  }

  lemma WalkUpTo<T(!new)>(g: Graph<T>, stop: set<T>, p: seq<T>, base: T)
    requires IsWalk(g, p) && p[0] == base
    requires forall i :: 0 <= i < |p| - 1 ==> p[i] !in stop
    ensures Visible(g, stop, base, p[|p| - 1])
  {
    assert forall i :: 0 <= i < |p| - 1 ==> Edge(StopAt(g, stop), p[i], p[i + 1]) by {
      assert forall i :: 0 <= i < |p| - 1 ==> Edge(g, p[i], p[i + 1]);
    }
    assert WalkBetween(StopAt(g, stop), p, base, p[|p| - 1]);
  }

  /** Targets that reach no target leave nothing hidden, so there the promise is kept. */
  lemma FlatTargetsAreAllFound<T(!new)>(g: Graph<T>, base: T, targets: set<T>)
    requires forall x, y :: x in targets && y in targets && x != y ==> !Reaches(g, x, y)
    ensures FindsAll(g, base, targets)
  {
    forall y | y in targets && Reaches(g, base, y) ensures Visible(g, targets, base, y) {
      var p :| WalkBetween(g, p, base, y);
      var k := FirstIn(p, targets);
      var head := p[..k + 1];
      assert IsWalk(g, head);
      WalkUpTo(g, targets, head, base);
      if p[k] != y {
        assert WalkBetween(g, p[k..], p[k], y);
        assert Reaches(g, p[k], y);
        assert false;
      }
    }
  }

  lemma {:induction false} FirstIn<T>(p: seq<T>, s: set<T>) returns (k: nat)
    requires p != [] && p[|p| - 1] in s
    ensures k < |p| && p[k] in s && forall i :: 0 <= i < k ==> p[i] !in s
  {
    if |p| > 1 && exists i :: 0 <= i < |p| - 1 && p[i] in s {
      var i :| 0 <= i < |p| - 1 && p[i] in s;
      k := FirstIn(p[..i + 1], s);
    } else {
      k := |p| - 1;
    }
  }

  /** A target is found exactly when some way to it meets no other target first. */
  lemma VisibleIff<T(!new)>(g: Graph<T>, base: T, targets: set<T>, y: T)
    ensures Visible(g, targets, base, y) <==>
              exists p :: WalkBetween(g, p, base, y) && forall i :: 0 <= i < |p| - 1 ==> p[i] !in targets
  {
    if Visible(g, targets, base, y) {
      var p :| WalkBetween(StopAt(g, targets), p, base, y);
      forall i | 0 <= i < |p| - 1 ensures Edge(g, p[i], p[i + 1]) && p[i] !in targets {
        assert Edge(StopAt(g, targets), p[i], p[i + 1]);
      }
      assert WalkBetween(g, p, base, y);
    }
    if p :| WalkBetween(g, p, base, y) && forall i :: 0 <= i < |p| - 1 ==> p[i] !in targets {
      WalkUpTo(g, targets, p, base);
    }
  }

  /** A target inside a target is missed: object 0 holds target 1, which holds target 2. */
  lemma NestedTargetIsMissed(g: Graph<int>, targets: set<int>)
    requires g == map[0 := [1], 1 := [2]] && targets == {1, 2}
    ensures Reaches(g, 0, 2) && !Visible(g, targets, 0, 2)
    ensures !FindsAll(g, 0, targets)
  {
    assert WalkBetween(g, [0, 1, 2], 0, 2);
    var pruned := StopAt(g, targets);
    if Visible(g, targets, 0, 2) {
      assert forall x, y :: x in {0, 1} && Edge(pruned, x, y) ==> y in {0, 1};
      ClosedSetHoldsReachable(pruned, {0, 1}, 0, 2);
      assert false;
    }
  }
}
