/**
 A level-by-level search in a graph of components, with membership decided by identity
 keys: what it keeps, why it ends, and what it has found when the frontier is empty.
 */
module LevelSearch {
  import opened Graphs
  import opened Multicast

  predicate Unseen(d: Comp, connected: seq<Comp>, frontier: seq<Comp>) {
    !InList(d, connected) && !InList(d, frontier)
  }

  function UnseenOf(list: seq<Comp>, connected: seq<Comp>, frontier: seq<Comp>): seq<Comp> {
    if list == [] then []
    else
      var d := list[|list| - 1];
      UnseenOf(list[..|list| - 1], connected, frontier) + if Unseen(d, connected, frontier) then [d] else []
  }

  lemma {:induction false} UnseenAppend(a: seq<Comp>, b: seq<Comp>, connected: seq<Comp>, frontier: seq<Comp>)
    ensures UnseenOf(a + b, connected, frontier) == UnseenOf(a, connected, frontier) + UnseenOf(b, connected, frontier)
  {
    if b == [] {
      assert a + b == a;
    } else {
      assert (a + b)[..|a + b| - 1] == a + b[..|b| - 1];
      UnseenAppend(a, b[..|b| - 1], connected, frontier);
    }
  }

  lemma {:induction false} UnseenMeaning(list: seq<Comp>, connected: seq<Comp>, frontier: seq<Comp>, d: Comp)
    ensures d in UnseenOf(list, connected, frontier) <==> d in list && Unseen(d, connected, frontier)
  {
    if list != [] {
      UnseenMeaning(list[..|list| - 1], connected, frontier, d);
      assert list == list[..|list| - 1] + [list[|list| - 1]];
    }
  }

  /** What expanding the components of `list` adds, given what is connected and on the frontier. */
  function LevelFrom(g: Graph<Comp>, list: seq<Comp>, connected: seq<Comp>, frontier: seq<Comp>): seq<Comp>
    requires forall c :: c in list ==> c in g
  {
    if list == [] then []
    else LevelFrom(g, list[..|list| - 1], connected, frontier) + UnseenOf(g[list[|list| - 1]], connected, frontier)
  }

  lemma LevelPrefix(g: Graph<Comp>, list: seq<Comp>, i: nat, connected: seq<Comp>, frontier: seq<Comp>)
    requires i < |list| && forall c :: c in list ==> c in g
    ensures LevelFrom(g, list[..i + 1], connected, frontier)
         == LevelFrom(g, list[..i], connected, frontier) + UnseenOf(g[list[i]], connected, frontier)
  {
    assert list[..i + 1][..i] == list[..i];
  }

  lemma {:induction false} LevelMeaning(g: Graph<Comp>, list: seq<Comp>, connected: seq<Comp>, frontier: seq<Comp>,
                                        d: Comp)
    requires forall c :: c in list ==> c in g
    ensures d in LevelFrom(g, list, connected, frontier)
            <==> Unseen(d, connected, frontier) && exists c :: c in list && Edge(g, c, d)
  {
    if list != [] {
      var n := |list| - 1;
      LevelMeaning(g, list[..n], connected, frontier, d);
      UnseenMeaning(g[list[n]], connected, frontier, d);
      assert list == list[..n] + [list[n]];
      assert Edge(g, list[n], d) <==> d in g[list[n]];
    }
  }

  lemma InListGrows(a: seq<Comp>, b: seq<Comp>)
    ensures forall d :: InList(d, a + b) <==> InList(d, a) || InList(d, b)
  {
    forall d ensures InList(d, a + b) <==> InList(d, a) || InList(d, b) {
      if InList(d, a) {
        var x :| x in a && Same(x, d);
        assert x in a + b;
      }
      if InList(d, b) {
        var x :| x in b && Same(x, d);
        assert x in a + b;
      }
    }
  }

  /**
   What the search keeps: everything found is reachable, everything connected has been
   expanded, and the frontier is new.
   */
  ghost predicate Exploring(g: Graph<Comp>, start: Comp, connected: seq<Comp>, frontier: seq<Comp>) {
    && start in connected
    && (forall c :: c in connected || c in frontier ==> c in g && Reaches(g, start, c))
    && (forall c, d :: c in connected && Edge(g, c, d) ==> InList(d, connected) || InList(d, frontier))
    && (forall c :: c in frontier ==> !InList(c, connected))
  }

  /** Every edge leads to a node of the graph. */
  ghost predicate Closed(g: Graph<Comp>) {
    forall c, d :: Edge(g, c, d) ==> d in g
  }

  lemma ExploringStarts(g: Graph<Comp>, start: Comp, frontier: seq<Comp>)
    requires Closed(g) && start in g
    requires forall d :: d in frontier ==> Edge(g, start, d) && !InList(d, [start])
    requires forall d :: Edge(g, start, d) ==> InList(d, [start]) || InList(d, frontier)
    ensures Exploring(g, start, [start], frontier)
  {
    ReachesSelf(g, start);
    forall c | c in frontier ensures Reaches(g, start, c) {
      ReachesStep(g, start, start, c);
    }
  }

  lemma ExploringContinues(g: Graph<Comp>, start: Comp, connected: seq<Comp>, frontier: seq<Comp>)
    requires Closed(g) && Exploring(g, start, connected, frontier)
    ensures Exploring(g, start, connected + frontier, LevelFrom(g, frontier, connected, frontier))
  {
    var next := LevelFrom(g, frontier, connected, frontier);
    InListGrows(connected, frontier);
    forall d | d in next
      ensures d in g && Reaches(g, start, d) && !InList(d, connected + frontier)
    {
      LevelMeaning(g, frontier, connected, frontier, d);
      var c :| c in frontier && Edge(g, c, d);
      ReachesStep(g, start, c, d);
    }
    forall c, d | c in connected + frontier && Edge(g, c, d)
      ensures InList(d, connected + frontier) || InList(d, next)
    {
      LevelMeaning(g, frontier, connected, frontier, d);
      if c in frontier && Unseen(d, connected, frontier) {
        assert d in next && Same(d, d);
      }
    }
  }

  ghost function Unexplored(g: Graph<Comp>, connected: seq<Comp>): set<Comp> {
    set c | c in g && !InList(c, connected)
  }

  lemma UnexploredShrinks(g: Graph<Comp>, start: Comp, connected: seq<Comp>, frontier: seq<Comp>)
    requires Exploring(g, start, connected, frontier) && frontier != []
    ensures Unexplored(g, connected + frontier) < Unexplored(g, connected)
  {
    InListGrows(connected, frontier);
    var c := frontier[0];
    assert c in frontier && Same(c, c);
    assert InList(c, frontier);
    assert c in Unexplored(g, connected) && c !in Unexplored(g, connected + frontier);
  }

  /** Distinct components have distinct identities. */
  ghost predicate DistinctKeys(g: Graph<Comp>) {
    forall a, b :: a in g && b in g && Same(a, b) ==> a == b
  }

  // ------------------------------------------------------------------ levels

  /** The components at most `k` steps from the start. */
  ghost function Ball(g: Graph<Comp>, start: Comp, k: nat): set<Comp> {
    if k == 0 then {start}
    else Ball(g, start, k - 1) + set c, d | c in Ball(g, start, k - 1) && c in g && d in g[c] :: d
  }

  /** After `k` levels the connected components are those within `k` steps, and the frontier those one further. */
  ghost predicate AtLevel(g: Graph<Comp>, start: Comp, connected: seq<Comp>, frontier: seq<Comp>, k: nat) {
    && Elements(connected) == Ball(g, start, k)
    && Elements(connected) + Elements(frontier) == Ball(g, start, k + 1)
  }

  lemma {:induction false} BallGrows(g: Graph<Comp>, start: Comp, k: nat, m: nat)
    requires k <= m
    ensures Ball(g, start, k) <= Ball(g, start, m)
    ensures Ball(g, start, k) == Ball(g, start, k + 1) ==> Ball(g, start, m) == Ball(g, start, k)
    decreases m
  {
    if k < m {
      BallGrows(g, start, k, m - 1);
    }
  }

  /**
   Whatever goes by the identity of a component within `k` steps of the start is within `k` steps as well, and
   nothing else goes by the identity of the start or of a component next to it.
   */
  ghost predicate NothingHidden(g: Graph<Comp>, start: Comp) {
    forall k: nat, c, d ::
        c in Ball(g, start, k) && Reaches(g, start, d) && c != d && Same(c, d) ==> k >= 2 && d in Ball(g, start, k)
  }

  /** So far as the components within `k` steps go. */
  ghost predicate NothingHiddenWithin(g: Graph<Comp>, start: Comp, k: nat) {
    forall m: nat, c, d ::
        m <= k && c in Ball(g, start, m) && d in Ball(g, start, k) && c != d && Same(c, d) ==>
            m >= 2 && d in Ball(g, start, m)
  }

  ghost predicate Exact(g: Graph<Comp>, start: Comp, connected: seq<Comp>, frontier: seq<Comp>, k: nat) {
    AtLevel(g, start, connected, frontier, k) && NothingHiddenWithin(g, start, k + 1)
  }

  /** Some reachable component has not been found, but another one of its identity has. */
  ghost predicate Misses(g: Graph<Comp>, start: Comp, found: seq<Comp>) {
    !NothingHidden(g, start) && exists d :: Reaches(g, start, d) && d !in found && InList(d, found)
  }

  /** It will not be found any more. */
  lemma MissesForGood(g: Graph<Comp>, start: Comp, connected: seq<Comp>, frontier: seq<Comp>)
    requires Misses(g, start, connected + frontier) && forall c :: c in frontier ==> c in g
    ensures Misses(g, start, connected + frontier + LevelFrom(g, frontier, connected, frontier))
  {
    var found, next := connected + frontier, LevelFrom(g, frontier, connected, frontier);
    var d :| Reaches(g, start, d) && d !in found && InList(d, found);
    LevelMeaning(g, frontier, connected, frontier, d);
    InListGrows(connected, frontier);
    InListGrows(found, next);
    assert d !in found + next && InList(d, found + next);
  }

  /** A component that is met under an identity found earlier is missed. */
  lemma LaterNamesakeIsMissed(g: Graph<Comp>, start: Comp, found: seq<Comp>, k: nat, d: Comp)
    requires Elements(found) == Ball(g, start, k) && Reaches(g, start, d) && d !in found && InList(d, found)
    ensures Misses(g, start, found)
  {
    var c :| c in found && Same(c, d);
    assert c in Elements(found) && d !in Elements(found);
    assert c in Ball(g, start, k) && d !in Ball(g, start, k);
  }

  lemma NextIsUnseenOrMissed(g: Graph<Comp>, start: Comp, connected: seq<Comp>, frontier: seq<Comp>, k: nat, d: Comp)
    requires Exploring(g, start, connected, frontier) && AtLevel(g, start, connected, frontier, k)
    requires d in Ball(g, start, k + 2) && d !in connected + frontier
    ensures Misses(g, start, connected + frontier) || d in LevelFrom(g, frontier, connected, frontier)
    ensures !Misses(g, start, connected + frontier) ==> !InList(d, connected + frontier)
  {
    var found := connected + frontier;
    assert Elements(found) == Elements(connected) + Elements(frontier);
    assert d !in Ball(g, start, k + 1) by {
      assert d !in Elements(found);
    }
    var c :| c in Ball(g, start, k + 1) && c in g && d in g[c];
    assert c in Elements(found) && Edge(g, c, d);
    ReachesStep(g, start, c, d);
    InListGrows(connected, frontier);
    if InList(d, found) {
      LaterNamesakeIsMissed(g, start, found, k + 1, d);
    } else {
      assert c in frontier;
      LevelMeaning(g, frontier, connected, frontier, d);
    }
  }

  /** One more level is exact as well, or something is missed for good. */
  lemma LevelStep(g: Graph<Comp>, start: Comp, connected: seq<Comp>, frontier: seq<Comp>, k: nat)
    requires Closed(g) && Exploring(g, start, connected, frontier) && Exact(g, start, connected, frontier, k)
    ensures Exact(g, start, connected + frontier, LevelFrom(g, frontier, connected, frontier), k + 1)
            || Misses(g, start, connected + frontier + LevelFrom(g, frontier, connected, frontier))
  {
    var next, found := LevelFrom(g, frontier, connected, frontier), connected + frontier;
    if Misses(g, start, found) {
      MissesForGood(g, start, connected, frontier);
    } else {
      forall d | d in Ball(g, start, k + 2) && d !in found ensures d in next && !InList(d, found) {
        NextIsUnseenOrMissed(g, start, connected, frontier, k, d);
      }
      assert Elements(found) == Elements(connected) + Elements(frontier);
      NextLevelIsExact(g, start, connected, frontier, next, k);
      WithinNextLevel(g, start, found, k);
    }
  }

  lemma NextLevelIsExact(g: Graph<Comp>, start: Comp, connected: seq<Comp>, frontier: seq<Comp>, next: seq<Comp>,
                         k: nat)
    requires Exploring(g, start, connected, frontier) && Elements(connected + frontier) == Ball(g, start, k + 1)
    requires next == LevelFrom(g, frontier, connected, frontier)
    requires forall d :: d in Ball(g, start, k + 2) && d !in connected + frontier ==> d in next
    ensures AtLevel(g, start, connected + frontier, next, k + 1)
  {
    var found := connected + frontier;
    forall d | d in next ensures d in Ball(g, start, k + 2) {
      LevelMeaning(g, frontier, connected, frontier, d);
      var c :| c in frontier && Edge(g, c, d);
      assert c in Elements(found);
    }
    BallGrows(g, start, k + 1, k + 2);
    assert Elements(found) + Elements(next) == Ball(g, start, k + 2);
  }

  lemma WithinNextLevel(g: Graph<Comp>, start: Comp, found: seq<Comp>, k: nat)
    requires NothingHiddenWithin(g, start, k + 1) && Elements(found) == Ball(g, start, k + 1)
    requires forall d :: d in Ball(g, start, k + 2) && d !in found ==> !InList(d, found)
    ensures NothingHiddenWithin(g, start, k + 2)
  {
    forall m: nat, c, d | m <= k + 2 && c in Ball(g, start, m) && d in Ball(g, start, k + 2) && c != d && Same(c, d)
      ensures m >= 2 && d in Ball(g, start, m)
    {
      PairWithin(g, start, found, k, m, c, d);
    }
  }

  lemma PairWithin(g: Graph<Comp>, start: Comp, found: seq<Comp>, k: nat, m: nat, c: Comp, d: Comp)
    requires NothingHiddenWithin(g, start, k + 1) && Elements(found) == Ball(g, start, k + 1)
    requires forall d :: d in Ball(g, start, k + 2) && d !in found ==> !InList(d, found)
    requires m <= k + 2 && c in Ball(g, start, m) && d in Ball(g, start, k + 2) && c != d && Same(c, d)
    ensures m >= 2 && d in Ball(g, start, m)
  {
    hide Ball;
    if m <= k + 1 {
      BallGrows(g, start, m, k + 1);
      assert c in Elements(found);
      assert InList(d, found);
      assert d in Elements(found);
    }
  }

  lemma FirstLevel(g: Graph<Comp>, start: Comp, frontier: seq<Comp>)
    requires start in g && forall d :: d in frontier ==> Edge(g, start, d)
    requires forall d :: Edge(g, start, d) ==> d in [start] + frontier
    ensures Elements([start]) == Ball(g, start, 0) && Elements([start]) + Elements(frontier) == Ball(g, start, 1)
  {
    assert Ball(g, start, 0) == {start};
    forall d ensures d in Ball(g, start, 1) <==> d == start || d in frontier {
      assert d in Ball(g, start, 1) <==> d == start || Edge(g, start, d);
    }
  }

  lemma StartIsExact(g: Graph<Comp>, start: Comp, frontier: seq<Comp>)
    requires start in g && Exploring(g, start, [start], frontier)
    requires forall d :: d in frontier ==> Edge(g, start, d)
    requires forall c, d :: c in frontier && d in frontier && Same(c, d) ==> c == d
    ensures Exact(g, start, [start], frontier, 0) || Misses(g, start, [start] + frontier)
  {
    var found := [start] + frontier;
    InListGrows([start], frontier);
    assert Ball(g, start, 0) == {start};
    if d :| Edge(g, start, d) && d !in found {
      var c :| c in found && Same(c, d);
      assert c in Ball(g, start, 1);
      ReachesSelf(g, start);
      ReachesStep(g, start, start, d);
      assert InList(d, found) && !NothingHidden(g, start);
    } else {
      FirstLevel(g, start, frontier);
      assert forall c :: c in frontier ==> !Same(start, c) && !Same(c, start) by {
        forall c | c in frontier ensures !Same(start, c) && !Same(c, start) {
          assert start in [start] && !InList(c, [start]);
        }
      }
    }
  }

  /** When the frontier is empty, everything reachable has been found if and only if nothing is hidden. */
  lemma ExploringEnds(g: Graph<Comp>, start: Comp, connected: seq<Comp>, k: nat)
    requires Closed(g) && Exploring(g, start, connected, [])
    requires Exact(g, start, connected, [], k) || Misses(g, start, connected + [])
    ensures (forall c :: Reaches(g, start, c) ==> c in connected) <==> NothingHidden(g, start)
  {
    assert connected + [] == connected;
    if !Misses(g, start, connected) {
      assert Elements<Comp>([]) == {};
      forall c, d | c in Elements(connected) && Edge(g, c, d) ensures d in Elements(connected) {
        assert d in Ball(g, start, k + 1);
      }
      forall c | Reaches(g, start, c) ensures c in connected {
        ClosedSetHoldsReachable(g, Elements(connected), start, c);
      }
      forall m: nat, c, d | c in Ball(g, start, m) && Reaches(g, start, d) && c != d && Same(c, d) ensures m >= 2
        && d in Ball(g, start, m) {
        assert d in Ball(g, start, k);
        if m > k + 1 {
          BallGrows(g, start, k, m);
        }
      }
    }
  }

  lemma {:induction false} BallInGraph(g: Graph<Comp>, start: Comp, k: nat)
    requires Closed(g) && start in g
    ensures forall c :: c in Ball(g, start, k) ==> c in g
  {
    if k > 0 {
      BallInGraph(g, start, k - 1);
      forall c | c in Ball(g, start, k) ensures c in g {
        if c !in Ball(g, start, k - 1) {
          var b :| b in Ball(g, start, k - 1) && b in g && c in g[b];
          assert Edge(g, b, c);
        }
      }
    }
  }

  lemma DistinctKeysHideNothing(g: Graph<Comp>, start: Comp)
    requires Closed(g) && start in g && DistinctKeys(g)
    ensures NothingHidden(g, start)
  {
    forall k: nat, c, d | c in Ball(g, start, k) && Reaches(g, start, d) && c != d && Same(c, d) ensures false {
      BallInGraph(g, start, k);
      ClosedSetHoldsReachable(g, g.Keys, start, d);
    }
  }
}
