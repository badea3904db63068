/**
 Three-colour depth-first search over the resolved forwarder graph.

 The search either finishes with every forwarder coloured black, or stops at the first
 edge into a grey forwarder and rebuilds the loop from the parent map.
 */
module DepthFirst {
  import opened Graphs

  datatype Color = White | Gray | Black

  ghost predicate ParentChain<T>(g: Graph<T>, parent: map<T, T>, stack: seq<T>) {
    forall i :: 0 < i < |stack| ==>
      Edge(g, stack[i - 1], stack[i]) && stack[i] in parent && parent[stack[i]] == stack[i - 1]
  }

  /**
   The state of a search whose call stack is `stack` and whose black nodes were finished
   in the order `finished`: the grey nodes are exactly the stack, each entered from the
   one below it, which is its recorded parent; every neighbour of a black node was
   finished before it.
   */
  ghost predicate SearchState<T(!new)>(g: Graph<T>, state: map<T, Color>, parent: map<T, T>, finished: seq<T>,
                                       stack: seq<T>) {
    && state.Keys == g.Keys
    && NoDuplicates(stack)
    && (forall x :: x in stack <==> x in state && state[x] == Gray)
    && ParentChain(g, parent, stack)
    && NoDuplicates(finished)
    && (forall x :: x in finished <==> x in state && state[x] == Black)
    && NeighboursFirst(g, finished)
  }

  ghost predicate NeighboursFirst<T(!new)>(g: Graph<T>, finished: seq<T>) {
    forall i, v :: 0 <= i < |finished| && Edge(g, finished[i], v) ==> v in finished[..i]
  }

  function Whites<T>(state: map<T, Color>): set<T> {
    set x | x in state && state[x] == White
  }

  predicate IsBlack<T(==)>(state: map<T, Color>, x: T) {
    x in state && state[x] == Black
  }

  /** Black nodes stay black and no node turns white again. */
  ghost predicate Advances<T(!new)>(before: map<T, Color>, after: map<T, Color>) {
    && (forall x :: IsBlack(before, x) ==> IsBlack(after, x))
    && Whites(after) <= Whites(before)
  }

  lemma EnterNode<T(!new)>(g: Graph<T>, state: map<T, Color>, parent: map<T, T>, finished: seq<T>, stack: seq<T>, u: T)
    requires SearchState(g, state, parent, finished, stack) && u in state && state[u] == White
    requires |stack| > 0 ==> Edge(g, stack[|stack| - 1], u) && u in parent && parent[u] == stack[|stack| - 1]
    ensures SearchState(g, state[u := Gray], parent, finished, stack + [u])
    ensures Advances(state, state[u := Gray]) && Whites(state[u := Gray]) < Whites(state)
  {
    assert u in Whites(state);
  }

  lemma LeaveNode<T(!new)>(g: Graph<T>, before: map<T, Color>, state: map<T, Color>, parent: map<T, T>,
                           finished: seq<T>, stack: seq<T>, u: T)
    requires SearchState(g, state, parent, finished, stack + [u])
    requires Advances(before, state) && forall v :: Edge(g, u, v) ==> IsBlack(state, v)
    ensures SearchState(g, state[u := Black], parent, finished + [u], stack)
    ensures Advances(before, state[u := Black])
  {
    var entered := stack + [u];
    assert entered[|stack|] == u && u in entered;
    assert forall i :: 0 <= i < |stack| ==> entered[i] == stack[i];
    forall i, v | 0 <= i < |finished + [u]| && Edge(g, (finished + [u])[i], v)
      ensures v in (finished + [u])[..i]
    {
      if i < |finished| {
        assert (finished + [u])[..i] == finished[..i];
      } else {
        assert (finished + [u])[..i] == finished;
      }
    }
  }

  /** A grey neighbour of the node on top of the stack closes a simple cycle. */
  lemma BackEdgeClosesCycle<T(!new)>(g: Graph<T>, state: map<T, Color>, parent: map<T, T>, finished: seq<T>,
                                     stack: seq<T>,
                                     k: nat, cycle: seq<T>)
    requires SearchState(g, state, parent, finished, stack)
    requires k < |stack| && Edge(g, stack[|stack| - 1], stack[k])
    requires cycle == stack[k..] + [stack[k]]
    ensures IsSimpleCycle(g, cycle)
  {
    assert cycle[..|cycle| - 1] == stack[k..];
  }

  ghost function Position<T>(s: seq<T>, x: T): (i: nat)
    requires x in s
    ensures i < |s| && s[i] == x
  {
    var i :| 0 <= i < |s| && s[i] == x;
    i
  }

  ghost predicate Ranks<T(!new)>(g: Graph<T>, rank: map<T, nat>) {
    forall a, b :: Edge(g, a, b) ==> a in rank && b in rank && rank[b] < rank[a]
  }

  /** Once every node is finished, the finishing order ranks the graph. */
  lemma FinishedRanks<T(!new)>(g: Graph<T>, finished: seq<T>) returns (rank: map<T, nat>)
    requires NeighboursFirst(g, finished) && NoDuplicates(finished)
    requires forall x :: x in g ==> x in finished
    ensures Ranks(g, rank) && Acyclic(g)
  {
    rank := map f | f in finished :: Position(finished, f);
    forall a, b | Edge(g, a, b)
      ensures a in rank && b in rank && rank[b] < rank[a]
    {
      var i := Position(finished, a);
      assert b in finished[..i];
      var j :| 0 <= j < i && finished[..i][j] == b;
      assert finished[j] == b;
    }
    RankedIsAcyclic(g, rank);
  }
}

module CycleDetection {
  import opened Wrappers
  import opened Graphs
  import opened DepthFirst
  import opened Forwarders

  class CycleDetector {
    const resolver: Resolver
    const nodes: seq<Forwarder>
    var state: map<Forwarder, Color>
    var parent: map<Forwarder, Forwarder>

    /** The black forwarders in the order they were finished. */
    ghost var finished: seq<Forwarder>

    ghost const graph: Graph<Forwarder>

    /** `graph` is what `Neighbours` computes, and its edges stay among the nodes. */
    ghost predicate Built() {
      && graph == GraphOver(resolver, nodes)
      && (forall f, v :: Edge(graph, f, v) ==> v in graph)
    }

    ghost predicate Fresh()
      reads this
    {
      && Built()
      && state == (map f | f in nodes :: White)
      && parent == map[]
      && finished == []
    }

    constructor (ws: Workspace)
      ensures Fresh() && resolver == ResolverOf(ws) && nodes == NodesOf(ws) && graph == ResolvedGraph(ws)
    {
      var sockets := BuildSocketIndex(ws);
      var catalogue := BuildFrameCatalogue(ws);
      var buses := BuildCanIndex(ws, catalogue);
      resolver := Resolver(catalogue, sockets, buses, OwnerOf(EntriesOf(ws)));
      nodes := NodesOf(ws);
      graph := ResolvedGraph(ws);
      state := map f | f in NodesOf(ws) :: White;
      parent := map[];
      finished := [];
      forall f, v | Edge(ResolvedGraph(ws), f, v) ensures v in ResolvedGraph(ws) {
        NeighboursAreNodes(ws, f, v);
      }
    }

    method Neighbours(f: Forwarder) returns (out: seq<Forwarder>)
      requires Built() && f in graph
      ensures out == graph[f]
    {
      out := [];
      for i := 0 to |f.egresses|
        invariant out == NeighboursOf(resolver, f, i)
      {
        var next := Resolve(resolver, f, f.egresses[i]);
        if next.Some? {
          out := out + [next.value];
        }
      }
    }

    ghost predicate Valid(stack: seq<Forwarder>)
      reads this
    {
      SearchState(graph, state, parent, finished, stack)
    }

    /** The nodes of the loop closed by an edge `start -> end`, read off the parent map. */
    method CycleNodes(start: Forwarder, end: Forwarder, ghost stack: seq<Forwarder>, ghost k: nat)
      returns (cycle: seq<Forwarder>)
      requires ParentChain(graph, parent, stack) && NoDuplicates(stack)
      requires k < |stack| && stack[k] == end && stack[|stack| - 1] == start
      ensures cycle == stack[k..] + [end]
    {
      var nodes := [end];
      var cur := Some(start);
      ghost var j := |stack| - 1;
      while cur.Some? && cur.value != end
        invariant k <= j < |stack| && cur == Some(stack[j])
        invariant |nodes| == |stack| - j && nodes[0] == end
        invariant forall i :: 1 <= i < |nodes| ==> nodes[i] == stack[|stack| - i]
        decreases j
      {
        nodes := nodes + [cur.value];
        cur := if cur.value in parent then Some(parent[cur.value]) else None;
        j := j - 1;
      }
      nodes := nodes + [end];
      cycle := Reverse(nodes);
    }

    /** Edge rules for `u -> v`: an edge into a grey node closes a cycle, a white node is entered. */
    method VisitNeighbour(u: Forwarder, v: Forwarder, ghost stack: seq<Forwarder>)
      returns (cycle: Option<seq<Forwarder>>)
      requires Built() && Valid(stack) && |stack| > 0 && stack[|stack| - 1] == u && Edge(graph, u, v)
      modifies this
      ensures cycle.None? ==> Valid(stack) && Advances(old(state), state) && IsBlack(state, v)
      ensures cycle.Some? ==> IsSimpleCycle(graph, cycle.value)
      decreases Whites(state), 1
    {
      var color := if v in state then state[v] else White;
      if color == Gray {
        ghost var k :| 0 <= k < |stack| && stack[k] == v;
        var nodes := CycleNodes(u, v, stack, k);
        BackEdgeClosesCycle(graph, state, parent, finished, stack, k, nodes);
        return Some(nodes);
      }
      if color == White {
        parent := parent[v := u];
        cycle := Dfs(v, stack);
      } else {
        cycle := None;
      }
    }

    /** The neighbour loop of the search body, for the node on top of the call stack. */
    method VisitAll(u: Forwarder, ghost stack: seq<Forwarder>) returns (cycle: Option<seq<Forwarder>>)
      requires Built() && Valid(stack) && |stack| > 0 && stack[|stack| - 1] == u && u in graph
      modifies this
      ensures cycle.None? ==>
                Valid(stack) && Advances(old(state), state) && forall v :: Edge(graph, u, v) ==> IsBlack(state, v)
      ensures cycle.Some? ==> IsSimpleCycle(graph, cycle.value)
      decreases Whites(state), 2
    {
      var vs := Neighbours(u);
      for i := 0 to |vs|
        invariant Valid(stack) && Advances(old(state), state)
        invariant forall j :: 0 <= j < i ==> IsBlack(state, vs[j])
      {
        cycle := VisitNeighbour(u, vs[i], stack);
        if cycle.Some? {
          return;
        }
      }
      cycle := None;
    }

    /**
     The recursive body: grey on entry, black once every neighbour was visited; `stack` is the call stack
     below `u`.
     */
    method Dfs(u: Forwarder, ghost stack: seq<Forwarder>) returns (cycle: Option<seq<Forwarder>>)
      requires Built() && Valid(stack) && u in state && state[u] == White
      requires |stack| > 0 ==> Edge(graph, stack[|stack| - 1], u) && u in parent && parent[u] == stack[|stack| - 1]
      modifies this
      ensures cycle.None? ==> Valid(stack) && Advances(old(state), state) && IsBlack(state, u)
      ensures cycle.Some? ==> IsSimpleCycle(graph, cycle.value)
      decreases Whites(state), 0
    {
      EnterNode(graph, state, parent, finished, stack, u);
      state := state[u := Gray];
      cycle := VisitAll(u, stack + [u]);
      if cycle.None? {
        LeaveNode(graph, old(state), state, parent, finished, stack, u);
        state := state[u := Black];
        finished := finished + [u];
      }
    }

    /**
     Accepts exactly the workspaces whose resolved forwarder graph has no loop, self-loops
     included. Acceptance leaves every forwarder black and ranked; rejection names a loop.
     */
    method Detect() returns (cycle: Option<seq<Forwarder>>)
      requires Fresh()
      modifies this
      ensures cycle.None? <==> Acyclic(graph)
      ensures cycle.None? ==> (forall f :: f in nodes ==> IsBlack(state, f)) && exists rank :: Ranks(graph, rank)
      ensures cycle.Some? ==> IsSimpleCycle(graph, cycle.value)
    {
      for i := 0 to |nodes|
        invariant Valid([])
        invariant forall j :: 0 <= j < i ==> IsBlack(state, nodes[j])
      {
        if state[nodes[i]] == White {
          cycle := Dfs(nodes[i], []);
          if cycle.Some? {
            return;
          }
        }
      }
      cycle := None;
      ghost var rank := FinishedRanks(graph, finished);
    }
  }

  function Reverse<T>(s: seq<T>): (r: seq<T>)
    ensures |r| == |s|
    ensures forall i :: 0 <= i < |s| ==> r[i] == s[|s| - 1 - i]
  {
    if s == [] then [] else Reverse(s[1..]) + [s[0]]
  }
}
