/**
 What acceptance by the cycle detector means for forwarded PDUs: runs along resolved hops end, or there is a
 loop and a PDU circulates forever.
 */
module ForwarderRuns {
  import opened Wrappers
  import opened Sequences
  import opened Graphs
  import opened Forwarders
  import opened ForwarderHops
  import opened CycleDetection

  /** A forwarding run: every hop leaves by an egress that leads to the next forwarder. */
  ghost predicate IsRun(ws: Workspace, run: seq<Forwarder>) {
    && |run| > 0 && Stands(ws, run[0])
    && forall i :: 0 <= i < |run| - 1 ==> Hop(ws, run[i], run[i + 1])
  }

  /** Hops that lead back to where they started, no forwarder twice in between; one hop is enough. */
  ghost predicate IsLoop(ws: Workspace, p: seq<Forwarder>) {
    && |p| >= 2 && p[0] == p[|p| - 1] && NoDuplicates(p[..|p| - 1])
    && forall i :: 0 <= i < |p| - 1 ==> Hop(ws, p[i], p[i + 1])
  }

  lemma HopIsEdge(ws: Workspace, f: Forwarder, v: Forwarder)
    requires Hop(ws, f, v)
    ensures Edge(ResolvedGraph(ws), f, v) && v in NodesOf(ws)
  {
    EdgesAreHops(ws, f, v);
    NeighboursAreNodes(ws, f, v);
  }

  lemma LoopIsSimpleCycle(ws: Workspace, p: seq<Forwarder>)
    ensures IsLoop(ws, p) <==> IsSimpleCycle(ResolvedGraph(ws), p)
  {
    hide ResolvedGraph, Hop;
    forall f, v ensures Edge(ResolvedGraph(ws), f, v) <==> Hop(ws, f, v) {
      EdgesAreHops(ws, f, v);
    }
  }

  lemma {:induction false} RunIsWalk(ws: Workspace, run: seq<Forwarder>)
    requires IsRun(ws, run)
    ensures IsWalk(ResolvedGraph(ws), run) && forall f :: f in run ==> f in NodesOf(ws)
  {
    hide ResolvedGraph, Hop, NodesOf, Stands;
    NodesStand(ws, run[0]);
    var n := |run| - 1;
    if n > 0 {
      RunIsWalk(ws, run[..n]);
      var f := run[n - 1];
      assert f in run[..n];
      assert Hop(ws, run[n - 1], run[n - 1 + 1]);
      HopIsEdge(ws, f, run[n]);
      forall i | 0 <= i < n ensures Edge(ResolvedGraph(ws), run[i], run[i + 1]) {
        if i < n - 1 {
          assert Edge(ResolvedGraph(ws), run[..n][i], run[..n][i + 1]);
        }
      }
      assert run == run[..n] + [run[n]];
    }
  }

  /**
   In an accepted workspace a run visits no forwarder twice, so it ends within as many hops as there are
   forwarders.
   */
  lemma RunsTerminate(ws: Workspace, run: seq<Forwarder>)
    requires Acyclic(ResolvedGraph(ws)) && IsRun(ws, run)
    ensures NoDuplicates(run) && |run| <= |Elements(NodesOf(ws))|
  {
    RunIsWalk(ws, run);
    AcyclicWalksAreBounded(ResolvedGraph(ws), run, Elements(NodesOf(ws)));
  }

  lemma RunExtends(ws: Workspace, run: seq<Forwarder>, v: Forwarder)
    requires IsRun(ws, run) && run != [] && Hop(ws, run[|run| - 1], v)
    ensures IsRun(ws, run + [v])
  {
    hide Hop, Stands;
    assert forall k :: 0 <= k < |run| ==> (run + [v])[k] == run[k];
  }

  /** On a closed walk, every node leads to another one. */
  lemma CycleGoesOn(ws: Workspace, cycle: seq<Forwarder>, f: Forwarder) returns (v: Forwarder)
    requires IsClosedWalk(ResolvedGraph(ws), cycle) && f in cycle[..|cycle| - 1]
    ensures Hop(ws, f, v) && v in cycle[..|cycle| - 1]
  {
    hide ResolvedGraph, Hop;
    var i :| 0 <= i < |cycle| - 1 && cycle[..|cycle| - 1][i] == f;
    v := cycle[i + 1];
    assert Edge(ResolvedGraph(ws), f, v);
    EdgesAreHops(ws, f, v);
    assert v == if i + 1 == |cycle| - 1 then cycle[..|cycle| - 1][0] else cycle[..|cycle| - 1][i + 1];
  }

  /** A rejected workspace has runs of every length: a PDU circulates forever. */
  lemma {:induction false} CycleRunsForever(ws: Workspace, cycle: seq<Forwarder>, n: nat) returns (run: seq<Forwarder>)
    requires IsClosedWalk(ResolvedGraph(ws), cycle)
    ensures IsRun(ws, run) && |run| == n + 1 && run[n] in cycle[..|cycle| - 1]
  {
    if n == 0 {
      run := [cycle[0]];
      assert Edge(ResolvedGraph(ws), cycle[0], cycle[1]);
      EdgesAreHops(ws, cycle[0], cycle[1]);
    } else {
      hide Hop, IsRun, ResolvedGraph, IsClosedWalk;
      var shorter := CycleRunsForever(ws, cycle, n - 1);
      var v := CycleGoesOn(ws, cycle, shorter[n - 1]);
      RunExtends(ws, shorter, v);
      run := shorter + [v];
    }
  }

  ghost predicate HasRunOfLength(ws: Workspace, n: nat) {
    exists run :: IsRun(ws, run) && |run| == n
  }

  /** The workspace pass: `None` when it returns, the loop when it raises. */
  method DetectForwarderCycles(ws: Workspace) returns (cycle: Option<seq<Forwarder>>)
    ensures cycle.None? ==> forall run :: IsRun(ws, run) ==> NoDuplicates(run) && |run| <= |Elements(NodesOf(ws))|
    ensures cycle.Some? ==>
              IsSimpleCycle(ResolvedGraph(ws), cycle.value) && forall n: nat :: n > 0 ==> HasRunOfLength(ws, n)
    ensures cycle.None? <==> Acyclic(ResolvedGraph(ws))
    ensures cycle.None? <==> forall p :: !IsLoop(ws, p)
    ensures cycle.Some? ==> IsLoop(ws, cycle.value)
  {
    var detector := new CycleDetector(ws);
    cycle := detector.Detect();
    if cycle.None? {
      forall p ensures !IsLoop(ws, p) {
        LoopIsSimpleCycle(ws, p);
      }
      forall run | IsRun(ws, run) ensures NoDuplicates(run) && |run| <= |Elements(NodesOf(ws))| {
        RunsTerminate(ws, run);
      }
    } else {
      LoopIsSimpleCycle(ws, cycle.value);
      forall n: nat | n > 0 ensures HasRunOfLength(ws, n) {
        var run := CycleRunsForever(ws, cycle.value, n - 1);
      }
    }
  }
}
