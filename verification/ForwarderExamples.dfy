/**
 Three workspaces that the cycle detector gets wrong: two with a loop that it misses, and one that has no loop.
 */
module ForwarderExamples {
  import opened Wrappers
  import opened Sequences
  import opened Graphs
  import opened Forwarders
  import opened DeployedForwarders

  // ------------------------------------------------------------------ a loop that is missed

  function LoopingForwarder(bus: string, id: int): Forwarder {
    CanFrameForwarder(0, "F", [CanFrameEgress(bus, id)])
  }

  function OtherForwarder(): Forwarder {
    CanFrameForwarder(1, "F", [EthSocketEgress("out", None)])
  }

  /**
   Two gateways forward the same CAN frame. The first sends it back to where it came from, a loop; the index
   keeps only the second, so the search sees none. The senders that the egresses need are not shown.
   */
  function SharedFrameWorkspace(): Workspace {
    Workspace(
      [Controller(0, "A", [], [CanInterface("bus", [LoopingForwarder("bus", 7)])]),
       Controller(1, "B", [Socket("out", [])], [CanInterface("bus", [OtherForwarder()])])],
      [CanBus("bus", [CanFrame("F", 7, ["P"])])])
  }

  /** The entries of a workspace of two controllers. */
  lemma EntriesOfTwo(ws: Workspace, a: Controller, b: Controller)
    requires ws.controllers == [a, b]
    ensures SocketEntriesOf(ws) == ControllerSocketEntries(a) + ControllerSocketEntries(b)
    ensures CanEntriesOf(ws) == ControllerCanEntries(a) + ControllerCanEntries(b)
  {
    assert ws.controllers[..1] == [a] && [a][..0] == [];
    assert FlatMap([a], ControllerSocketEntries) ==
        FlatMap([a][..0], ControllerSocketEntries) + ControllerSocketEntries(a);
    assert FlatMap([a], ControllerCanEntries) == FlatMap([a][..0], ControllerCanEntries) + ControllerCanEntries(a);
    assert SocketEntriesOf(ws) == FlatMap(ws.controllers[..1], ControllerSocketEntries) + ControllerSocketEntries(b);
    assert CanEntriesOf(ws) == FlatMap(ws.controllers[..1], ControllerCanEntries) + ControllerCanEntries(b);
  }

  lemma SharedFrameEntries(ws: Workspace)
    requires ws == SharedFrameWorkspace()
    ensures SocketEntriesOf(ws) == []
    ensures EntriesOf(ws) == [Entry(0, "A", "bus", LoopingForwarder("bus", 7)), Entry(1, "B", "bus", OtherForwarder())]
        == CanEntriesOf(ws)
  {
    var a, b := ws.controllers[0], ws.controllers[1];
    EntriesOfTwo(ws, a, b);
    assert ControllerCanEntries(a) == InterfaceEntries(a, a.canInterfaces[0]);
    assert ControllerCanEntries(b) == InterfaceEntries(b, b.canInterfaces[0]);
    assert ControllerSocketEntries(b) == ControllerSocketEntriesUpTo(b, 0) + SocketEntries(b, b.sockets[0]);
  }

  lemma SelfLoopIsCyclic<T(!new)>(g: Graph<T>, x: T)
    requires Edge(g, x, x)
    ensures !Acyclic(g)
  {
    assert IsClosedWalk(g, [x, x]);
  }

  lemma OnlyEdge(ws: Workspace, a: Entry, b: Entry, f: Forwarder, v: Forwarder)
    requires EntriesOf(ws) == [a, b] && |a.fwd.egresses| == 1 && Edge(ResolvedGraph(ws), f, v)
    requires Resolve(ResolverOf(ws), a.fwd, a.fwd.egresses[0]) == Some(b.fwd)
    requires forall e :: e in b.fwd.egresses ==> Resolve(ResolverOf(ws), b.fwd, e).None?
    ensures f == a.fwd && v == b.fwd
  {
    hide EntriesOf, ResolvedGraph, Resolve, ResolverOf;
    var n := EntryOfNode(ws, f, v);
    ResolvedEdge(ws, n, v);
    var i :| 0 <= i < |f.egresses| && Resolve(ResolverOf(ws), f, f.egresses[i]) == Some(v);
    assert f.egresses[i] in f.egresses;
  }

  /** A forwarder that feeds itself and one that leads nowhere, deployed after it under the same names. */
  lemma LaterNamesakeHidesLoop(ws: Workspace, a: Entry, b: Entry)
    requires EntriesOf(ws) == [a, b] && |a.fwd.egresses| == 1
    requires Feeds(ws, a, a.fwd.egresses[0], a) && IsNamed(ws, a, a.fwd.egresses[0], b)
    requires forall e :: e in b.fwd.egresses ==> Resolve(ResolverOf(ws), b.fwd, e).None?
    requires a.fwd != b.fwd
    ensures Acyclic(ResolvedGraph(ws)) && !Acyclic(DeployedGraph(ws))
  {
    hide EntriesOf, ResolvedGraph, DeployedGraph, Resolve, ResolverOf, Feeds, IsNamed;
    assert EntriesOf(ws)[0] == a && EntriesOf(ws)[1] == b;
    assert a in EntriesOf(ws) && b in EntriesOf(ws);
    assert IsFedBy(ws, a.fwd, a.fwd, a, 0, a);
    DeployedEdge(ws, a.fwd, a.fwd);
    SelfLoopIsCyclic(DeployedGraph(ws), a.fwd);
    assert IsLastNamed(ws, a, a.fwd.egresses[0], 1);
    LastIsResolved(ws, a, a.fwd.egresses[0], 1);
    forall f, v | Edge(ResolvedGraph(ws), f, v) ensures f == a.fwd && v == b.fwd {
      OnlyEdge(ws, a, b, f, v);
    }
    RankedIsAcyclic(ResolvedGraph(ws), map[a.fwd := 1, b.fwd := 0]);
  }

  /** The search accepts this workspace although a deployed forwarder feeds itself. */
  lemma SharedFrameLoopIsMissed(ws: Workspace)
    requires ws == SharedFrameWorkspace()
    ensures DistinctObjects(ws) && !LastOnesAreFed(ws)
    ensures Acyclic(ResolvedGraph(ws)) && !Acyclic(DeployedGraph(ws))
  {
    SharedFrameEntries(ws);
    SharedFrameTargets(ws);
    LaterNamesakeHidesLoop(ws, Entry(0, "A", "bus", LoopingForwarder("bus", 7)),
        Entry(1, "B", "bus", OtherForwarder()));
    TwoAreDistinct(ws, Entry(0, "A", "bus", LoopingForwarder("bus", 7)), Entry(1, "B", "bus", OtherForwarder()));
    if LastOnesAreFed(ws) {
      AcceptanceCoversDeployment(ws);
    }
  }

  lemma TwoAreDistinct(ws: Workspace, a: Entry, b: Entry)
    requires EntriesOf(ws) == [a, b] && a.fwd != b.fwd && a.home != b.home
    ensures DistinctObjects(ws)
  {
    assert NodesOf(ws) == [a.fwd, b.fwd];
  }

  lemma CatalogueOfOne(ws: Workspace, b: CanBus, f: CanFrame)
    requires ws.buses == [b] && b.frames == [f]
    ensures CatalogueOf(ws) == map[f.name := f] && Declares(ws, b.name, f)
  {
    assert ws.buses[..0] == [];
    assert DeclaredFrames(ws) == FlatMap(ws.buses[..0], (b: CanBus) => b.frames) + b.frames == [f];
    assert [f][..0] == [] && Catalogued(map[], []) == map[];
    assert Catalogued(map[], [f]) == Catalogued(map[], [f][..0])[f.name := f];
  }

  lemma SharedFrameTargets(ws: Workspace)
    requires ws == SharedFrameWorkspace()
    ensures var a, b := Entry(0, "A", "bus", LoopingForwarder("bus", 7)), Entry(1, "B", "bus", OtherForwarder());
            && Feeds(ws, a, a.fwd.egresses[0], a) && IsNamed(ws, a, a.fwd.egresses[0], b)
            && Resolve(ResolverOf(ws), b.fwd, b.fwd.egresses[0]).None?
  {
    var a := Entry(0, "A", "bus", LoopingForwarder("bus", 7));
    SharedFrameEntries(ws);
    CatalogueOfOne(ws, ws.buses[0], ws.buses[0].frames[0]);
    assert Receives(ws, a, ws.buses[0].frames[0]);
    assert SendsTo(ws, a, a.fwd.egresses[0], BusPlace("bus", 7)) && ListensAt(ws, a, BusPlace("bus", 7));
  }

  // ------------------------------------------------------------------ a loop hidden by a frame of another bus

  /**
   Two buses declare a frame of one name, with different ids. A gateway on the first bus sends that frame back
   to where it came from. The catalogue keeps the frame of the second bus, so the gateway is looked up under
   the wrong id. The sender that the egress needs is not shown.
   */
  function SameFrameNameWorkspace(): Workspace {
    Workspace([Controller(0, "A", [], [CanInterface("X", [LoopingForwarder("X", 7)])])],
              [CanBus("X", [CanFrame("F", 7, ["P"])]), CanBus("Y", [CanFrame("F", 9, ["P"])])])
  }

  lemma FramesOfTwo(ws: Workspace, x: CanBus, y: CanBus)
    requires ws.buses == [x, y]
    ensures DeclaredFrames(ws) == x.frames + y.frames
  {
    var one := ws.buses[..1];
    assert one == [x] && one[..0] == [];
    assert FlatMap(one, (b: CanBus) => b.frames) == FlatMap(one[..0], (b: CanBus) => b.frames) + x.frames;
    assert DeclaredFrames(ws) == FlatMap(one, (b: CanBus) => b.frames) + y.frames;
  }

  lemma CatalogueOfTwo(ws: Workspace, x: CanBus, y: CanBus, f: CanFrame, g: CanFrame)
    requires ws.buses == [x, y] && x.frames == [f] && y.frames == [g] && f.name == g.name
    ensures CatalogueOf(ws) == map[g.name := g] && Declares(ws, x.name, f)
  {
    FramesOfTwo(ws, x, y);
    hide DeclaredFrames;
    assert [f, g][..1] == [f] && [f][..0] == [] && Catalogued(map[], []) == map[];
    assert Catalogued(map[], [f]) == Catalogued(map[], [f][..0])[f.name := f];
    assert Catalogued(map[], [f, g]) == Catalogued(map[], [f, g][..1])[g.name := g];
  }

  lemma SameFrameNameEntries(ws: Workspace)
    requires ws == SameFrameNameWorkspace()
    ensures EntriesOf(ws) == [Entry(0, "A", "X", LoopingForwarder("X", 7))]
  {
    var a := ws.controllers[0];
    assert ws.controllers[..0] == [];
    assert SocketEntriesOf(ws) == FlatMap(ws.controllers[..0], ControllerSocketEntries) + ControllerSocketEntries(a) ==
        [];
    assert CanEntriesOf(ws) == FlatMap(ws.controllers[..0], ControllerCanEntries) + ControllerCanEntries(a);
    assert ControllerCanEntries(a) == ControllerCanEntriesUpTo(a, 0) + InterfaceEntries(a, a.canInterfaces[0]);
  }

  lemma SameFrameNameTargets(ws: Workspace, a: Entry)
    requires ws == SameFrameNameWorkspace() && a == Entry(0, "A", "X", LoopingForwarder("X", 7))
    ensures Feeds(ws, a, a.fwd.egresses[0], a) && !IsNamed(ws, a, a.fwd.egresses[0], a)
  {
    var x, y := ws.buses[0], ws.buses[1];
    CatalogueOfTwo(ws, x, y, x.frames[0], y.frames[0]);
    assert Receives(ws, a, x.frames[0]);
    assert SendsTo(ws, a, a.fwd.egresses[0], BusPlace("X", 7)) && ListensAt(ws, a, BusPlace("X", 7));
  }

  /** A forwarder that feeds itself, and is the only one, but does not go by the names that it sends to. */
  lemma WrongNameHidesLoop(ws: Workspace, a: Entry)
    requires EntriesOf(ws) == [a] && |a.fwd.egresses| == 1
    requires Feeds(ws, a, a.fwd.egresses[0], a) && !IsNamed(ws, a, a.fwd.egresses[0], a)
    ensures DistinctObjects(ws) && Acyclic(ResolvedGraph(ws)) && !Acyclic(DeployedGraph(ws))
  {
    assert NodesOf(ws) == [a.fwd];
    hide EntriesOf, ResolvedGraph, DeployedGraph, Feeds, IsNamed;
    assert a in EntriesOf(ws);
    assert IsFedBy(ws, a.fwd, a.fwd, a, 0, a);
    DeployedEdge(ws, a.fwd, a.fwd);
    SelfLoopIsCyclic(DeployedGraph(ws), a.fwd);
    NothingIsResolved(ws, a);
    RankedIsAcyclic(ResolvedGraph(ws), map[]);
  }

  lemma NothingIsResolved(ws: Workspace, a: Entry)
    requires EntriesOf(ws) == [a] && |a.fwd.egresses| == 1 && !IsNamed(ws, a, a.fwd.egresses[0], a)
    ensures forall f, v :: !Edge(ResolvedGraph(ws), f, v)
  {
    hide EntriesOf, ResolvedGraph, Resolve, ResolverOf, IsNamed;
    forall f, v | Edge(ResolvedGraph(ws), f, v) ensures false {
      var n := EntryOfNode(ws, f, v);
      ResolvedEdge(ws, n, v);
      var i :| 0 <= i < |f.egresses| && Resolve(ResolverOf(ws), f, f.egresses[i]) == Some(v);
      var k := ResolvedIsLast(ws, a, f.egresses[i]);
    }
  }

  /** The search accepts this workspace although its only forwarder feeds itself. */
  lemma SameFrameNameLoopIsMissed(ws: Workspace)
    requires ws == SameFrameNameWorkspace()
    ensures DistinctObjects(ws) && !LastOnesAreFed(ws)
    ensures Acyclic(ResolvedGraph(ws)) && !Acyclic(DeployedGraph(ws))
  {
    var a := Entry(0, "A", "X", LoopingForwarder("X", 7));
    SameFrameNameEntries(ws);
    SameFrameNameTargets(ws, a);
    WrongNameHidesLoop(ws, a);
    hide SameFrameNameWorkspace, ResolvedGraph, DeployedGraph, LastOnesAreFed, DistinctObjects;
    if LastOnesAreFed(ws) {
      AcceptanceCoversDeployment(ws);
    }
  }

  // ------------------------------------------------------------------ a loop that is not there

  function ForwarderTo(oid: nat, socket: string): Forwarder {
    PduForwarder(oid, "P", [EthSocketEgress(socket, None)])
  }

  /**
   Two controllers of the same name, on different ECUs, each forwarding a PDU from one socket to the other,
   in opposite directions. The senders that the egresses need are not shown.
   */
  function SameNameWorkspace(): Workspace {
    Workspace(
      [Controller(0, "cpu", [Socket("s1", [ForwarderTo(0, "s2")]), Socket("s2", [])], []),
       Controller(1, "cpu", [Socket("s1", []), Socket("s2", [ForwarderTo(1, "s1")])], [])],
      [])
  }

  lemma SameNameEntries(ws: Workspace)
    requires ws == SameNameWorkspace()
    ensures EntriesOf(ws) == [Entry(0, "cpu", "s1", ForwarderTo(0, "s2")), Entry(1, "cpu", "s2", ForwarderTo(1, "s1"))]
  {
    var a, b := ws.controllers[0], ws.controllers[1];
    EntriesOfTwo(ws, a, b);
    SocketEntriesOfTwo(a, a.sockets[0], a.sockets[1]);
    SocketEntriesOfTwo(b, b.sockets[0], b.sockets[1]);
  }

  lemma SocketEntriesOfTwo(c: Controller, s: Socket, t: Socket)
    requires c.sockets == [s, t]
    ensures ControllerSocketEntries(c) == SocketEntries(c, s) + SocketEntries(c, t)
  {
    assert ControllerSocketEntriesUpTo(c, 1) == ControllerSocketEntriesUpTo(c, 0) + SocketEntries(c, s);
  }

  lemma SocketNames(ws: Workspace, a: Entry, socket: string, n: Entry)
    requires DistinctObjects(ws) && a in EntriesOf(ws) && a.fwd.PduForwarder? && n.fwd.PduForwarder?
    ensures IsNamed(ws, a, EthSocketEgress(socket, None), n)
            <==> n.controller == a.controller && n.carrier == socket && n.fwd.pduRef == a.fwd.pduRef
  {
    hide EntriesOf, CatalogueOf;
    forall m | m in EntriesOf(ws) && m.fwd == a.fwd ensures m == a {
      SameEntry(ws, m, a);
    }
    OwnerIsController(EntriesOf(ws), a);
    hide OwnerOf;
  }

  lemma SameNameTargets(ws: Workspace, a: Entry, b: Entry)
    requires ws == SameNameWorkspace()
    requires a == Entry(0, "cpu", "s1", ForwarderTo(0, "s2")) && b == Entry(1, "cpu", "s2", ForwarderTo(1, "s1"))
    ensures IsNamed(ws, a, a.fwd.egresses[0], b) && !IsNamed(ws, a, a.fwd.egresses[0], a)
    ensures IsNamed(ws, b, b.fwd.egresses[0], a) && !IsNamed(ws, b, b.fwd.egresses[0], b)
  {
    SameNameEntries(ws);
    TwoAreDistinct(ws, a, b);
    hide SameNameWorkspace, EntriesOf, IsNamed;
    SocketNames(ws, a, "s2", a);
    SocketNames(ws, a, "s2", b);
    SocketNames(ws, b, "s1", a);
    SocketNames(ws, b, "s1", b);
    assert "s1" != "s2" by { assert "s1"[1] != "s2"[1]; }
  }

  /** The search rejects this workspace: it takes the two controllers for one, and finds a loop that is not deployed. */
  lemma SameNameLoopIsNotDeployed(ws: Workspace)
    requires ws == SameNameWorkspace()
    ensures DistinctObjects(ws) && !LastOnesAreFed(ws)
    ensures !Acyclic(ResolvedGraph(ws)) && Acyclic(DeployedGraph(ws))
  {
    var a, b := Entry(0, "cpu", "s1", ForwarderTo(0, "s2")), Entry(1, "cpu", "s2", ForwarderTo(1, "s1"));
    SameNameEntries(ws);
    SameNameTargets(ws, a, b);
    TwoAreDistinct(ws, a, b);
    NamesakesLoop(ws, a, b);
    forall f, v ensures !Edge(DeployedGraph(ws), f, v) {
      NamesakesAreApart(ws, a, b, f, v);
    }
    hide DeployedGraph, ResolvedGraph, EntriesOf, LastOnesAreFed;
    RankedIsAcyclic(DeployedGraph(ws), map[]);
    if LastOnesAreFed(ws) {
      AcceptanceCoversDeployment(ws);
    }
  }

  lemma NamesakesAreApart(ws: Workspace, a: Entry, b: Entry, f: Forwarder, v: Forwarder)
    requires EntriesOf(ws) == [a, b] && DistinctObjects(ws) && a.home != b.home
             && |a.fwd.egresses| == |b.fwd.egresses| == 1
    requires !IsNamed(ws, a, a.fwd.egresses[0], a) && a.fwd.egresses[0].EthSocketEgress?
    requires !IsNamed(ws, b, b.fwd.egresses[0], b) && b.fwd.egresses[0].EthSocketEgress?
    requires a.fwd.PduForwarder? && b.fwd.PduForwarder?
    ensures !Edge(DeployedGraph(ws), f, v)
  {
    hide EntriesOf, DeployedGraph, IsNamed, Feeds, DistinctObjects;
    DeployedEdge(ws, f, v);
    if Hears(ws, f, v) {
      var c, i: nat, n :| IsFedBy(ws, f, v, c, i, n);
      FedIffNamedAndLocal(ws, c, f.egresses[i], n);
      assert false;
    }
  }

  lemma NamesakesLoop(ws: Workspace, a: Entry, b: Entry)
    requires EntriesOf(ws) == [a, b] && a.fwd.egresses != [] && b.fwd.egresses != []
    requires IsNamed(ws, a, a.fwd.egresses[0], b)
    requires IsNamed(ws, b, b.fwd.egresses[0], a) && !IsNamed(ws, b, b.fwd.egresses[0], b)
    ensures !Acyclic(ResolvedGraph(ws))
  {
    assert EntriesOf(ws)[0] == a && EntriesOf(ws)[1] == b && a in EntriesOf(ws) && b in EntriesOf(ws);
    assert IsLastNamed(ws, a, a.fwd.egresses[0], 1) && IsLastNamed(ws, b, b.fwd.egresses[0], 0);
    LastIsResolved(ws, a, a.fwd.egresses[0], 1);
    LastIsResolved(ws, b, b.fwd.egresses[0], 0);
    ResolvedEdge(ws, a, b.fwd);
    ResolvedEdge(ws, b, a.fwd);
    var cycle := [a.fwd, b.fwd, a.fwd];
    assert IsClosedWalk(ResolvedGraph(ws), cycle);
  }
}
