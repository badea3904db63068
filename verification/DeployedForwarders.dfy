/**
 The graph of the forwarders as they are deployed, and when the graph that the cycle detector searches is that
 graph. The detector goes by names: of controllers, sockets and buses, and of frames in one catalogue for all
 buses; and it keeps one forwarder for each.
 */
module DeployedForwarders {
  import opened Wrappers
  import opened Graphs
  import opened Forwarders
  import Sequences

  // ------------------------------------------------------------------ places

  /** A place in the field: a socket and PDU of one controller object, or a CAN id on a bus. */
  datatype Place = SocketPlace(home: nat, socket: string, pdu: string) | BusPlace(bus: string, canId: int)

  predicate Declares(ws: Workspace, bus: string, f: CanFrame) {
    exists b :: b in ws.buses && b.name == bus && f in b.frames
  }

  /** A CAN frame forwarder receives the frames of its name that its own bus declares. */
  predicate Receives(ws: Workspace, n: Entry, f: CanFrame) {
    n.fwd.CanFrameForwarder? && f.name == n.fwd.frameRef && Declares(ws, n.carrier, f)
  }

  /** Where a deployed forwarder listens. */
  ghost predicate ListensAt(ws: Workspace, n: Entry, p: Place) {
    match n.fwd
    case PduForwarder(_, pdu, _) => p == SocketPlace(n.home, n.carrier, pdu)
    case CanFrameForwarder(_, _, _) => exists f :: Receives(ws, n, f) && p == BusPlace(n.carrier, f.canId)
  }

  /** The PDU that a deployed forwarder passes on: its own, or the only one that a frame it receives packs. */
  ghost predicate PassesOn(ws: Workspace, a: Entry, pdu: string) {
    match a.fwd
    case PduForwarder(_, own, _) => pdu == own
    case CanFrameForwarder(_, _, _) => exists f :: Receives(ws, a, f) && f.packedPdus == [pdu]
  }

  /** Where a deployed forwarder sends with an egress: to a socket of its own controller, or to a bus. */
  ghost predicate SendsTo(ws: Workspace, a: Entry, e: Egress, p: Place) {
    match e
    case EthSocketEgress(socket, extract) =>
      && p.SocketPlace? && p.home == a.home && p.socket == socket
      && if extract.Some? then p.pdu == extract.value else PassesOn(ws, a, p.pdu)
    case CanFrameEgress(bus, id) => p == BusPlace(bus, id)
  }

  ghost predicate Feeds(ws: Workspace, a: Entry, e: Egress, n: Entry) {
    exists p :: SendsTo(ws, a, e, p) && ListensAt(ws, n, p)
  }

  /** `v` is deployed at a place where `f` sends to. */
  ghost predicate Hears(ws: Workspace, f: Forwarder, v: Forwarder) {
    exists a, i: nat, n :: IsFedBy(ws, f, v, a, i, n)
  }

  ghost predicate IsFedBy(ws: Workspace, f: Forwarder, v: Forwarder, a: Entry, i: nat, n: Entry) {
    && a in EntriesOf(ws) && a.fwd == f && i < |f.egresses|
    && n in EntriesOf(ws) && n.fwd == v && Feeds(ws, a, f.egresses[i], n)
  }

  ghost function DeployedGraph(ws: Workspace): Graph<Forwarder> {
    map f | f in NodesOf(ws) :: Filtered(NodesOf(ws), v => Hears(ws, f, v))
  }

  ghost function Filtered<T(!new)>(s: seq<T>, p: T -> bool): (r: seq<T>)
    ensures forall x :: x in r <==> x in s && p(x)
  {
    if s == [] then [] else Filtered(s[..|s| - 1], p) + if p(s[|s| - 1]) then [s[|s| - 1]] else []
  }

  lemma DeployedEdge(ws: Workspace, f: Forwarder, v: Forwarder)
    ensures Edge(DeployedGraph(ws), f, v) <==> Hears(ws, f, v)
  {
    if Hears(ws, f, v) {
      var a, i: nat, n :| IsFedBy(ws, f, v, a, i, n);
      EntryIsNode(ws, a);
      EntryIsNode(ws, n);
    }
  }

  // ------------------------------------------------------------------ names

  /** Every forwarder object is deployed once, and a controller object has one name. */
  ghost predicate DistinctObjects(ws: Workspace) {
    && NoDuplicates(NodesOf(ws))
    && forall m, n :: m in EntriesOf(ws) && n in EntriesOf(ws) && m.home == n.home ==> m.controller == n.controller
  }

  /** `n` goes by the names that `e` sends to: controller, socket and PDU, or bus and CAN id. */
  predicate IsNamed(ws: Workspace, a: Entry, e: Egress, n: Entry) {
    Target(ResolverOf(ws), a.fwd, e).Some? && KeyOf(ws, n) == Target(ResolverOf(ws), a.fwd, e)
  }

  /** The entry at index `k` is the last one that goes by those names. */
  ghost predicate IsLastNamed(ws: Workspace, a: Entry, e: Egress, k: nat) {
    && k < |EntriesOf(ws)| && IsNamed(ws, a, e, EntriesOf(ws)[k])
    && forall j :: k < j < |EntriesOf(ws)| ==> !IsNamed(ws, a, e, EntriesOf(ws)[j])
  }

  lemma SameObject(ws: Workspace, j: nat, k: nat)
    requires DistinctObjects(ws) && j < |EntriesOf(ws)| && k < |EntriesOf(ws)|
             && EntriesOf(ws)[j].fwd == EntriesOf(ws)[k].fwd
    ensures j == k
  {
    assert NodesOf(ws)[j] == NodesOf(ws)[k];
  }

  lemma SameEntry(ws: Workspace, m: Entry, n: Entry)
    requires DistinctObjects(ws) && m in EntriesOf(ws) && n in EntriesOf(ws) && m.fwd == n.fwd
    ensures m == n
  {
    var j :| 0 <= j < |EntriesOf(ws)| && EntriesOf(ws)[j] == m;
    var k :| 0 <= k < |EntriesOf(ws)| && EntriesOf(ws)[k] == n;
    SameObject(ws, j, k);
  }

  lemma {:induction false} OwnerIsController(es: seq<Entry>, a: Entry)
    requires a in es && forall n :: n in es && n.fwd == a.fwd ==> n == a
    ensures a.fwd in OwnerOf(es) && OwnerOf(es)[a.fwd] == a.controller
  {
    var m := |es| - 1;
    assert es == es[..m] + [es[m]];
    if a.fwd != es[m].fwd {
      assert forall x :: x in es[..m] ==> x in es;
      OwnerIsController(es[..m], a);
    }
  }

  lemma EntryOfNode(ws: Workspace, f: Forwarder, v: Forwarder) returns (a: Entry)
    requires Edge(ResolvedGraph(ws), f, v)
    ensures a in EntriesOf(ws) && a.fwd == f
  {
    var m :| 0 <= m < |NodesOf(ws)| && NodesOf(ws)[m] == f;
    a := EntriesOf(ws)[m];
  }

  /** The names lead to the last forwarder deployed under them. */
  lemma LastIsResolved(ws: Workspace, a: Entry, e: Egress, k: nat)
    requires IsLastNamed(ws, a, e, k)
    ensures Resolve(ResolverOf(ws), a.fwd, e) == Some(EntriesOf(ws)[k].fwd)
  {
    var sockets, buses := SocketEntriesOf(ws), CanEntriesOf(ws);
    var key := Target(ResolverOf(ws), a.fwd, e).value;
    SocketEntriesListenOnSockets(ws);
    if key.SocketKey? {
      assert forall j :: k < j < |sockets| ==> EntriesOf(ws)[j] == sockets[j];
      LastInIndex(ws, sockets, key, k);
    } else {
      assert |sockets| <= k by {
        BusesComeLast(ws, k);
      }
      forall j | k - |sockets| < j < |buses| ensures KeyOf(ws, buses[j]) != Some(key) {
        assert EntriesOf(ws)[|sockets| + j] == buses[j];
      }
      LastInIndex(ws, buses, key, k - |sockets|);
    }
  }

  lemma BusesComeLast(ws: Workspace, k: nat)
    requires k < |EntriesOf(ws)| && EntriesOf(ws)[k].fwd.CanFrameForwarder?
    ensures |SocketEntriesOf(ws)| <= k
  {
    SocketEntriesListenOnSockets(ws);
    var sockets := SocketEntriesOf(ws);
    assert forall j :: 0 <= j < |sockets| ==> EntriesOf(ws)[j] == sockets[j] && sockets[j] in sockets;
  }

  lemma LastInIndex(ws: Workspace, es: seq<Entry>, key: Key, k: nat)
    requires k < |es| && KeyOf(ws, es[k]) == Some(key) && forall j :: k < j < |es| ==> KeyOf(ws, es[j]) != Some(key)
    ensures key in IndexOf(ws, es) && IndexOf(ws, es)[key] == es[k].fwd
  {
    IndexKeepsLast(ws, es, key);
    assert es[k] in es;
  }

  lemma {:induction false} LastNamedUpTo(ws: Workspace, a: Entry, e: Egress, n: nat, m: nat) returns (k: nat)
    requires m < n <= |EntriesOf(ws)| && IsNamed(ws, a, e, EntriesOf(ws)[m])
    requires forall j :: n <= j < |EntriesOf(ws)| ==> !IsNamed(ws, a, e, EntriesOf(ws)[j])
    ensures IsLastNamed(ws, a, e, k)
    decreases n
  {
    if IsNamed(ws, a, e, EntriesOf(ws)[n - 1]) {
      k := n - 1;
    } else {
      k := LastNamedUpTo(ws, a, e, n - 1, m);
    }
  }

  /** A resolved egress leads to the last forwarder deployed under its names. */
  lemma ResolvedIsLast(ws: Workspace, a: Entry, e: Egress) returns (k: nat)
    requires Resolve(ResolverOf(ws), a.fwd, e).Some?
    ensures IsLastNamed(ws, a, e, k) && EntriesOf(ws)[k].fwd == Resolve(ResolverOf(ws), a.fwd, e).value
  {
    ResolvedListens(ws, a.fwd, e);
    var n :| n in EntriesOf(ws) && KeyOf(ws, n) == Target(ResolverOf(ws), a.fwd, e);
    var m :| 0 <= m < |EntriesOf(ws)| && EntriesOf(ws)[m] == n;
    k := LastNamedUpTo(ws, a, e, |EntriesOf(ws)|, m);
    LastIsResolved(ws, a, e, k);
  }

  lemma ResolvedEdge(ws: Workspace, a: Entry, v: Forwarder)
    requires a in EntriesOf(ws)
    ensures Edge(ResolvedGraph(ws), a.fwd, v) <==>
              exists i :: 0 <= i < |a.fwd.egresses| && Resolve(ResolverOf(ws), a.fwd, a.fwd.egresses[i]) == Some(v)
  {
    EntryIsNode(ws, a);
    NeighbourIsResolved(ResolverOf(ws), a.fwd, |a.fwd.egresses|, v);
  }

  // ------------------------------------------------------------------ the exact condition

  lemma DeployedEdgeOf(ws: Workspace, a: Entry, k: nat)
    requires DistinctObjects(ws) && a in EntriesOf(ws) && k < |EntriesOf(ws)|
    ensures Edge(DeployedGraph(ws), a.fwd, EntriesOf(ws)[k].fwd) <==> IsFed(ws, a, k)
  {
    hide EntriesOf, DeployedGraph, Feeds;
    var n := EntriesOf(ws)[k];
    DeployedEdge(ws, a.fwd, n.fwd);
    if Hears(ws, a.fwd, n.fwd) {
      var b, i: nat, m :| IsFedBy(ws, a.fwd, n.fwd, b, i, m);
      SameEntry(ws, a, b);
      SameEntry(ws, n, m);
      assert Feeds(ws, a, a.fwd.egresses[i], n);
    }
    if IsFed(ws, a, k) {
      var i :| 0 <= i < |a.fwd.egresses| && Feeds(ws, a, a.fwd.egresses[i], n);
      assert IsFedBy(ws, a.fwd, n.fwd, a, i, n);
    }
  }

  lemma ResolvedEdgeOf(ws: Workspace, a: Entry, k: nat)
    requires DistinctObjects(ws) && a in EntriesOf(ws) && k < |EntriesOf(ws)|
    ensures Edge(ResolvedGraph(ws), a.fwd, EntriesOf(ws)[k].fwd) <==> IsLed(ws, a, k)
  {
    hide EntriesOf, ResolvedGraph, ResolverOf, Resolve, IsNamed;
    var n := EntriesOf(ws)[k];
    ResolvedEdge(ws, a, n.fwd);
    if i :| 0 <= i < |a.fwd.egresses| && Resolve(ResolverOf(ws), a.fwd, a.fwd.egresses[i]) == Some(n.fwd) {
      var l := ResolvedIsLast(ws, a, a.fwd.egresses[i]);
      SameObject(ws, l, k);
    }
    if i :| 0 <= i < |a.fwd.egresses| && IsLastNamed(ws, a, a.fwd.egresses[i], k) {
      LastIsResolved(ws, a, a.fwd.egresses[i], k);
    }
  }

  /** Some egress of `a` feeds the entry at index `k`. */
  ghost predicate IsFed(ws: Workspace, a: Entry, k: nat) {
    k < |EntriesOf(ws)| && exists i :: 0 <= i < |a.fwd.egresses| && Feeds(ws, a, a.fwd.egresses[i], EntriesOf(ws)[k])
  }

  /** Some egress of `a` sends to names under which the entry at index `k` is the last one deployed. */
  ghost predicate IsLed(ws: Workspace, a: Entry, k: nat) {
    exists i :: 0 <= i < |a.fwd.egresses| && IsLastNamed(ws, a, a.fwd.egresses[i], k)
  }

  /** Every forwarder feeds exactly those that are the last ones deployed under the names it sends to. */
  ghost predicate LastOnesAreFed(ws: Workspace) {
    forall a, k :: a in EntriesOf(ws) && 0 <= k < |EntriesOf(ws)| ==> (IsFed(ws, a, k) <==> IsLed(ws, a, k))
  }

  ghost predicate SearchIsFaithful(ws: Workspace) {
    forall f, v :: Edge(DeployedGraph(ws), f, v) <==> Edge(ResolvedGraph(ws), f, v)
  }

  lemma EdgeHasEntries(ws: Workspace, f: Forwarder, v: Forwarder) returns (a: Entry, k: nat)
    requires Edge(DeployedGraph(ws), f, v) || Edge(ResolvedGraph(ws), f, v)
    ensures a in EntriesOf(ws) && a.fwd == f && k < |EntriesOf(ws)| && EntriesOf(ws)[k].fwd == v
  {
    if Edge(DeployedGraph(ws), f, v) {
      DeployedEdge(ws, f, v);
      var b, i: nat, n :| IsFedBy(ws, f, v, b, i, n);
      a := b;
      k :| 0 <= k < |EntriesOf(ws)| && EntriesOf(ws)[k] == n;
    } else {
      a := EntryOfNode(ws, f, v);
      NeighboursAreNodes(ws, f, v);
      k :| 0 <= k < |NodesOf(ws)| && NodesOf(ws)[k] == v;
    }
  }

  /**
   The searched graph is the deployed graph if and only if every forwarder feeds exactly those that are the
   last ones deployed under the names it sends to.
   */
  lemma ResolvedIsDeployedIff(ws: Workspace)
    requires DistinctObjects(ws)
    ensures SearchIsFaithful(ws) <==> LastOnesAreFed(ws)
  {
    hide EntriesOf, ResolvedGraph, DeployedGraph, IsFed, IsLed, DistinctObjects;
    if LastOnesAreFed(ws) {
      forall f, v ensures Edge(DeployedGraph(ws), f, v) <==> Edge(ResolvedGraph(ws), f, v) {
        if Edge(DeployedGraph(ws), f, v) || Edge(ResolvedGraph(ws), f, v) {
          var a, k := EdgeHasEntries(ws, f, v);
          DeployedEdgeOf(ws, a, k);
          ResolvedEdgeOf(ws, a, k);
        }
      }
    }
    if SearchIsFaithful(ws) {
      forall a, k | a in EntriesOf(ws) && 0 <= k < |EntriesOf(ws)| ensures IsFed(ws, a, k) <==> IsLed(ws, a, k) {
        DeployedEdgeOf(ws, a, k);
        ResolvedEdgeOf(ws, a, k);
      }
    }
  }

  lemma SameEdgesSameCycles<T(!new)>(a: Graph<T>, b: Graph<T>)
    requires forall x, y :: Edge(a, x, y) ==> Edge(b, x, y)
    ensures Acyclic(b) ==> Acyclic(a)
  {
    forall p | IsClosedWalk(a, p) ensures IsClosedWalk(b, p) {
    }
  }

  /** Under that condition acceptance speaks for the deployed graph. */
  lemma AcceptanceCoversDeployment(ws: Workspace)
    requires DistinctObjects(ws) && LastOnesAreFed(ws)
    ensures Acyclic(ResolvedGraph(ws)) <==> Acyclic(DeployedGraph(ws))
  {
    hide ResolvedGraph, DeployedGraph, LastOnesAreFed, DistinctObjects;
    ResolvedIsDeployedIff(ws);
    SameEdgesSameCycles(ResolvedGraph(ws), DeployedGraph(ws));
    SameEdgesSameCycles(DeployedGraph(ws), ResolvedGraph(ws));
  }

  // ------------------------------------------------------------------ what the condition takes

  /** The frame of the catalogue is the frame that the forwarder receives. */
  ghost predicate FrameFits(ws: Workspace, n: Entry) {
    n.fwd.CanFrameForwarder? ==>
      forall f :: Receives(ws, n, f) <==> n.fwd.frameRef in CatalogueOf(ws) && f == CatalogueOf(ws)[n.fwd.frameRef]
  }

  ghost predicate CatalogueFits(ws: Workspace) {
    forall n :: n in EntriesOf(ws) ==> FrameFits(ws, n)
  }

  /** A socket has to be one of the sender's own controller. */
  predicate IsLocal(a: Entry, e: Egress, n: Entry) {
    e.EthSocketEgress? ==> n.home == a.home
  }

  /** Of the forwarders that go by the names sent to, the last one deployed, and no other, is local. */
  ghost predicate NamesLead(ws: Workspace, a: Entry, e: Egress) {
    forall k :: 0 <= k < |EntriesOf(ws)| && IsNamed(ws, a, e, EntriesOf(ws)[k]) ==>
      (IsLocal(a, e, EntriesOf(ws)[k]) <==> IsLastNamed(ws, a, e, k))
  }

  ghost predicate NamesLeadEverywhere(ws: Workspace) {
    forall a, i :: a in EntriesOf(ws) && 0 <= i < |a.fwd.egresses| ==> NamesLead(ws, a, a.fwd.egresses[i])
  }

  lemma ListensIffKeyed(ws: Workspace, n: Entry, p: Place)
    requires FrameFits(ws, n)
    ensures ListensAt(ws, n, p) <==>
              && KeyOf(ws, n).Some?
              && (p.SocketPlace? <==> KeyOf(ws, n).value.SocketKey?)
              && (p.SocketPlace? ==> KeyOf(ws, n).value == SocketKey(n.controller, p.socket, p.pdu) && p.home == n.home)
              && (p.BusPlace? ==> KeyOf(ws, n).value == BusKey(p.bus, p.canId))
  {
    hide CatalogueOf;
    if n.fwd.CanFrameForwarder? && n.fwd.frameRef in CatalogueOf(ws) {
      assert Receives(ws, n, CatalogueOf(ws)[n.fwd.frameRef]);
    }
  }

  lemma PassesOnIffIngress(ws: Workspace, a: Entry, pdu: string)
    requires FrameFits(ws, a)
    ensures PassesOn(ws, a, pdu) <==> IngressPdu(ResolverOf(ws), a.fwd) == Some(pdu)
  {
    hide CatalogueOf;
    if a.fwd.CanFrameForwarder? && a.fwd.frameRef in CatalogueOf(ws) {
      var f := CatalogueOf(ws)[a.fwd.frameRef];
      assert Receives(ws, a, f);
      assert |f.packedPdus| == 1 ==> f.packedPdus == [f.packedPdus[0]];
    }
  }

  lemma SendsIffTarget(ws: Workspace, a: Entry, e: Egress, p: Place)
    requires FrameFits(ws, a) && a.fwd in OwnerOf(EntriesOf(ws)) && OwnerOf(EntriesOf(ws))[a.fwd] == a.controller
    ensures SendsTo(ws, a, e, p) <==>
              && Target(ResolverOf(ws), a.fwd, e).Some?
              && (p.SocketPlace? <==> e.EthSocketEgress?)
              && (p.SocketPlace? ==>
                    p.home == a.home
                      && Target(ResolverOf(ws), a.fwd, e).value == SocketKey(a.controller, p.socket, p.pdu))
              && (p.BusPlace? ==> Target(ResolverOf(ws), a.fwd, e).value == BusKey(p.bus, p.canId))
  {
    hide OwnerOf, EntriesOf, CatalogueOf, PassesOn, IngressPdu;
    if e.EthSocketEgress? && p.SocketPlace? {
      PassesOnIffIngress(ws, a, p.pdu);
    }
  }

  /** Where the catalogue fits, to be fed is to be named and local. */
  lemma FedIffNamedAndLocal(ws: Workspace, a: Entry, e: Egress, n: Entry)
    requires DistinctObjects(ws) && a in EntriesOf(ws) && n in EntriesOf(ws) && FrameFits(ws, a) && FrameFits(ws, n)
    ensures Feeds(ws, a, e, n) <==> IsNamed(ws, a, e, n) && IsLocal(a, e, n)
  {
    hide EntriesOf, SendsTo, ListensAt, ResolverOf, KeyOf, FrameFits, Target;
    forall m | m in EntriesOf(ws) && m.fwd == a.fwd ensures m == a {
      SameEntry(ws, m, a);
    }
    OwnerIsController(EntriesOf(ws), a);
    forall p ensures SendsTo(ws, a, e, p) && ListensAt(ws, n, p) ==> IsNamed(ws, a, e, n) && IsLocal(a, e, n) {
      SendsIffTarget(ws, a, e, p);
      ListensIffKeyed(ws, n, p);
    }
    if IsNamed(ws, a, e, n) && IsLocal(a, e, n) {
      var key := KeyOf(ws, n).value;
      var p := if key.SocketKey? then SocketPlace(n.home, key.socket, key.pdu) else BusPlace(key.bus, key.canId);
      KeyKinds(ws, a, e, n);
      SendsIffTarget(ws, a, e, p);
      ListensIffKeyed(ws, n, p);
    }
  }

  lemma KeyKinds(ws: Workspace, a: Entry, e: Egress, n: Entry)
    ensures Target(ResolverOf(ws), a.fwd, e).Some? ==>
              (Target(ResolverOf(ws), a.fwd, e).value.SocketKey? <==> e.EthSocketEgress?)
    ensures KeyOf(ws, n).Some? && KeyOf(ws, n).value.SocketKey? ==> KeyOf(ws, n).value.controller == n.controller
  {
  }

  lemma SameTargetSameNames(ws: Workspace, a: Entry, e: Egress, d: Egress, k: nat)
    requires IsLastNamed(ws, a, d, k) && IsNamed(ws, a, e, EntriesOf(ws)[k])
    ensures IsLastNamed(ws, a, e, k)
  {
  }

  lemma SameNamesSameKind(ws: Workspace, a: Entry, e: Egress, d: Egress, n: Entry)
    requires IsNamed(ws, a, e, n) && IsNamed(ws, a, d, n)
    ensures e.EthSocketEgress? <==> d.EthSocketEgress?
  {
    KeyKinds(ws, a, e, n);
    KeyKinds(ws, a, d, n);
  }

  lemma LeadingNamesAreFed(ws: Workspace, a: Entry, k: nat)
    requires DistinctObjects(ws) && CatalogueFits(ws) && NamesLeadEverywhere(ws) && a in EntriesOf(ws)
             && k < |EntriesOf(ws)|
    ensures IsFed(ws, a, k) <==> IsLed(ws, a, k)
  {
    hide EntriesOf, Feeds, IsLastNamed, IsNamed, IsLocal, FrameFits, DistinctObjects;
    var n := EntriesOf(ws)[k];
    forall i | 0 <= i < |a.fwd.egresses|
      ensures Feeds(ws, a, a.fwd.egresses[i], n) <==> IsLastNamed(ws, a, a.fwd.egresses[i], k)
    {
      assert NamesLead(ws, a, a.fwd.egresses[i]);
      FedIffNamedAndLocal(ws, a, a.fwd.egresses[i], n);
      LastIsNamed(ws, a, a.fwd.egresses[i], k);
    }
  }

  lemma LastIsNamed(ws: Workspace, a: Entry, e: Egress, k: nat)
    requires k < |EntriesOf(ws)|
    ensures IsLastNamed(ws, a, e, k) ==> IsNamed(ws, a, e, EntriesOf(ws)[k])
  {
  }

  lemma FedNamesLead(ws: Workspace, a: Entry, i: nat, k: nat)
    requires DistinctObjects(ws) && CatalogueFits(ws) && a in EntriesOf(ws) && k < |EntriesOf(ws)|
             && i < |a.fwd.egresses|
    requires (IsFed(ws, a, k) <==> IsLed(ws, a, k)) && IsNamed(ws, a, a.fwd.egresses[i], EntriesOf(ws)[k])
    ensures IsLocal(a, a.fwd.egresses[i], EntriesOf(ws)[k]) <==> IsLastNamed(ws, a, a.fwd.egresses[i], k)
  {
    hide EntriesOf, Feeds, IsLastNamed, IsNamed, FrameFits, DistinctObjects;
    var e, n := a.fwd.egresses[i], EntriesOf(ws)[k];
    FedIffNamedAndLocal(ws, a, e, n);
    if IsLocal(a, e, n) {
      var j :| 0 <= j < |a.fwd.egresses| && IsLastNamed(ws, a, a.fwd.egresses[j], k);
      SameTargetSameNames(ws, a, e, a.fwd.egresses[j], k);
    }
    if IsLastNamed(ws, a, e, k) {
      var j :| 0 <= j < |a.fwd.egresses| && Feeds(ws, a, a.fwd.egresses[j], n);
      FedIffNamedAndLocal(ws, a, a.fwd.egresses[j], n);
      SameNamesSameKind(ws, a, e, a.fwd.egresses[j], n);
    }
  }

  /**
   Where the catalogue fits, the condition comes to this: for every egress, of all forwarders deployed under the
   names it sends to, the last one, and no other, is local to the sender.
   */
  lemma NamesLeadIff(ws: Workspace)
    requires DistinctObjects(ws) && CatalogueFits(ws)
    ensures LastOnesAreFed(ws) <==> NamesLeadEverywhere(ws)
  {
    hide EntriesOf, IsFed, IsLed, IsNamed, IsLocal, IsLastNamed, CatalogueFits, DistinctObjects;
    if NamesLeadEverywhere(ws) {
      forall a, k | a in EntriesOf(ws) && 0 <= k < |EntriesOf(ws)| ensures IsFed(ws, a, k) <==> IsLed(ws, a, k) {
        LeadingNamesAreFed(ws, a, k);
      }
    }
    if LastOnesAreFed(ws) {
      forall a, i | a in EntriesOf(ws) && 0 <= i < |a.fwd.egresses| ensures NamesLead(ws, a, a.fwd.egresses[i]) {
        forall k | 0 <= k < |EntriesOf(ws)| && IsNamed(ws, a, a.fwd.egresses[i], EntriesOf(ws)[k])
          ensures IsLocal(a, a.fwd.egresses[i], EntriesOf(ws)[k]) <==> IsLastNamed(ws, a, a.fwd.egresses[i], k)
        {
          FedNamesLead(ws, a, i, k);
        }
      }
    }
  }

  /** Different frames have different names, across all buses. */
  ghost predicate FrameNamesDiffer(ws: Workspace) {
    forall f, g :: f in DeclaredFrames(ws) && g in DeclaredFrames(ws) && f.name == g.name ==> f == g
  }

  lemma DeclaredMembers(ws: Workspace, f: CanFrame)
    ensures f in DeclaredFrames(ws) <==> exists b :: b in ws.buses && f in b.frames
  {
    Sequences.FlatMapMembers(ws.buses, (b: CanBus) => b.frames, f);
  }

  /** The catalogue fits when no name is given to two frames and every forwarder's frame is declared by its bus. */
  lemma DifferentNamesFit(ws: Workspace)
    requires FrameNamesDiffer(ws)
    requires forall n :: n in EntriesOf(ws) && n.fwd.CanFrameForwarder? ==> exists f :: Receives(ws, n, f)
    ensures CatalogueFits(ws)
  {
    hide EntriesOf, DeclaredFrames, Catalogued;
    forall n | n in EntriesOf(ws) && n.fwd.CanFrameForwarder? ensures FrameFits(ws, n) {
      var g :| Receives(ws, n, g);
      DeclaredMembers(ws, g);
      CatalogueKeepsLast(DeclaredFrames(ws), n.fwd.frameRef);
      forall f ensures Receives(ws, n, f)
        <==> n.fwd.frameRef in CatalogueOf(ws) && f == CatalogueOf(ws)[n.fwd.frameRef] {
        DeclaredMembers(ws, f);
      }
    }
  }
}
