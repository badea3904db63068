/**
 The forwarder graph of a workspace and its three-colour cycle detector.

 A forwarder receives a PDU on a socket or a CAN frame on a bus and sends it out again.
 The detector resolves each egress through two indexes and rejects every loop in the
 graph so obtained.
 */
module Forwarders {
  import opened Wrappers
  import opened Sequences
  import opened Graphs

  // ------------------------------------------------------------------ the workspace

  datatype Egress =
    | CanFrameEgress(bus: string, frameId: int)
    | EthSocketEgress(socket: string, extractPdu: Option<string>)

  /** `oid` is the object identity: the source keys its maps by `id(fwd)`. */
  datatype Forwarder =
    | PduForwarder(oid: nat, pduRef: string, egresses: seq<Egress>)
    | CanFrameForwarder(oid: nat, frameRef: string, egresses: seq<Egress>)

  type SocketForwarder = f: Forwarder | f.PduForwarder? witness PduForwarder(0, "", [])
  type BusForwarder = f: Forwarder | f.CanFrameForwarder? witness CanFrameForwarder(0, "", [])

  datatype Socket = Socket(name: string, forwarders: seq<SocketForwarder>)
  datatype CanInterface = CanInterface(bus: string, forwarders: seq<BusForwarder>)

  /** `oid` tells controllers apart: their names need not differ, not even within a workspace. */
  datatype Controller = Controller(oid: nat, name: string, sockets: seq<Socket>, canInterfaces: seq<CanInterface>)
  datatype CanFrame = CanFrame(name: string, canId: int, packedPdus: seq<string>)
  datatype CanBus = CanBus(name: string, frames: seq<CanFrame>)

  /** The controllers of all ECUs in order, and the CAN buses with the frames that they declare. */
  datatype Workspace = Workspace(controllers: seq<Controller>, buses: seq<CanBus>)

  // ------------------------------------------------------------------ the frame catalogue

  type Catalogue = map<string, CanFrame>

  function DeclaredFrames(ws: Workspace): seq<CanFrame> {
    FlatMap(ws.buses, (b: CanBus) => b.frames)
  }

  /** What a dictionary holds after assigning `start[frame.name] = frame` for each frame in turn. */
  function Catalogued(start: Catalogue, frames: seq<CanFrame>): Catalogue {
    if frames == [] then start
    else Catalogued(start, frames[..|frames| - 1])[frames[|frames| - 1].name := frames[|frames| - 1]]
  }

  /** One dictionary for the frames of all buses, by frame name. */
  function CatalogueOf(ws: Workspace): Catalogue {
    Catalogued(map[], DeclaredFrames(ws))
  }

  lemma {:induction false} CataloguedAppend(start: Catalogue, a: seq<CanFrame>, b: seq<CanFrame>)
    ensures Catalogued(start, a + b) == Catalogued(Catalogued(start, a), b)
  {
    if b == [] {
      assert a + b == a;
    } else {
      assert (a + b)[..|a + b| - 1] == a + b[..|b| - 1];
      CataloguedAppend(start, a, b[..|b| - 1]);
    }
  }

  /** The catalogue keeps, for each name, the last frame that has it, whatever its bus. */
  lemma {:induction false} CatalogueKeepsLast(frames: seq<CanFrame>, name: string)
    ensures name in Catalogued(map[], frames) <==> exists f :: f in frames && f.name == name
    ensures name in Catalogued(map[], frames) ==>
              exists i :: 0 <= i < |frames| && frames[i].name == name && frames[i] == Catalogued(map[], frames)[name]
                          && forall j :: i < j < |frames| ==> frames[j].name != name
  {
    if frames != [] {
      var n := |frames| - 1;
      var init := frames[..n];
      CatalogueKeepsLast(init, name);
      assert Catalogued(map[], frames) == Catalogued(map[], init)[frames[n].name := frames[n]];
      hide Catalogued;
      assert frames == init + [frames[n]];
      if frames[n].name == name {
        assert frames[n] in frames;
      } else if name in Catalogued(map[], frames) {
        var i :| 0 <= i < n && init[i].name == name && init[i] == Catalogued(map[], init)[name]
                 && forall j :: i < j < n ==> init[j].name != name;
        assert frames[i] == init[i] && forall j :: i < j < n ==> frames[j] == init[j];
      }
    }
  }

  method CatalogueFrames(frames: seq<CanFrame>, catalogue: Catalogue) returns (r: Catalogue)
    ensures r == Catalogued(catalogue, frames)
  {
    r := catalogue;
    for i := 0 to |frames|
      invariant r == Catalogued(catalogue, frames[..i])
    {
      assert frames[..i + 1][..i] == frames[..i];
      r := r[frames[i].name := frames[i]];
    }
    assert frames[..|frames|] == frames;
  }

  /** The catalogue, built by nested loops over buses and their frames. */
  method BuildFrameCatalogue(ws: Workspace) returns (catalogue: Catalogue)
    ensures catalogue == CatalogueOf(ws)
  {
    catalogue := map[];
    for i := 0 to |ws.buses|
      invariant catalogue == Catalogued(map[], FlatMap(ws.buses[..i], (b: CanBus) => b.frames))
    {
      catalogue := CatalogueFrames(ws.buses[i].frames, catalogue);
      FlatMapPrefix(ws.buses, (b: CanBus) => b.frames, i);
      CataloguedAppend(map[], FlatMap(ws.buses[..i], (b: CanBus) => b.frames), ws.buses[i].frames);
    }
    assert ws.buses[..|ws.buses|] == ws.buses;
  }

  // ------------------------------------------------------------------ keys and entries

  /** What the index is keyed by: controller name, socket name and PDU, or bus name and CAN id. */
  datatype Key =
    | SocketKey(controller: string, socket: string, pdu: string)
    | BusKey(bus: string, canId: int)

  /**
   One deployed forwarder with its controller (`home`), the controller's name and its carrier (socket or bus
   name).
   */
  datatype Entry = Entry(home: nat, controller: string, carrier: string, fwd: Forwarder)

  function SocketEntries(c: Controller, s: Socket): seq<Entry> {
    seq(|s.forwarders|, i requires 0 <= i < |s.forwarders| => Entry(c.oid, c.name, s.name, s.forwarders[i]))
  }

  /** The entries of the first `n` sockets of `c`. */
  function ControllerSocketEntriesUpTo(c: Controller, n: nat): seq<Entry>
    requires n <= |c.sockets|
  {
    if n == 0 then [] else ControllerSocketEntriesUpTo(c, n - 1) + SocketEntries(c, c.sockets[n - 1])
  }

  function ControllerSocketEntries(c: Controller): seq<Entry> {
    ControllerSocketEntriesUpTo(c, |c.sockets|)
  }

  function InterfaceEntries(c: Controller, i: CanInterface): seq<Entry> {
    seq(|i.forwarders|, k requires 0 <= k < |i.forwarders| => Entry(c.oid, c.name, i.bus, i.forwarders[k]))
  }

  /** The entries of the first `n` CAN interfaces of `c`. */
  function ControllerCanEntriesUpTo(c: Controller, n: nat): seq<Entry>
    requires n <= |c.canInterfaces|
  {
    if n == 0 then [] else ControllerCanEntriesUpTo(c, n - 1) + InterfaceEntries(c, c.canInterfaces[n - 1])
  }

  function ControllerCanEntries(c: Controller): seq<Entry> {
    ControllerCanEntriesUpTo(c, |c.canInterfaces|)
  }

  function SocketEntriesOf(ws: Workspace): seq<Entry> {
    FlatMap(ws.controllers, ControllerSocketEntries)
  }

  function CanEntriesOf(ws: Workspace): seq<Entry> {
    FlatMap(ws.controllers, ControllerCanEntries)
  }

  /** The detector's node list: PDU forwarders first, then CAN frame forwarders. */
  function EntriesOf(ws: Workspace): seq<Entry> {
    SocketEntriesOf(ws) + CanEntriesOf(ws)
  }

  function NodesOf(ws: Workspace): seq<Forwarder> {
    var es := EntriesOf(ws);
    seq(|es|, i requires 0 <= i < |es| => es[i].fwd)
  }

  function KeyOf(ws: Workspace, e: Entry): Option<Key> {
    match e.fwd
    case PduForwarder(_, pdu, _) => Some(SocketKey(e.controller, e.carrier, pdu))
    case CanFrameForwarder(_, frame, _) =>
      var catalogue := CatalogueOf(ws);
      if frame in catalogue then Some(BusKey(e.carrier, catalogue[frame].canId)) else None
  }

  // ------------------------------------------------------------------ index construction

  /** What a dictionary `start` holds after assigning `index[key] = fwd` for each entry in turn. */
  function Assigned(ws: Workspace, start: map<Key, Forwarder>, es: seq<Entry>): map<Key, Forwarder> {
    if es == [] then start
    else
      var rest := Assigned(ws, start, es[..|es| - 1]);
      var e := es[|es| - 1];
      if KeyOf(ws, e).Some? then rest[KeyOf(ws, e).value := e.fwd] else rest
  }

  function IndexOf(ws: Workspace, es: seq<Entry>): map<Key, Forwarder> {
    Assigned(ws, map[], es)
  }

  lemma {:induction false} AssignedAppend(ws: Workspace, start: map<Key, Forwarder>, a: seq<Entry>, b: seq<Entry>)
    ensures Assigned(ws, start, a + b) == Assigned(ws, Assigned(ws, start, a), b)
  {
    if b == [] {
      assert a + b == a;
    } else {
      assert (a + b)[..|a + b| - 1] == a + b[..|b| - 1];
      AssignedAppend(ws, start, a, b[..|b| - 1]);
    }
  }

  /** The index keeps, for each key, the last entry that has it. */
  lemma {:induction false} IndexKeepsLast(ws: Workspace, es: seq<Entry>, k: Key)
    ensures k in IndexOf(ws, es) <==> exists e :: e in es && KeyOf(ws, e) == Some(k)
    ensures k in IndexOf(ws, es) ==>
              exists i :: 0 <= i < |es| && KeyOf(ws, es[i]) == Some(k) && es[i].fwd == IndexOf(ws, es)[k]
                          && forall j :: i < j < |es| ==> KeyOf(ws, es[j]) != Some(k)
  {
    if es != [] {
      var n := |es| - 1;
      IndexKeepsLast(ws, es[..n], k);
      assert es == es[..n] + [es[n]];
      if KeyOf(ws, es[n]) != Some(k) && k in IndexOf(ws, es) {
        var i :| 0 <= i < n && KeyOf(ws, es[..n][i]) == Some(k) && es[..n][i].fwd == IndexOf(ws, es[..n])[k]
                 && forall j :: i < j < n ==> KeyOf(ws, es[..n][j]) != Some(k);
        assert forall j :: i < j < |es| ==> KeyOf(ws, es[j]) != Some(k) by {
          forall j | i < j < |es| ensures KeyOf(ws, es[j]) != Some(k) {
            if j < n { assert es[..n][j] == es[j]; }
          }
        }
      } else if KeyOf(ws, es[n]) == Some(k) {
        assert es[n] in es;
      }
    }
  }

  /** The innermost loop: one socket's forwarders are assigned into the index in order. */
  method IndexSocket(ws: Workspace, c: Controller, s: Socket, index: map<Key, Forwarder>)
    returns (r: map<Key, Forwarder>)
    ensures r == Assigned(ws, index, SocketEntries(c, s))
  {
    r := index;
    ghost var es := SocketEntries(c, s);
    for k := 0 to |s.forwarders|
      invariant r == Assigned(ws, index, es[..k])
    {
      var f := s.forwarders[k];
      assert es[..k + 1][..k] == es[..k];
      r := r[SocketKey(c.name, s.name, f.pduRef) := f];
    }
    assert es[..|s.forwarders|] == es;
  }

  method IndexSocketsOf(ws: Workspace, c: Controller, index: map<Key, Forwarder>) returns (r: map<Key, Forwarder>)
    ensures r == Assigned(ws, index, ControllerSocketEntries(c))
  {
    r := index;
    for j := 0 to |c.sockets|
      invariant r == Assigned(ws, index, ControllerSocketEntriesUpTo(c, j))
    {
      r := IndexSocket(ws, c, c.sockets[j], r);
      AssignedAppend(ws, index, ControllerSocketEntriesUpTo(c, j), SocketEntries(c, c.sockets[j]));
    }
  }

  /** The PDU forwarder index, built by nested loops over controllers and sockets. */
  method BuildSocketIndex(ws: Workspace) returns (index: map<Key, Forwarder>)
    ensures index == IndexOf(ws, SocketEntriesOf(ws))
  {
    index := map[];
    for i := 0 to |ws.controllers|
      invariant index == IndexOf(ws, FlatMap(ws.controllers[..i], ControllerSocketEntries))
    {
      var c := ws.controllers[i];
      index := IndexSocketsOf(ws, c, index);
      FlatMapPrefix(ws.controllers, ControllerSocketEntries, i);
      AssignedAppend(ws, map[], FlatMap(ws.controllers[..i], ControllerSocketEntries), ControllerSocketEntries(c));
    }
    assert ws.controllers[..|ws.controllers|] == ws.controllers;
  }

  /** The innermost loop: one CAN interface's forwarders are assigned into the index in order. */
  method IndexCanInterface(ws: Workspace, c: Controller, b: CanInterface, catalogue: Catalogue,
                           index: map<Key, Forwarder>)
    returns (r: map<Key, Forwarder>)
    requires catalogue == CatalogueOf(ws)
    ensures r == Assigned(ws, index, InterfaceEntries(c, b))
  {
    r := index;
    ghost var es := InterfaceEntries(c, b);
    for k := 0 to |b.forwarders|
      invariant r == Assigned(ws, index, es[..k])
    {
      var f := b.forwarders[k];
      assert es[..k + 1][..k] == es[..k];
      if f.frameRef in catalogue {
        r := r[BusKey(b.bus, catalogue[f.frameRef].canId) := f];
      }
    }
    assert es[..|b.forwarders|] == es;
  }

  method IndexCanInterfacesOf(ws: Workspace, c: Controller, catalogue: Catalogue, index: map<Key, Forwarder>)
    returns (r: map<Key, Forwarder>)
    requires catalogue == CatalogueOf(ws)
    ensures r == Assigned(ws, index, ControllerCanEntries(c))
  {
    r := index;
    for j := 0 to |c.canInterfaces|
      invariant r == Assigned(ws, index, ControllerCanEntriesUpTo(c, j))
    {
      r := IndexCanInterface(ws, c, c.canInterfaces[j], catalogue, r);
      AssignedAppend(ws, index, ControllerCanEntriesUpTo(c, j), InterfaceEntries(c, c.canInterfaces[j]));
    }
  }

  /** The CAN forwarder index; a forwarder whose frame is not in the catalogue gets no key. */
  method BuildCanIndex(ws: Workspace, catalogue: Catalogue) returns (index: map<Key, Forwarder>)
    requires catalogue == CatalogueOf(ws)
    ensures index == IndexOf(ws, CanEntriesOf(ws))
  {
    index := map[];
    for i := 0 to |ws.controllers|
      invariant index == IndexOf(ws, FlatMap(ws.controllers[..i], ControllerCanEntries))
    {
      var c := ws.controllers[i];
      index := IndexCanInterfacesOf(ws, c, catalogue, index);
      FlatMapPrefix(ws.controllers, ControllerCanEntries, i);
      AssignedAppend(ws, map[], FlatMap(ws.controllers[..i], ControllerCanEntries), ControllerCanEntries(c));
    }
    assert ws.controllers[..|ws.controllers|] == ws.controllers;
  }

  /** `_controller_of`: the owner of each forwarder, later entries replacing earlier ones. */
  function OwnerOf(es: seq<Entry>): map<Forwarder, string> {
    if es == [] then map[] else OwnerOf(es[..|es| - 1])[es[|es| - 1].fwd := es[|es| - 1].controller]
  }

  // ------------------------------------------------------------------ resolution

  /** The look-up tables the detector is built with. */
  datatype Resolver = Resolver(
    frames: Catalogue,
    socketIndex: map<Key, Forwarder>,
    canIndex: map<Key, Forwarder>,
    controllerOf: map<Forwarder, string>)

  function ResolverOf(ws: Workspace): Resolver {
    Resolver(CatalogueOf(ws), IndexOf(ws, SocketEntriesOf(ws)), IndexOf(ws, CanEntriesOf(ws)), OwnerOf(EntriesOf(ws)))
  }

  function Lookup<K, V>(m: map<K, V>, k: K): Option<V> {
    if k in m then Some(m[k]) else None
  }

  function IngressPdu(r: Resolver, f: Forwarder): Option<string> {
    match f
    case PduForwarder(_, pdu, _) => Some(pdu)
    case CanFrameForwarder(_, frame, _) =>
      if frame in r.frames && |r.frames[frame].packedPdus| == 1 then Some(r.frames[frame].packedPdus[0]) else None
  }

  /** The place an egress of `f` sends to, or `None` when that cannot be determined. */
  function Target(r: Resolver, f: Forwarder, e: Egress): Option<Key> {
    match e
    case EthSocketEgress(socket, extract) =>
      var pdu := if extract.Some? then extract else IngressPdu(r, f);
      if pdu.None? || f !in r.controllerOf then None
      else Some(SocketKey(r.controllerOf[f], socket, pdu.value))
    case CanFrameEgress(bus, id) => Some(BusKey(bus, id))
  }

  /** The forwarder an egress leads to under the two indexes, if any. */
  function Resolve(r: Resolver, f: Forwarder, e: Egress): Option<Forwarder> {
    match Target(r, f, e)
    case None => None
    case Some(k) => Lookup(if k.SocketKey? then r.socketIndex else r.canIndex, k)
  }

  /** The forwarders the first `n` egresses of `f` lead to. */
  function NeighboursOf(r: Resolver, f: Forwarder, n: nat): seq<Forwarder>
    requires n <= |f.egresses|
  {
    if n == 0 then []
    else
      var next := Resolve(r, f, f.egresses[n - 1]);
      NeighboursOf(r, f, n - 1) + if next.Some? then [next.value] else []
  }

  function GraphOver(r: Resolver, nodes: seq<Forwarder>): Graph<Forwarder> {
    map f | f in nodes :: NeighboursOf(r, f, |f.egresses|)
  }

  /** The resolved forwarder graph of a workspace. */
  function ResolvedGraph(ws: Workspace): Graph<Forwarder> {
    GraphOver(ResolverOf(ws), NodesOf(ws))
  }

  lemma {:induction false} NeighbourIsResolved(r: Resolver, f: Forwarder, n: nat, v: Forwarder)
    requires n <= |f.egresses|
    ensures v in NeighboursOf(r, f, n) <==> exists i :: 0 <= i < n && Resolve(r, f, f.egresses[i]) == Some(v)
  {
    if n > 0 {
      NeighbourIsResolved(r, f, n - 1, v);
    }
  }

  lemma EntryIsNode(ws: Workspace, n: Entry)
    requires n in EntriesOf(ws)
    ensures n.fwd in NodesOf(ws)
  {
    var m :| 0 <= m < |EntriesOf(ws)| && EntriesOf(ws)[m] == n;
    assert NodesOf(ws)[m] == n.fwd;
  }

  /** An egress resolves exactly when some deployed forwarder listens at its target; it resolves to one of them. */
  lemma ResolvedListens(ws: Workspace, f: Forwarder, e: Egress)
    ensures Resolve(ResolverOf(ws), f, e).Some? <==>
              exists n ::
                  n in EntriesOf(ws) && Target(ResolverOf(ws), f, e).Some?
                    && KeyOf(ws, n) == Target(ResolverOf(ws), f, e)
    ensures Resolve(ResolverOf(ws), f, e).Some? ==>
              exists n :: n in EntriesOf(ws) && KeyOf(ws, n) == Target(ResolverOf(ws), f, e)
                          && n.fwd == Resolve(ResolverOf(ws), f, e).value
  {
    var r := ResolverOf(ws);
    if Target(r, f, e).Some? {
      var k := Target(r, f, e).value;
      var es := if k.SocketKey? then SocketEntriesOf(ws) else CanEntriesOf(ws);
      IndexKeepsLast(ws, es, k);
      SocketEntriesListenOnSockets(ws);
      if n :| n in EntriesOf(ws) && KeyOf(ws, n) == Some(k) {
        assert n in es;
      }
    }
  }

  lemma SocketEntriesListenOnSockets(ws: Workspace)
    ensures forall n :: n in SocketEntriesOf(ws) ==> n.fwd.PduForwarder?
    ensures forall n :: n in CanEntriesOf(ws) ==> n.fwd.CanFrameForwarder?
  {
    forall n | n in SocketEntriesOf(ws) ensures n.fwd.PduForwarder? {
      FlatMapMembers(ws.controllers, ControllerSocketEntries, n);
      var c :| c in ws.controllers && n in ControllerSocketEntries(c);
      SocketEntryKinds(c, |c.sockets|);
    }
    forall n | n in CanEntriesOf(ws) ensures n.fwd.CanFrameForwarder? {
      FlatMapMembers(ws.controllers, ControllerCanEntries, n);
      var c :| c in ws.controllers && n in ControllerCanEntries(c);
      CanEntryKinds(c, |c.canInterfaces|);
    }
  }

  lemma {:induction false} SocketEntryKinds(c: Controller, n: nat)
    requires n <= |c.sockets|
    ensures forall e :: e in ControllerSocketEntriesUpTo(c, n) ==> e.fwd.PduForwarder?
  {
    if n > 0 {
      SocketEntryKinds(c, n - 1);
    }
  }

  lemma {:induction false} CanEntryKinds(c: Controller, n: nat)
    requires n <= |c.canInterfaces|
    ensures forall e :: e in ControllerCanEntriesUpTo(c, n) ==> e.fwd.CanFrameForwarder?
  {
    if n > 0 {
      CanEntryKinds(c, n - 1);
    }
  }

  lemma NeighboursAreNodes(ws: Workspace, f: Forwarder, v: Forwarder)
    requires Edge(ResolvedGraph(ws), f, v)
    ensures v in NodesOf(ws)
  {
    var r := ResolverOf(ws);
    NeighbourIsResolved(r, f, |f.egresses|, v);
    var i :| 0 <= i < |f.egresses| && Resolve(r, f, f.egresses[i]) == Some(v);
    ResolvedListens(ws, f, f.egresses[i]);
    var n :| n in EntriesOf(ws) && n.fwd == v;
    EntryIsNode(ws, n);
  }
}
