/**
 The forwarder graph read off the workspace itself: where every forwarder stands, in which order, and to which
 forwarder an egress leads. Neither the entry lists nor the indexes of the detector occur in these definitions.
 */
module ForwarderHops {
  import opened Wrappers
  import opened Sequences
  import opened Graphs
  import opened Forwarders

  // ------------------------------------------------------------------ places in the workspace

  /** A place for a forwarder: a controller, one of its sockets or CAN interfaces, and a position there. */
  datatype Spot = Spot(onBus: bool, controller: nat, carrier: nat, index: nat)

  predicate IsSpot(ws: Workspace, s: Spot) {
    && s.controller < |ws.controllers|
    && var c := ws.controllers[s.controller];
       if s.onBus then s.carrier < |c.canInterfaces| && s.index < |c.canInterfaces[s.carrier].forwarders|
       else s.carrier < |c.sockets| && s.index < |c.sockets[s.carrier].forwarders|
  }

  /** Sockets come before CAN interfaces; then the order is that of the workspace. */
  predicate Before(s: Spot, t: Spot) {
    || (!s.onBus && t.onBus)
    || (s.onBus == t.onBus
        && (s.controller < t.controller
            || (s.controller == t.controller
                && (s.carrier < t.carrier || (s.carrier == t.carrier && s.index < t.index)))))
  }

  function ForwarderAt(ws: Workspace, s: Spot): Forwarder
    requires IsSpot(ws, s)
  {
    var c := ws.controllers[s.controller];
    if s.onBus then c.canInterfaces[s.carrier].forwarders[s.index] else c.sockets[s.carrier].forwarders[s.index]
  }

  function CarrierAt(ws: Workspace, s: Spot): string
    requires IsSpot(ws, s)
  {
    var c := ws.controllers[s.controller];
    if s.onBus then c.canInterfaces[s.carrier].bus else c.sockets[s.carrier].name
  }

  function EntryAt(ws: Workspace, s: Spot): Entry
    requires IsSpot(ws, s)
  {
    var c := ws.controllers[s.controller];
    Entry(c.oid, c.name, CarrierAt(ws, s), ForwarderAt(ws, s))
  }

  predicate Stands(ws: Workspace, f: Forwarder) {
    || (exists c, s :: c in ws.controllers && s in c.sockets && f in s.forwarders)
    || (exists c, i :: c in ws.controllers && i in c.canInterfaces && f in i.forwarders)
  }

  // ------------------------------------------------------------------ the entries are the places, in order

  /** `es` are the entries at `spots`, which come in order. */
  ghost predicate Enumerates(ws: Workspace, spots: seq<Spot>, es: seq<Entry>) {
    && |spots| == |es|
    && (forall k :: 0 <= k < |spots| ==> IsSpot(ws, spots[k]) && es[k] == EntryAt(ws, spots[k]))
    && forall j, k :: 0 <= j < k < |spots| ==> Before(spots[j], spots[k])
  }

  lemma EnumeratesConcat(ws: Workspace, a: seq<Spot>, es: seq<Entry>, b: seq<Spot>, fs: seq<Entry>)
    requires Enumerates(ws, a, es) && Enumerates(ws, b, fs)
    requires forall s, t :: s in a && t in b ==> Before(s, t)
    ensures Enumerates(ws, a + b, es + fs)
  {
    forall j, k | 0 <= j < k < |a + b| ensures Before((a + b)[j], (a + b)[k]) {
      if j < |a| <= k {
        assert a[j] in a && b[k - |a|] in b;
      }
    }
  }

  function CarrierCount(ws: Workspace, onBus: bool, i: nat): nat
    requires i < |ws.controllers|
  {
    if onBus then |ws.controllers[i].canInterfaces| else |ws.controllers[i].sockets|
  }

  function CarrierEntries(ws: Workspace, onBus: bool, i: nat, j: nat): seq<Entry>
    requires i < |ws.controllers| && j < CarrierCount(ws, onBus, i)
  {
    var c := ws.controllers[i];
    if onBus then InterfaceEntries(c, c.canInterfaces[j]) else SocketEntries(c, c.sockets[j])
  }

  function EntriesUpTo(ws: Workspace, onBus: bool, i: nat, n: nat): seq<Entry>
    requires i < |ws.controllers| && n <= CarrierCount(ws, onBus, i)
  {
    var c := ws.controllers[i];
    if onBus then ControllerCanEntriesUpTo(c, n) else ControllerSocketEntriesUpTo(c, n)
  }

  lemma CarrierSpots(ws: Workspace, onBus: bool, i: nat, j: nat) returns (spots: seq<Spot>)
    requires i < |ws.controllers| && j < CarrierCount(ws, onBus, i)
    ensures Enumerates(ws, spots, CarrierEntries(ws, onBus, i, j))
    ensures forall s :: s in spots <==> IsSpot(ws, s) && s.onBus == onBus && s.controller == i && s.carrier == j
  {
    spots := seq(|CarrierEntries(ws, onBus, i, j)|, k requires 0 <= k => Spot(onBus, i, j, k));
    forall s | IsSpot(ws, s) && s.onBus == onBus && s.controller == i && s.carrier == j ensures s in spots {
      assert spots[s.index] == s;
    }
  }

  lemma {:induction false} SpotsUpTo(ws: Workspace, onBus: bool, i: nat, n: nat) returns (spots: seq<Spot>)
    requires i < |ws.controllers| && n <= CarrierCount(ws, onBus, i)
    ensures Enumerates(ws, spots, EntriesUpTo(ws, onBus, i, n))
    ensures forall s :: s in spots <==> IsSpot(ws, s) && s.onBus == onBus && s.controller == i && s.carrier < n
    decreases n
  {
    if n == 0 {
      spots := [];
    } else {
      var before := SpotsUpTo(ws, onBus, i, n - 1);
      var last := CarrierSpots(ws, onBus, i, n - 1);
      EnumeratesConcat(ws, before, EntriesUpTo(ws, onBus, i, n - 1), last, CarrierEntries(ws, onBus, i, n - 1));
      spots := before + last;
    }
  }

  function Listing(onBus: bool): Controller -> seq<Entry> {
    if onBus then ControllerCanEntries else ControllerSocketEntries
  }

  lemma {:induction false} SpotsOfControllers(ws: Workspace, onBus: bool, n: nat) returns (spots: seq<Spot>)
    requires n <= |ws.controllers|
    ensures Enumerates(ws, spots, FlatMap(ws.controllers[..n], Listing(onBus)))
    ensures forall s :: s in spots <==> IsSpot(ws, s) && s.onBus == onBus && s.controller < n
    decreases n
  {
    if n == 0 {
      spots := [];
    } else {
      var before := SpotsOfControllers(ws, onBus, n - 1);
      var last := SpotsUpTo(ws, onBus, n - 1, CarrierCount(ws, onBus, n - 1));
      FlatMapPrefix(ws.controllers, Listing(onBus), n - 1);
      assert Listing(onBus)(ws.controllers[n - 1]) == EntriesUpTo(ws, onBus, n - 1, CarrierCount(ws, onBus, n - 1));
      EnumeratesConcat(ws, before, FlatMap(ws.controllers[..n - 1], Listing(onBus)), last,
                       Listing(onBus)(ws.controllers[n - 1]));
      spots := before + last;
    }
  }

  /** The socket entries and the CAN entries are the entries at the places of each kind, in order. */
  lemma SpotsOfKind(ws: Workspace, onBus: bool) returns (spots: seq<Spot>)
    ensures Enumerates(ws, spots, if onBus then CanEntriesOf(ws) else SocketEntriesOf(ws))
    ensures forall s :: s in spots <==> IsSpot(ws, s) && s.onBus == onBus
  {
    spots := SpotsOfControllers(ws, onBus, |ws.controllers|);
    assert ws.controllers[..|ws.controllers|] == ws.controllers;
  }

  /** The entries of a workspace are the entries at all its places, each once, in order. */
  lemma EntriesInOrder(ws: Workspace) returns (spots: seq<Spot>)
    ensures Enumerates(ws, spots, EntriesOf(ws))
    ensures forall s :: s in spots <==> IsSpot(ws, s)
  {
    var sockets := SpotsOfKind(ws, false);
    var buses := SpotsOfKind(ws, true);
    EnumeratesConcat(ws, sockets, SocketEntriesOf(ws), buses, CanEntriesOf(ws));
    spots := sockets + buses;
  }

  lemma SpotStands(ws: Workspace, s: Spot)
    requires IsSpot(ws, s)
    ensures Stands(ws, ForwarderAt(ws, s))
  {
    var c := ws.controllers[s.controller];
    assert c in ws.controllers;
    if s.onBus {
      assert c.canInterfaces[s.carrier] in c.canInterfaces;
    } else {
      assert c.sockets[s.carrier] in c.sockets;
    }
  }

  lemma SocketSpot(ws: Workspace, c: Controller, s: Socket, f: Forwarder) returns (p: Spot)
    requires c in ws.controllers && s in c.sockets && f in s.forwarders
    ensures IsSpot(ws, p) && ForwarderAt(ws, p) == f
  {
    var i :| 0 <= i < |ws.controllers| && ws.controllers[i] == c;
    var j :| 0 <= j < |c.sockets| && c.sockets[j] == s;
    var k :| 0 <= k < |s.forwarders| && s.forwarders[k] == f;
    p := Spot(false, i, j, k);
  }

  lemma BusSpot(ws: Workspace, c: Controller, b: CanInterface, f: Forwarder) returns (p: Spot)
    requires c in ws.controllers && b in c.canInterfaces && f in b.forwarders
    ensures IsSpot(ws, p) && ForwarderAt(ws, p) == f
  {
    var i :| 0 <= i < |ws.controllers| && ws.controllers[i] == c;
    var j :| 0 <= j < |c.canInterfaces| && c.canInterfaces[j] == b;
    var k :| 0 <= k < |b.forwarders| && b.forwarders[k] == f;
    p := Spot(true, i, j, k);
  }

  lemma StandsAtSpot(ws: Workspace, f: Forwarder)
    ensures Stands(ws, f) <==> exists s :: IsSpot(ws, s) && ForwarderAt(ws, s) == f
  {
    if s :| IsSpot(ws, s) && ForwarderAt(ws, s) == f {
      SpotStands(ws, s);
    }
    hide IsSpot, ForwarderAt;
    if c, s :| c in ws.controllers && s in c.sockets && f in s.forwarders {
      var p := SocketSpot(ws, c, s, f);
    }
    if c, b :| c in ws.controllers && b in c.canInterfaces && f in b.forwarders {
      var p := BusSpot(ws, c, b, f);
    }
  }

  /** The nodes of the graph are the forwarders of all sockets and CAN interfaces. */
  lemma NodesStand(ws: Workspace, f: Forwarder)
    ensures f in NodesOf(ws) <==> Stands(ws, f)
  {
    var spots := EntriesInOrder(ws);
    StandsAtSpot(ws, f);
    if f in NodesOf(ws) {
      var k :| 0 <= k < |NodesOf(ws)| && NodesOf(ws)[k] == f;
      assert IsSpot(ws, spots[k]) && ForwarderAt(ws, spots[k]) == f;
    }
    if s :| IsSpot(ws, s) && ForwarderAt(ws, s) == f {
      var k :| 0 <= k < |spots| && spots[k] == s;
      assert NodesOf(ws)[k] == f;
    }
  }

  // ------------------------------------------------------------------ frames by name

  predicate IsFrame(ws: Workspace, b: nat, k: nat) {
    b < |ws.buses| && k < |ws.buses[b].frames|
  }

  /** The last frame of the name that any bus declares. */
  ghost predicate IsLastFrame(ws: Workspace, b: nat, k: nat, name: string) {
    && IsFrame(ws, b, k) && ws.buses[b].frames[k].name == name
    && forall c: nat, m: nat :: IsFrame(ws, c, m) && (b < c || (b == c && k < m)) ==> ws.buses[c].frames[m].name != name
  }

  ghost predicate GoesByName(ws: Workspace, name: string, f: CanFrame) {
    exists b: nat, k: nat :: IsLastFrame(ws, b, k, name) && ws.buses[b].frames[k] == f
  }

  function FramesUpTo(ws: Workspace, n: nat): seq<CanFrame>
    requires n <= |ws.buses|
  {
    FlatMap(ws.buses[..n], (b: CanBus) => b.frames)
  }

  /** Position `m` of the frames of the first `n` buses is frame `k` of bus `b`, and what follows it follows there. */
  ghost predicate FrameLies(ws: Workspace, n: nat, m: nat, b: nat, k: nat)
    requires n <= |ws.buses|
  {
    && b < n && IsFrame(ws, b, k) && m < |FramesUpTo(ws, n)| && FramesUpTo(ws, n)[m] == ws.buses[b].frames[k]
    && forall c: nat, l: nat :: c < n && IsFrame(ws, c, l) && (b < c || (b == c && k < l)) ==>
         exists j :: m < j < |FramesUpTo(ws, n)| && FramesUpTo(ws, n)[j] == ws.buses[c].frames[l]
  }

  lemma FramesAppend(ws: Workspace, n: nat)
    requires n < |ws.buses|
    ensures FramesUpTo(ws, n + 1) == FramesUpTo(ws, n) + ws.buses[n].frames
  {
    FlatMapPrefix(ws.buses, (b: CanBus) => b.frames, n);
  }

  lemma {:induction false} FramePosition(ws: Workspace, n: nat, b: nat, k: nat) returns (m: nat)
    requires n <= |ws.buses| && b < n && IsFrame(ws, b, k)
    ensures m < |FramesUpTo(ws, n)| && FramesUpTo(ws, n)[m] == ws.buses[b].frames[k]
    ensures b == n - 1 ==> m == |FramesUpTo(ws, n - 1)| + k
    decreases n
  {
    FramesAppend(ws, n - 1);
    if b == n - 1 {
      m := |FramesUpTo(ws, n - 1)| + k;
    } else {
      m := FramePosition(ws, n - 1, b, k);
    }
  }

  lemma {:induction false} FrameOfPosition(ws: Workspace, n: nat, m: nat) returns (b: nat, k: nat)
    requires n <= |ws.buses| && m < |FramesUpTo(ws, n)|
    ensures FrameLies(ws, n, m, b, k)
    decreases n
  {
    FramesAppend(ws, n - 1);
    var before := |FramesUpTo(ws, n - 1)|;
    if m < before {
      b, k := FrameOfPosition(ws, n - 1, m);
      forall c: nat, l: nat | c < n && IsFrame(ws, c, l) && (b < c || (b == c && k < l))
        ensures exists j :: m < j < |FramesUpTo(ws, n)| && FramesUpTo(ws, n)[j] == ws.buses[c].frames[l]
      {
        if c < n - 1 {
          var j :| m < j < before && FramesUpTo(ws, n - 1)[j] == ws.buses[c].frames[l];
          assert FramesUpTo(ws, n)[j] == ws.buses[c].frames[l];
        } else {
          assert FramesUpTo(ws, n)[before + l] == ws.buses[c].frames[l];
        }
      }
    } else {
      b, k := n - 1, m - before;
      forall c: nat, l: nat | c < n && IsFrame(ws, c, l) && (b < c || (b == c && k < l))
        ensures exists j :: m < j < |FramesUpTo(ws, n)| && FramesUpTo(ws, n)[j] == ws.buses[c].frames[l]
      {
        assert FramesUpTo(ws, n)[before + l] == ws.buses[c].frames[l];
      }
    }
  }

  lemma LastFrameIsUnique(ws: Workspace, name: string, b: nat, k: nat, c: nat, m: nat)
    requires IsLastFrame(ws, b, k, name) && IsLastFrame(ws, c, m, name)
    ensures b == c && k == m
  {
  }

  lemma FrameIsDeclared(ws: Workspace, name: string, f: CanFrame)
    requires GoesByName(ws, name, f)
    ensures f in DeclaredFrames(ws) && f.name == name
  {
    var c: nat, m: nat :| IsLastFrame(ws, c, m, name) && ws.buses[c].frames[m] == f;
    assert ws.buses[..|ws.buses|] == ws.buses;
    var p := FramePosition(ws, |ws.buses|, c, m);
  }

  /** The catalogue holds the last frame of each name. */
  lemma CatalogueGoesByName(ws: Workspace, name: string, f: CanFrame)
    ensures GoesByName(ws, name, f) <==> name in CatalogueOf(ws) && CatalogueOf(ws)[name] == f
  {
    var frames := DeclaredFrames(ws);
    var all := |ws.buses|;
    assert ws.buses[..all] == ws.buses;
    CatalogueKeepsLast(frames, name);
    if name in CatalogueOf(ws) {
      var i :| 0 <= i < |frames| && frames[i].name == name && frames[i] == CatalogueOf(ws)[name]
               && forall j :: i < j < |frames| ==> frames[j].name != name;
      var b, k := FrameOfPosition(ws, all, i);
      assert IsLastFrame(ws, b, k, name);
      if GoesByName(ws, name, f) {
        var c: nat, m: nat :| IsLastFrame(ws, c, m, name) && ws.buses[c].frames[m] == f;
        LastFrameIsUnique(ws, name, b, k, c, m);
      }
    }
    if GoesByName(ws, name, f) {
      FrameIsDeclared(ws, name, f);
    }
  }

  // ------------------------------------------------------------------ hops

  /** `s` is on a socket of this controller name, socket name and PDU. */
  predicate OnSocket(ws: Workspace, s: Spot, controller: string, socket: string, pdu: string) {
    && IsSpot(ws, s) && !s.onBus
    && ws.controllers[s.controller].name == controller
    && ws.controllers[s.controller].sockets[s.carrier].name == socket
    && ws.controllers[s.controller].sockets[s.carrier].forwarders[s.index].pduRef == pdu
  }

  /** `s` is on an interface of this bus, for a frame by whose name a frame of this id goes. */
  ghost predicate OnBus(ws: Workspace, s: Spot, bus: string, canId: int) {
    && IsSpot(ws, s) && s.onBus
    && ws.controllers[s.controller].canInterfaces[s.carrier].bus == bus
    && exists f: CanFrame :: f.canId == canId
         && GoesByName(ws, ws.controllers[s.controller].canInterfaces[s.carrier].forwarders[s.index].frameRef, f)
  }

  ghost predicate IsLastOnSocket(ws: Workspace, s: Spot, controller: string, socket: string, pdu: string) {
    && OnSocket(ws, s, controller, socket, pdu)
    && forall t :: OnSocket(ws, t, controller, socket, pdu) ==> t == s || Before(t, s)
  }

  ghost predicate IsLastOnBus(ws: Workspace, s: Spot, bus: string, canId: int) {
    OnBus(ws, s, bus, canId) && forall t :: OnBus(ws, t, bus, canId) ==> t == s || Before(t, s)
  }

  /** The last place of the forwarder, should the same object stand at several. */
  ghost predicate IsLastPlace(ws: Workspace, s: Spot, f: Forwarder) {
    && IsSpot(ws, s) && ForwarderAt(ws, s) == f
    && forall t :: IsSpot(ws, t) && ForwarderAt(ws, t) == f ==> t == s || Before(t, s)
  }

  ghost predicate IsOwner(ws: Workspace, f: Forwarder, name: string) {
    exists s :: IsSpot(ws, s) && IsLastPlace(ws, s, f) && ws.controllers[s.controller].name == name
  }

  /** The PDU that a forwarder receives: its own, or the only one that the frame of its name packs. */
  ghost predicate Takes(ws: Workspace, f: Forwarder, pdu: string) {
    match f
    case PduForwarder(_, own, _) => pdu == own
    case CanFrameForwarder(_, name, _) => exists g :: GoesByName(ws, name, g) && g.packedPdus == [pdu]
  }

  ghost predicate Emits(ws: Workspace, f: Forwarder, extract: Option<string>, pdu: string) {
    if extract.Some? then pdu == extract.value else Takes(ws, f, pdu)
  }

  /**
   Where an egress leads: to the last forwarder for the PDU on a socket of the name, of a controller named like
   the sender's; or to the last forwarder for the CAN id on the bus.
   */
  ghost predicate LeadsTo(ws: Workspace, f: Forwarder, e: Egress, v: Forwarder) {
    match e
    case EthSocketEgress(socket, extract) =>
      exists name, pdu, t ::
        && IsOwner(ws, f, name) && Emits(ws, f, extract, pdu)
        && IsSpot(ws, t) && IsLastOnSocket(ws, t, name, socket, pdu) && ForwarderAt(ws, t) == v
    case CanFrameEgress(bus, id) => exists t :: IsSpot(ws, t) && IsLastOnBus(ws, t, bus, id) && ForwarderAt(ws, t) == v
  }

  ghost predicate Hop(ws: Workspace, f: Forwarder, v: Forwarder) {
    Stands(ws, f) && exists i :: 0 <= i < |f.egresses| && LeadsTo(ws, f, f.egresses[i], v)
  }

  // ------------------------------------------------------------------ the detector's graph is that of the hops

  lemma SocketKeyed(ws: Workspace, s: Spot, controller: string, socket: string, pdu: string)
    requires IsSpot(ws, s)
    ensures KeyOf(ws, EntryAt(ws, s)) == Some(SocketKey(controller, socket, pdu))
            <==> OnSocket(ws, s, controller, socket, pdu)
  {
    hide CatalogueOf;
  }

  lemma BusKeyed(ws: Workspace, s: Spot, bus: string, canId: int)
    requires IsSpot(ws, s)
    ensures KeyOf(ws, EntryAt(ws, s)) == Some(BusKey(bus, canId)) <==> OnBus(ws, s, bus, canId)
  {
    hide CatalogueOf, GoesByName;
    if s.onBus {
      var name := ws.controllers[s.controller].canInterfaces[s.carrier].forwarders[s.index].frameRef;
      forall f ensures GoesByName(ws, name, f) <==> name in CatalogueOf(ws) && CatalogueOf(ws)[name] == f {
        CatalogueGoesByName(ws, name, f);
      }
      assert name in CatalogueOf(ws) ==> GoesByName(ws, name, CatalogueOf(ws)[name]);
    }
  }

  /** The place has the key. */
  ghost predicate HasKey(ws: Workspace, s: Spot, key: Key) {
    match key
    case SocketKey(controller, socket, pdu) => OnSocket(ws, s, controller, socket, pdu)
    case BusKey(bus, canId) => OnBus(ws, s, bus, canId)
  }

  lemma Keyed(ws: Workspace, s: Spot, key: Key)
    requires IsSpot(ws, s)
    ensures KeyOf(ws, EntryAt(ws, s)) == Some(key) <==> HasKey(ws, s, key)
  {
    hide KeyOf, OnSocket, OnBus;
    match key
    case SocketKey(controller, socket, pdu) => SocketKeyed(ws, s, controller, socket, pdu);
    case BusKey(bus, canId) => BusKeyed(ws, s, bus, canId);
  }

  ghost predicate IsLastKeyed(ws: Workspace, s: Spot, key: Key) {
    IsSpot(ws, s) && HasKey(ws, s, key) && forall t :: IsSpot(ws, t) && HasKey(ws, t, key) ==> t == s || Before(t, s)
  }

  lemma OneIsLast(s: Spot, t: Spot)
    requires (s == t || Before(s, t)) && (s == t || Before(t, s))
    ensures s == t
  {
  }

  lemma KeyedKind(ws: Workspace, s: Spot, key: Key)
    requires HasKey(ws, s, key)
    ensures IsSpot(ws, s) && s.onBus == key.BusKey?
  {
  }

  /** Entry `k` is the last one of the key. */
  ghost predicate IsLastEntry(ws: Workspace, es: seq<Entry>, key: Key, k: nat) {
    k < |es| && KeyOf(ws, es[k]) == Some(key) && forall j :: k < j < |es| ==> KeyOf(ws, es[j]) != Some(key)
  }

  lemma LastEntry(ws: Workspace, es: seq<Entry>, key: Key) returns (k: nat)
    requires key in IndexOf(ws, es)
    ensures IsLastEntry(ws, es, key, k) && es[k].fwd == IndexOf(ws, es)[key]
  {
    hide IndexOf, KeyOf;
    IndexKeepsLast(ws, es, key);
    var i :| 0 <= i < |es| && KeyOf(ws, es[i]) == Some(key) && es[i].fwd == IndexOf(ws, es)[key]
             && forall j :: i < j < |es| ==> KeyOf(ws, es[j]) != Some(key);
    k := i;
  }

  lemma LastEntryStands(ws: Workspace, spots: seq<Spot>, es: seq<Entry>, key: Key, k: nat)
    requires Enumerates(ws, spots, es) && forall s :: s in spots <==> IsSpot(ws, s) && s.onBus == key.BusKey?
    requires IsLastEntry(ws, es, key, k)
    ensures IsLastKeyed(ws, spots[k], key)
  {
    hide KeyOf, HasKey, Before, EntryAt;
    Keyed(ws, spots[k], key);
    forall t | IsSpot(ws, t) && HasKey(ws, t, key) ensures t == spots[k] || Before(t, spots[k]) {
      KeyedKind(ws, t, key);
      var m :| 0 <= m < |spots| && spots[m] == t;
      Keyed(ws, t, key);
    }
  }

  lemma KeyedIsIndexed(ws: Workspace, spots: seq<Spot>, es: seq<Entry>, key: Key, s: Spot)
    requires Enumerates(ws, spots, es) && forall s :: s in spots <==> IsSpot(ws, s) && s.onBus == key.BusKey?
    requires IsSpot(ws, s) && HasKey(ws, s, key)
    ensures key in IndexOf(ws, es)
  {
    hide KeyOf, HasKey, IndexOf, Before, EntryAt;
    IndexKeepsLast(ws, es, key);
    KeyedKind(ws, s, key);
    Keyed(ws, s, key);
    var k :| 0 <= k < |spots| && spots[k] == s;
    assert es[k] in es;
  }

  /** An index holds, for each key, the forwarder at the last place that has it. */
  lemma IndexHoldsLast(ws: Workspace, spots: seq<Spot>, es: seq<Entry>, key: Key, v: Forwarder)
    requires Enumerates(ws, spots, es) && forall s :: s in spots <==> IsSpot(ws, s) && s.onBus == key.BusKey?
    ensures Lookup(IndexOf(ws, es), key) == Some(v)
            <==> exists s :: IsSpot(ws, s) && IsLastKeyed(ws, s, key) && ForwarderAt(ws, s) == v
  {
    hide IndexOf, HasKey, KeyOf, Before;
    if Lookup(IndexOf(ws, es), key) == Some(v) {
      var k := LastEntry(ws, es, key);
      LastEntryStands(ws, spots, es, key, k);
    }
    if s :| IsSpot(ws, s) && IsLastKeyed(ws, s, key) && ForwarderAt(ws, s) == v {
      KeyedIsIndexed(ws, spots, es, key, s);
      var k := LastEntry(ws, es, key);
      LastEntryStands(ws, spots, es, key, k);
      OneIsLast(s, spots[k]);
    }
  }

  /** Entry `k` is the last one of the forwarder. */
  ghost predicate IsLastOf(es: seq<Entry>, f: Forwarder, k: nat) {
    k < |es| && es[k].fwd == f && forall j :: k < j < |es| ==> es[j].fwd != f
  }

  lemma {:induction false} OwnerIsLast(es: seq<Entry>, f: Forwarder) returns (k: nat)
    requires f in OwnerOf(es)
    ensures IsLastOf(es, f, k) && OwnerOf(es)[f] == es[k].controller
  {
    k := |es| - 1;
    if es[k].fwd != f {
      var n := k;
      k := OwnerIsLast(es[..n], f);
      assert forall j :: 0 <= j < n ==> es[..n][j] == es[j];
    }
  }

  lemma {:induction false} EntryHasOwner(es: seq<Entry>, k: nat)
    requires k < |es|
    ensures es[k].fwd in OwnerOf(es)
  {
    var n := |es| - 1;
    if k < n {
      assert es[..n][k] == es[k];
      EntryHasOwner(es[..n], k);
    }
  }

  lemma LastOfStands(ws: Workspace, spots: seq<Spot>, es: seq<Entry>, f: Forwarder, k: nat)
    requires Enumerates(ws, spots, es) && (forall s :: s in spots <==> IsSpot(ws, s)) && IsLastOf(es, f, k)
    ensures IsLastPlace(ws, spots[k], f)
  {
    hide Before;
    forall t | IsSpot(ws, t) && ForwarderAt(ws, t) == f ensures t == spots[k] || Before(t, spots[k]) {
      var m :| 0 <= m < |spots| && spots[m] == t;
      assert es[m].fwd == f;
    }
  }

  lemma OwnerStandsLast(ws: Workspace, f: Forwarder, s: Spot)
    requires IsLastPlace(ws, s, f)
    ensures Lookup(OwnerOf(EntriesOf(ws)), f) == Some(ws.controllers[s.controller].name)
  {
    hide OwnerOf, EntriesOf, Before;
    var es := EntriesOf(ws);
    var spots := EntriesInOrder(ws);
    var m :| 0 <= m < |spots| && spots[m] == s;
    EntryHasOwner(es, m);
    var k := OwnerIsLast(es, f);
    LastOfStands(ws, spots, es, f, k);
    OneIsLast(s, spots[k]);
  }

  /** The controller that the detector takes for the owner of a forwarder is that of its last place. */
  lemma OwnerStands(ws: Workspace, f: Forwarder, name: string)
    ensures Lookup(OwnerOf(EntriesOf(ws)), f) == Some(name) <==> IsOwner(ws, f, name)
  {
    hide OwnerOf, EntriesOf, Before, IsLastPlace;
    var es := EntriesOf(ws);
    if f in OwnerOf(es) {
      var spots := EntriesInOrder(ws);
      var k := OwnerIsLast(es, f);
      LastOfStands(ws, spots, es, f, k);
      OwnerStandsLast(ws, f, spots[k]);
    }
    if s :| IsSpot(ws, s) && IsLastPlace(ws, s, f) && ws.controllers[s.controller].name == name {
      OwnerStandsLast(ws, f, s);
    }
  }

  lemma IngressIsTaken(ws: Workspace, f: Forwarder, pdu: string)
    ensures IngressPdu(ResolverOf(ws), f) == Some(pdu) <==> Takes(ws, f, pdu)
  {
    hide CatalogueOf, GoesByName, IndexOf, OwnerOf;
    if f.CanFrameForwarder? {
      forall g ensures GoesByName(ws, f.frameRef, g)
        <==> f.frameRef in CatalogueOf(ws) && CatalogueOf(ws)[f.frameRef] == g {
        CatalogueGoesByName(ws, f.frameRef, g);
      }
      if f.frameRef in CatalogueOf(ws) {
        var g := CatalogueOf(ws)[f.frameRef];
        assert |g.packedPdus| == 1 ==> g.packedPdus == [g.packedPdus[0]];
      }
    }
  }

  lemma TargetIsEmitted(ws: Workspace, f: Forwarder, socket: string, extract: Option<string>, key: Key)
    ensures Target(ResolverOf(ws), f, EthSocketEgress(socket, extract)) == Some(key) <==>
              exists name, pdu :: IsOwner(ws, f, name) && Emits(ws, f, extract, pdu)
                                  && key == SocketKey(name, socket, pdu)
  {
    var r := ResolverOf(ws);
    var e := EthSocketEgress(socket, extract);
    forall name ensures Lookup(r.controllerOf, f) == Some(name) <==> IsOwner(ws, f, name) {
      OwnerStands(ws, f, name);
    }
    forall pdu ensures (if extract.Some? then extract else IngressPdu(r, f)) == Some(pdu)
      <==> Emits(ws, f, extract, pdu) {
      IngressIsTaken(ws, f, pdu);
    }
    hide ResolverOf, IngressPdu, IsOwner, Emits;
    var pdu := if extract.Some? then extract else IngressPdu(r, f);
    if Target(r, f, e) == Some(key) {
      assert Lookup(r.controllerOf, f) == Some(r.controllerOf[f]);
      assert IsOwner(ws, f, r.controllerOf[f]) && Emits(ws, f, extract, pdu.value);
    }
    if name, p :| IsOwner(ws, f, name) && Emits(ws, f, extract, p) && key == SocketKey(name, socket, p) {
      assert Lookup(r.controllerOf, f) == Some(name) && pdu == Some(p);
    }
  }

  lemma LookedUp(ws: Workspace, key: Key, v: Forwarder)
    ensures Lookup(if key.SocketKey? then ResolverOf(ws).socketIndex else ResolverOf(ws).canIndex, key) == Some(v)
            <==> exists t :: IsSpot(ws, t) && IsLastKeyed(ws, t, key) && ForwarderAt(ws, t) == v
  {
    hide IndexOf, IsLastKeyed;
    var spots := SpotsOfKind(ws, key.BusKey?);
    IndexHoldsLast(ws, spots, if key.BusKey? then CanEntriesOf(ws) else SocketEntriesOf(ws), key, v);
  }

  lemma LastOnSocketIsKeyed(ws: Workspace, t: Spot, controller: string, socket: string, pdu: string)
    ensures IsLastKeyed(ws, t, SocketKey(controller, socket, pdu)) <==> IsLastOnSocket(ws, t, controller, socket, pdu)
  {
  }

  lemma LastOnBusIsKeyed(ws: Workspace, t: Spot, bus: string, canId: int)
    ensures IsLastKeyed(ws, t, BusKey(bus, canId)) <==> IsLastOnBus(ws, t, bus, canId)
  {
    hide Before;
  }

  /** An egress resolves to where it leads. */
  lemma ResolvedLeads(ws: Workspace, f: Forwarder, e: Egress, v: Forwarder)
    ensures Resolve(ResolverOf(ws), f, e) == Some(v) <==> LeadsTo(ws, f, e, v)
  {
    hide ResolverOf, Target, IsLastKeyed, IsLastOnSocket, IsLastOnBus, IsOwner, Emits;
    var r := ResolverOf(ws);
    match e
    case EthSocketEgress(socket, extract) =>
      forall key ensures Target(r, f, e) == Some(key) <==>
                           exists name, pdu :: IsOwner(ws, f, name) && Emits(ws, f, extract, pdu)
                                               && key == SocketKey(name, socket, pdu) {
        TargetIsEmitted(ws, f, socket, extract, key);
      }
      if Resolve(r, f, e) == Some(v) {
        var key := Target(r, f, e).value;
        var name, pdu :| IsOwner(ws, f, name) && Emits(ws, f, extract, pdu) && key == SocketKey(name, socket, pdu);
        LookedUp(ws, key, v);
        var t :| IsSpot(ws, t) && IsLastKeyed(ws, t, key) && ForwarderAt(ws, t) == v;
        LastOnSocketIsKeyed(ws, t, name, socket, pdu);
      }
      if LeadsTo(ws, f, e, v) {
        var name, pdu, t :|
          && IsOwner(ws, f, name) && Emits(ws, f, extract, pdu)
          && IsSpot(ws, t) && IsLastOnSocket(ws, t, name, socket, pdu) && ForwarderAt(ws, t) == v;
        LastOnSocketIsKeyed(ws, t, name, socket, pdu);
        LookedUp(ws, SocketKey(name, socket, pdu), v);
        assert Target(r, f, e) == Some(SocketKey(name, socket, pdu));
      }
    case CanFrameEgress(bus, id) =>
      assert Target(r, f, e) == Some(BusKey(bus, id)) by { BusTarget(r, f, bus, id); }
      LookedUp(ws, BusKey(bus, id), v);
      forall t ensures IsLastKeyed(ws, t, BusKey(bus, id)) <==> IsLastOnBus(ws, t, bus, id) {
        LastOnBusIsKeyed(ws, t, bus, id);
      }
  }

  lemma BusTarget(r: Resolver, f: Forwarder, bus: string, id: int)
    ensures Target(r, f, CanFrameEgress(bus, id)) == Some(BusKey(bus, id))
  {
  }

  /** The detector's graph has an edge exactly where the workspace has a hop. */
  lemma EdgesAreHops(ws: Workspace, f: Forwarder, v: Forwarder)
    ensures Edge(ResolvedGraph(ws), f, v) <==> Hop(ws, f, v)
  {
    hide ResolverOf, LeadsTo, Stands, NodesOf;
    NodesStand(ws, f);
    NeighbourIsResolved(ResolverOf(ws), f, |f.egresses|, v);
    forall i | 0 <= i < |f.egresses|
      ensures Resolve(ResolverOf(ws), f, f.egresses[i]) == Some(v) <==> LeadsTo(ws, f, f.egresses[i], v)
    {
      ResolvedLeads(ws, f, f.egresses[i], v);
    }
    hide Resolve;
  }
}
