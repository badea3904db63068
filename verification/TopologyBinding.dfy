/**
 Binding the connections of an ECU in place, the check that no switch port is used twice, and what the
 wiring is when the check passes: every switch port that a connection names points at precisely the other
 end of its only connection.
 */
module TopologyBinding {
  import opened Topology
  import opened Wrappers
  import opened Graphs

  // ------------------------------------------------------------------ the wiring as a value

  /** The connected components that every component of an ECU holds. */
  datatype Wiring = Wiring(
    switchPorts: map<SwitchPort, Option<Component>>,
    ecuPorts: map<EcuPort, seq<Component>>,
    interfaces: map<Interface, seq<Component>>)

  ghost function WiringOf(e: Ecu): Wiring
    reads AllPorts(e.switches), e.ports, AllInterfaces(e.controllers)
  {
    Wiring(map p | p in AllPorts(e.switches) :: p.connected,
           map p | p in e.ports :: p.connected,
           map i | i in AllInterfaces(e.controllers) :: i.connected)
  }

  predicate HasName(cs: seq<Component>, name: string) {
    exists k :: 0 <= k < |cs| && NameOf(cs[k]) == name
  }

  predicate Knows(w: Wiring, c: Component) {
    match c
    case OfSwitchPort(p) => p in w.switchPorts
    case OfEcuPort(p) => p in w.ecuPorts
    case OfInterface(i) => i in w.interfaces
  }

  /**
   One end is told its partner: a switch port keeps only the last one, an interface lists all of them,
   an ECU port lists it unless a component of the same name is listed already.
   */
  function Attached(w: Wiring, end: Component, partner: Component): Wiring
    requires Knows(w, end)
  {
    match end
    case OfSwitchPort(p) => w.(switchPorts := w.switchPorts[p := Some(partner)])
    case OfInterface(i) => w.(interfaces := w.interfaces[i := w.interfaces[i] + [partner]])
    case OfEcuPort(p) =>
      if HasName(w.ecuPorts[p], NameOf(partner)) then w
      else w.(ecuPorts := w.ecuPorts[p := w.ecuPorts[p] + [partner]])
  }

  /** An end, and the partner it is told. */
  type Side = (Component, Component)

  function SidesOf(link: Link): seq<Side> {
    [(link.a, link.b), (link.b, link.a)]
  }

  function Sides(links: seq<Link>): seq<Side> {
    if links == [] then [] else Sides(links[..|links| - 1]) + SidesOf(links[|links| - 1])
  }

  ghost predicate AllKnown(w: Wiring, sides: seq<Side>) {
    forall k :: 0 <= k < |sides| ==> Knows(w, sides[k].0)
  }

  function Wire(w: Wiring, sides: seq<Side>): (r: Wiring)
    requires AllKnown(w, sides)
    ensures r.switchPorts.Keys == w.switchPorts.Keys && r.ecuPorts.Keys == w.ecuPorts.Keys
            && r.interfaces.Keys == w.interfaces.Keys
  {
    if sides == [] then w
    else
      var n := |sides| - 1;
      assert Knows(w, sides[n].0);
      Attached(Wire(w, sides[..n]), sides[n].0, sides[n].1)
  }

  // ------------------------------------------------------------------ binding in place

  method AttachToSwitchPort(p: SwitchPort, partner: Component, ghost e: Ecu)
    requires p in AllPorts(e.switches)
    modifies p
    ensures WiringOf(e) == Attached(old(WiringOf(e)), OfSwitchPort(p), partner)
  {
    p.connected := Some(partner);
  }

  method AttachToInterface(i: Interface, partner: Component, ghost e: Ecu)
    requires i in AllInterfaces(e.controllers)
    modifies i
    ensures WiringOf(e) == Attached(old(WiringOf(e)), OfInterface(i), partner)
  {
    i.connected := i.connected + [partner];
  }

  method AttachToEcuPort(p: EcuPort, partner: Component, ghost e: Ecu)
    requires p in e.ports
    modifies p
    ensures WiringOf(e) == Attached(old(WiringOf(e)), OfEcuPort(p), partner)
  {
    if !HasName(p.connected, NameOf(partner)) {
      p.connected := p.connected + [partner];
    }
  }

  method Attach(end: Component, partner: Component, ghost e: Ecu)
    requires Holds(e, end)
    modifies AllPorts(e.switches), e.ports, AllInterfaces(e.controllers)
    ensures WiringOf(e) == Attached(old(WiringOf(e)), end, partner)
  {
    match end
    case OfSwitchPort(p) => AttachToSwitchPort(p, partner, e);
    case OfInterface(i) => AttachToInterface(i, partner, e);
    case OfEcuPort(p) => AttachToEcuPort(p, partner, e);
  }

  /** The components of `e` are wired as binding `links` one after the other leaves them. */
  ghost predicate WiredAs(e: Ecu, w: Wiring, links: seq<Link>)
    reads AllPorts(e.switches), e.ports, AllInterfaces(e.controllers)
  {
    AllKnown(w, Sides(links)) && WiringOf(e) == Wire(w, Sides(links))
  }

  lemma WireLink(w: Wiring, links: seq<Link>, link: Link)
    requires AllKnown(w, Sides(links)) && Knows(w, link.a) && Knows(w, link.b)
    ensures AllKnown(w, Sides(links + [link]))
    ensures Wire(w, Sides(links + [link])) == Attached(Attached(Wire(w, Sides(links)), link.a, link.b), link.b, link.a)
  {
    var sides, one, two := Sides(links), (link.a, link.b), (link.b, link.a);
    assert (links + [link])[..|links|] == links;
    assert Sides(links + [link]) == sides + [one] + [two];
    WireSide(w, sides, one);
    WireSide(w, sides + [one], two);
  }

  lemma WireSide(w: Wiring, sides: seq<Side>, side: Side)
    requires AllKnown(w, sides) && Knows(w, side.0)
    ensures AllKnown(w, sides + [side])
    ensures Wire(w, sides + [side]) == Attached(Wire(w, sides), side.0, side.1)
  {
    assert (sides + [side])[..|sides|] == sides;
  }

  method BindLink(link: Link, e: Ecu, ghost w: Wiring, ghost links: seq<Link>)
    requires WiredAs(e, w, links) && Holds(e, link.a) && Holds(e, link.b)
    modifies AllPorts(e.switches), e.ports, AllInterfaces(e.controllers)
    ensures WiredAs(e, w, links + [link])
  {
    HeldIsKnown(e, link.a);
    HeldIsKnown(e, link.b);
    WireLink(w, links, link);
    Attach(link.a, link.b, e);
    Attach(link.b, link.a, e);
  }

  lemma HeldIsKnown(e: Ecu, c: Component)
    requires Holds(e, c)
    ensures Knows(WiringOf(e), c)
  {
  }

  lemma {:induction false} BoundIs(connections: seq<Connection>, e: Ecu, links: seq<Link>)
    requires |links| <= |connections|
    requires forall k :: 0 <= k < |links| ==> Resolve(connections[k], e) == Ok(links[k])
    requires |links| < |connections| ==> Resolve(connections[|links|], e).Err?
    ensures links == Bound(connections, e)
  {
    if links != [] {
      BoundIs(connections[1..], e, links[1..]);
    }
  }

  /** Binds the connections in order. The first that does not resolve ends the loop; earlier ones stay bound. */
  method BindAll(connections: seq<Connection>, e: Ecu, ghost w: Wiring) returns (r: Result<seq<Link>>)
    requires w == WiringOf(e)
    modifies AllPorts(e.switches), e.ports, AllInterfaces(e.controllers)
    ensures WiredAs(e, w, Bound(connections, e))
    ensures r.Ok? <==> |Bound(connections, e)| == |connections|
    ensures r.Ok? ==> r.value == Bound(connections, e)
    ensures r.Err? ==> Resolve(connections[|Bound(connections, e)|], e) == Err(r.code)
  {
    var links: seq<Link> := [];
    for i := 0 to |connections|
      invariant |links| == i && forall k :: 0 <= k < i ==> Resolve(connections[k], e) == Ok(links[k])
      invariant WiredAs(e, w, links)
    {
      var link := Resolve(connections[i], e);
      if link.Err? {
        BoundIs(connections, e, links);
        return Err(link.code);
      }
      LinkIsHeld(connections[i], e);
      BindLink(link.value, e, w, links);
      links := links + [link.value];
    }
    BoundIs(connections, e, links);
    r := Ok(links);
  }

  // ------------------------------------------------------------------ the check over switch ports

  /** `get_switch_port_refs`: the switch ports among the ends of a link, in order. */
  function SwitchPortRefs(link: Link): seq<SwitchPort> {
    (if link.a.OfSwitchPort? then [link.a.switchPort] else [])
    + if link.b.OfSwitchPort? then [link.b.switchPort] else []
  }

  function AllRefs(links: seq<Link>): seq<SwitchPort> {
    if links == [] then [] else AllRefs(links[..|links| - 1]) + SwitchPortRefs(links[|links| - 1])
  }

  predicate ConnectsToItself(link: Link) {
    link.a.OfSwitchPort? && link.a == link.b
  }

  /** The references of one link against those met before; `false` at the first one met already. */
  method CheckRefs(seen: set<SwitchPort>, refs: seq<SwitchPort>, ghost before: seq<SwitchPort>) returns (ok: bool,
                   r: set<SwitchPort>)
    requires seen == Elements(before) && NoDuplicates(before)
    ensures ok <==> NoDuplicates(before + refs)
    ensures ok ==> r == Elements(before + refs)
  {
    ok, r := true, seen;
    assert before + [] == before;
    for k := 0 to |refs|
      invariant ok && r == Elements(before + refs[..k]) && NoDuplicates(before + refs[..k])
    {
      assert before + refs[..k + 1] == before + refs[..k] + [refs[k]];
      if refs[k] in r {
        ghost var m :| 0 <= m < |before + refs[..k]| && (before + refs[..k])[m] == refs[k];
        assert (before + refs)[m] == (before + refs)[|before| + k];
        return false, r;
      }
      r := r + {refs[k]};
    }
    assert refs[..|refs|] == refs;
  }

  /** Link `i` is the first one with which a switch port is used twice. */
  predicate IsFirstRepeat(links: seq<Link>, i: nat) {
    i < |links| && NoDuplicates(AllRefs(links[..i])) && !NoDuplicates(AllRefs(links[..i + 1]))
  }

  /** The error for the first repetition: whether the link connects a port to itself or takes one that is in use. */
  ghost predicate IsRepeatError(links: seq<Link>, code: string) {
    exists i: nat :: IsFirstRepeat(links, i) && code == if ConnectsToItself(links[i]) then "209" else "210"
  }

  lemma RepeatsAt(links: seq<Link>, i: nat, j: nat, k: nat)
    requires i < |links| && j < k < |AllRefs(links[..i]) + SwitchPortRefs(links[i])|
    requires (AllRefs(links[..i]) + SwitchPortRefs(links[i]))[j] == (AllRefs(links[..i]) + SwitchPortRefs(links[i]))[k]
    ensures !NoDuplicates(AllRefs(links[..i + 1]))
  {
    assert links[..i + 1][..i] == links[..i];
  }

  method CheckSwitchPorts(links: seq<Link>) returns (code: Option<string>)
    ensures code.None? <==> NoDuplicates(AllRefs(links))
    ensures code == Some("209") ==> exists i :: 0 <= i < |links| && ConnectsToItself(links[i])
    ensures code.Some? ==> code.value in {"209", "210"} && IsRepeatError(links, code.value)
  {
    var seen: set<SwitchPort> := {};
    for i := 0 to |links|
      invariant seen == Elements(AllRefs(links[..i])) && NoDuplicates(AllRefs(links[..i]))
    {
      assert links[..i + 1][..i] == links[..i];
      ghost var before := AllRefs(links[..i]);
      var refs := SwitchPortRefs(links[i]);
      if |refs| == 2 && refs[0] == refs[1] {
        RefsRepeat(links, i, |before|, |before| + 1);
        RepeatsAt(links, i, |before|, |before| + 1);
        assert IsFirstRepeat(links, i) && ConnectsToItself(links[i]);
        return Some("209");
      }
      var ok: bool;
      ok, seen := CheckRefs(seen, refs, before);
      if !ok {
        ghost var j, k :| 0 <= j < k < |before + refs| && (before + refs)[j] == (before + refs)[k];
        RefsRepeat(links, i, j, k);
        RepeatsAt(links, i, j, k);
        assert IsFirstRepeat(links, i) && !ConnectsToItself(links[i]);
        return Some("210");
      }
    }
    assert links[..|links|] == links;
    return None;
  }

  lemma {:induction false} RefsArePrefix(links: seq<Link>, n: nat)
    requires n <= |links|
    ensures |AllRefs(links[..n])| <= |AllRefs(links)| && AllRefs(links)[..|AllRefs(links[..n])|] == AllRefs(links[..n])
  {
    if n == |links| {
      assert links[..n] == links;
    } else {
      assert links[..|links| - 1][..n] == links[..n];
      RefsArePrefix(links[..|links| - 1], n);
    }
  }

  /** A repetition among the references met so far is one among all of them. */
  lemma RefsRepeat(links: seq<Link>, i: nat, j: nat, k: nat)
    requires i < |links| && j < k < |AllRefs(links[..i]) + SwitchPortRefs(links[i])|
    requires (AllRefs(links[..i]) + SwitchPortRefs(links[i]))[j] == (AllRefs(links[..i]) + SwitchPortRefs(links[i]))[k]
    ensures !NoDuplicates(AllRefs(links))
  {
    assert links[..i + 1][..i] == links[..i];
    var prefix, all := AllRefs(links[..i + 1]), AllRefs(links);
    RefsArePrefix(links, i + 1);
    assert all[j] == prefix[j] && all[k] == prefix[k];
  }

  datatype Outcome = Accepted | Rejected(code: string)

  method ResolveTopologyConnections(e: Ecu, connections: seq<Connection>, ghost w: Wiring) returns (outcome: Outcome)
    requires w == WiringOf(e)
    modifies AllPorts(e.switches), e.ports, AllInterfaces(e.controllers)
    ensures WiredAs(e, w, Bound(connections, e))
    ensures outcome.Accepted?
            <==> |Bound(connections, e)| == |connections| && NoDuplicates(AllRefs(Bound(connections, e)))
    ensures |Bound(connections, e)| < |connections| ==>
              outcome.Rejected? && Resolve(connections[|Bound(connections, e)|], e) == Err(outcome.code)
    ensures outcome.Rejected? && |Bound(connections, e)| == |connections| ==>
              IsRepeatError(Bound(connections, e), outcome.code)
  {
    var r := BindAll(connections, e, w);
    if r.Ok? {
      ghost var bound := WiringOf(e);
      var code := CheckSwitchPorts(r.value);
      assert WiringOf(e) == bound;
      outcome := if code.None? then Accepted else Rejected(code.value);
    } else {
      outcome := Rejected(r.code);
    }
  }

  // ------------------------------------------------------------------ what an accepted wiring is

  /** The switch ports among the ends that are told a partner, in order. */
  function PortsOf(sides: seq<Side>): seq<SwitchPort> {
    if sides == [] then []
    else PortsOf(sides[..|sides| - 1]) + if sides[|sides| - 1].0.OfSwitchPort? then [sides[|sides| - 1].0.switchPort]
        else []
  }

  lemma {:induction false} RefsAreSides(links: seq<Link>)
    ensures AllRefs(links) == PortsOf(Sides(links))
  {
    if links != [] {
      var n := |links| - 1;
      var sides, last := Sides(links[..n]), SidesOf(links[n]);
      RefsAreSides(links[..n]);
      assert Sides(links)[..|sides| + 1][..|sides|] == sides;
      assert Sides(links)[..|Sides(links)| - 1] == Sides(links)[..|sides| + 1];
      assert Sides(links)[..|sides| + 1][|sides|] == last[0];
    }
  }

  lemma {:induction false} PortIsListed(sides: seq<Side>, k: nat)
    requires k < |sides| && sides[k].0.OfSwitchPort?
    ensures sides[k].0.switchPort in PortsOf(sides)
  {
    if k < |sides| - 1 {
      PortIsListed(sides[..|sides| - 1], k);
    }
  }

  /** No overwriting: when no port is told twice, each one holds the partner it was told. */
  lemma {:induction false} PortHoldsPartner(w: Wiring, sides: seq<Side>, k: nat)
    requires AllKnown(w, sides) && NoDuplicates(PortsOf(sides))
    requires k < |sides| && sides[k].0.OfSwitchPort?
    ensures var p := sides[k].0.switchPort; Wire(w, sides).switchPorts[p] == Some(sides[k].1)
  {
    var n := |sides| - 1;
    var init := sides[..n];
    assert forall m :: 0 <= m < n ==> init[m] == sides[m];
    if k < n {
      PortIsListed(init, k);
      assert PortsOf(init) == PortsOf(sides)[..|PortsOf(init)|];
      PortHoldsPartner(w, init, k);
      if sides[n].0.OfSwitchPort? {
        var m :| 0 <= m < |PortsOf(init)| && PortsOf(init)[m] == sides[k].0.switchPort;
        assert PortsOf(sides)[m] != PortsOf(sides)[|PortsOf(init)|];
      }
    }
  }

  /** A port that no side mentions keeps what it had. */
  lemma {:induction false} UnnamedPortIsKept(w: Wiring, sides: seq<Side>, p: SwitchPort)
    requires AllKnown(w, sides) && p in w.switchPorts && p !in PortsOf(sides)
    ensures Wire(w, sides).switchPorts[p] == w.switchPorts[p]
  {
    if sides != [] {
      UnnamedPortIsKept(w, sides[..|sides| - 1], p);
    }
  }

  lemma {:induction false} ListedPortHasSide(sides: seq<Side>, p: SwitchPort) returns (k: nat)
    requires p in PortsOf(sides)
    ensures k < |sides| && sides[k].0 == OfSwitchPort(p)
  {
    var n := |sides| - 1;
    if p in PortsOf(sides[..n]) {
      k := ListedPortHasSide(sides[..n], p);
    } else {
      k := n;
    }
  }

  /** Both directions of a link are sides. */
  lemma {:induction false} SidesAreMirrored(links: seq<Link>, k: nat) returns (m: nat)
    requires k < |Sides(links)|
    ensures m < |Sides(links)| && Sides(links)[m] == (Sides(links)[k].1, Sides(links)[k].0)
  {
    var n := |links| - 1;
    var init := Sides(links[..n]);
    if k < |init| {
      m := SidesAreMirrored(links[..n], k);
    } else {
      m := if k == |init| then |init| + 1 else |init|;
    }
  }

  /** Freshly built components: nothing is connected yet. */
  ghost predicate Unwired(w: Wiring) {
    && (forall p :: p in w.switchPorts ==> w.switchPorts[p] == None)
    && (forall p :: p in w.ecuPorts ==> w.ecuPorts[p] == [])
    && (forall i :: i in w.interfaces ==> w.interfaces[i] == [])
  }

  /** Every end of an accepted topology that is a switch port points at the other end of its link. */
  lemma EndsPointAtEachOther(w: Wiring, links: seq<Link>, link: Link)
    requires AllKnown(w, Sides(links)) && NoDuplicates(AllRefs(links)) && link in links
    ensures link.a.OfSwitchPort? ==>
              Knows(w, link.a) && Wire(w, Sides(links)).switchPorts[link.a.switchPort] == Some(link.b)
    ensures link.b.OfSwitchPort? ==>
              Knows(w, link.b) && Wire(w, Sides(links)).switchPorts[link.b.switchPort] == Some(link.a)
  {
    RefsAreSides(links);
    var k := LinkHasSide(links, link);
    if link.a.OfSwitchPort? {
      PortHoldsPartner(w, Sides(links), k);
    }
    if link.b.OfSwitchPort? {
      PortHoldsPartner(w, Sides(links), k + 1);
    }
  }

  lemma {:induction false} LinkHasSide(links: seq<Link>, link: Link) returns (k: nat)
    requires link in links
    ensures k + 1 < |Sides(links)| && Sides(links)[k] == (link.a, link.b) && Sides(links)[k + 1] == (link.b, link.a)
  {
    var n := |links| - 1;
    if link in links[..n] {
      k := LinkHasSide(links[..n], link);
    } else {
      k := |Sides(links[..n])|;
    }
  }

  /**
   Over freshly built components, an accepted wiring of switch ports is a matching: a port that points
   anywhere points at the other end of a link, and two switch ports that are linked point at each other
   and are different.
   */
  lemma SwitchPortsAreMatched(w: Wiring, links: seq<Link>, p: SwitchPort, other: Component)
    requires AllKnown(w, Sides(links)) && NoDuplicates(AllRefs(links)) && Unwired(w)
    requires p in w.switchPorts && Wire(w, Sides(links)).switchPorts[p] == Some(other)
    ensures exists link ::
              link in links && (link == Link(OfSwitchPort(p), other) || link == Link(other, OfSwitchPort(p)))
    ensures other.OfSwitchPort? ==>
              other.switchPort != p && other.switchPort in w.switchPorts
              && Wire(w, Sides(links)).switchPorts[other.switchPort] == Some(OfSwitchPort(p))
  {
    var sides := Sides(links);
    RefsAreSides(links);
    if p !in PortsOf(sides) {
      UnnamedPortIsKept(w, sides, p);
    }
    var k := ListedPortHasSide(sides, p);
    PortHoldsPartner(w, sides, k);
    var link := SideHasLink(links, k);
    if other.OfSwitchPort? {
      EndsPointAtEachOther(w, links, link);
      if other.switchPort == p {
        SelfLinkRepeats(links, link);
      }
    }
  }

  /** Links between switch ports pair them up: following one leads back, and never to the port itself. */
  ghost predicate IsMatching(w: Wiring) {
    forall p :: p in w.switchPorts && w.switchPorts[p].Some? && w.switchPorts[p].value.OfSwitchPort? ==>
      var q := w.switchPorts[p].value.switchPort;
      q != p && q in w.switchPorts && w.switchPorts[q] == Some(OfSwitchPort(p))
  }

  /** In every accepted topology over freshly built components the switch ports are matched. */
  lemma AcceptedIsMatching(w: Wiring, links: seq<Link>)
    requires AllKnown(w, Sides(links)) && NoDuplicates(AllRefs(links)) && Unwired(w)
    ensures IsMatching(Wire(w, Sides(links)))
  {
    var wired := Wire(w, Sides(links));
    forall p | p in wired.switchPorts && wired.switchPorts[p].Some? && wired.switchPorts[p].value.OfSwitchPort?
      ensures var q := wired.switchPorts[p].value.switchPort;
              q != p && q in wired.switchPorts && wired.switchPorts[q] == Some(OfSwitchPort(p))
    {
      SwitchPortsAreMatched(w, links, p, wired.switchPorts[p].value);
    }
  }

  lemma {:induction false} SideHasLink(links: seq<Link>, k: nat) returns (link: Link)
    requires k < |Sides(links)|
    ensures link in links
    ensures Sides(links)[k] == (link.a, link.b) || Sides(links)[k] == (link.b, link.a)
  {
    var n := |links| - 1;
    if k < |Sides(links[..n])| {
      link := SideHasLink(links[..n], k);
    } else {
      link := links[n];
    }
  }

  lemma {:induction false} SelfLinkRepeats(links: seq<Link>, link: Link)
    requires link in links && ConnectsToItself(link)
    ensures !NoDuplicates(AllRefs(links))
  {
    var i :| 0 <= i < |links| && links[i] == link;
    RefsRepeat(links, i, |AllRefs(links[..i])|, |AllRefs(links[..i])| + 1);
  }

  // ------------------------------------------------------------------ interfaces and ECU ports

  function PartnersOf(sides: seq<Side>, c: Component): seq<Component> {
    if sides == [] then []
    else PartnersOf(sides[..|sides| - 1], c) + if sides[|sides| - 1].0 == c then [sides[|sides| - 1].1] else []
  }

  /** An interface lists the partners of all its links, in order. */
  lemma {:induction false} InterfaceListsPartners(w: Wiring, sides: seq<Side>, i: Interface)
    requires AllKnown(w, sides) && i in w.interfaces
    ensures Wire(w, sides).interfaces[i] == w.interfaces[i] + PartnersOf(sides, OfInterface(i))
  {
    if sides != [] {
      InterfaceListsPartners(w, sides[..|sides| - 1], i);
    }
  }

  /** What an empty ECU port lists after meeting `partners`. */
  function Listed(partners: seq<Component>): seq<Component> {
    if partners == [] then []
    else
      var rest, x := Listed(partners[..|partners| - 1]), partners[|partners| - 1];
      if HasName(rest, NameOf(x)) then rest else rest + [x]
  }

  lemma {:induction false} EcuPortLists(w: Wiring, sides: seq<Side>, p: EcuPort)
    requires AllKnown(w, sides) && p in w.ecuPorts && w.ecuPorts[p] == []
    ensures Wire(w, sides).ecuPorts[p] == Listed(PartnersOf(sides, OfEcuPort(p)))
  {
    if sides != [] {
      var n := |sides| - 1;
      var partners, all := PartnersOf(sides[..n], OfEcuPort(p)), PartnersOf(sides, OfEcuPort(p));
      EcuPortLists(w, sides[..n], p);
      if sides[n].0 == OfEcuPort(p) {
        assert all == partners + [sides[n].1] && all[..|all| - 1] == partners;
      } else {
        assert all == partners;
      }
    }
  }

  /** The first partner of its name. Port names are unique only within one switch. */
  predicate FirstOfItsName(partners: seq<Component>, c: Component) {
    exists k :: 0 <= k < |partners| && partners[k] == c && forall m :: 0 <= m < k ==> NameOf(partners[m]) != NameOf(c)
  }

  lemma {:induction false} ListedNames(partners: seq<Component>, name: string)
    ensures HasName(Listed(partners), name) <==> HasName(partners, name)
  {
    if partners != [] {
      var n := |partners| - 1;
      ListedNames(partners[..n], name);
      ListedNames(partners[..n], NameOf(partners[n]));
      NamesAppend(partners[..n], partners[n], name);
      NamesAppend(Listed(partners[..n]), partners[n], name);
      assert partners == partners[..n] + [partners[n]];
    }
  }

  /**
   An ECU port that starts empty lists exactly those partners that no earlier partner shares a name with,
   so two ports of the same name on different switches appear as one.
   */
  lemma {:induction false} ListedAreFirstOfName(partners: seq<Component>, c: Component)
    ensures c in Listed(partners) <==> FirstOfItsName(partners, c)
  {
    if partners != [] {
      var n := |partners| - 1;
      ListedAreFirstOfName(partners[..n], c);
      ListedNames(partners[..n], NameOf(partners[n]));
      FirstAppend(partners[..n], partners[n], c);
      assert partners == partners[..n] + [partners[n]];
    }
  }

  lemma NamesAppend(cs: seq<Component>, x: Component, name: string)
    ensures HasName(cs + [x], name) <==> HasName(cs, name) || NameOf(x) == name
  {
    if k :| 0 <= k < |cs| && NameOf(cs[k]) == name {
      assert NameOf((cs + [x])[k]) == name;
    }
    assert (cs + [x])[|cs|] == x;
  }

  lemma FirstAppend(partners: seq<Component>, x: Component, c: Component)
    ensures FirstOfItsName(partners + [x], c) <==>
              FirstOfItsName(partners, c) || (c == x && !HasName(partners, NameOf(c)))
  {
    var all := partners + [x];
    if k :| 0 <= k < |all| && all[k] == c && forall m :: 0 <= m < k ==> NameOf(all[m]) != NameOf(c) {
      if k < |partners| {
        assert forall m :: 0 <= m < k ==> partners[m] == all[m];
        assert FirstOfItsName(partners, c);
      } else {
        assert forall m :: 0 <= m < |partners| ==> partners[m] == all[m];
      }
    }
    if k :| 0 <= k < |partners| && partners[k] == c && forall m :: 0 <= m < k ==> NameOf(partners[m]) != NameOf(c) {
      assert forall m :: 0 <= m < k ==> partners[m] == all[m];
      assert all[k] == c;
    }
    if c == x && !HasName(partners, NameOf(c)) {
      assert all[|partners|] == c;
    }
  }

  lemma {:induction false} FirstOfName(partners: seq<Component>, name: string, n: nat) returns (k: nat)
    requires n < |partners| && NameOf(partners[n]) == name
    ensures k <= n && NameOf(partners[k]) == name && forall m :: 0 <= m < k ==> NameOf(partners[m]) != name
    decreases n
  {
    if m: nat :| m < n && NameOf(partners[m]) == name {
      k := FirstOfName(partners, name, m);
    } else {
      k := n;
    }
  }

  /** An ECU port lists all its partners if and only if different partners have different names. */
  lemma ListsAllIff(partners: seq<Component>)
    ensures (forall c :: c in partners ==> c in Listed(partners))
            <==> forall c, d :: c in partners && d in partners && NameOf(c) == NameOf(d) ==> c == d
  {
    forall c ensures c in Listed(partners) <==> FirstOfItsName(partners, c) {
      ListedAreFirstOfName(partners, c);
    }
    if forall c, d :: c in partners && d in partners && NameOf(c) == NameOf(d) ==> c == d {
      forall c | c in partners ensures FirstOfItsName(partners, c) {
        var n :| 0 <= n < |partners| && partners[n] == c;
        var k := FirstOfName(partners, NameOf(c), n);
        assert partners[k] in partners && partners[k] == c;
      }
    }
  }

  /** Two switches, each with one port, both wired to the same ECU port. */
  ghost predicate TwoSwitches(e: Ecu, p: EcuPort, s: SwitchPort, t: SwitchPort) {
    e == Ecu([Switch("A", [s]), Switch("B", [t])], [], [p]) && s != t && s.name == t.name
  }

  function BothToPort(p: EcuPort, s: SwitchPort): seq<Connection> {
    [EcuPortToSwitchPort(p.name, PortRef(s.name, Some("A"))), EcuPortToSwitchPort(p.name, PortRef(s.name, Some("B")))]
  }

  lemma BothAreFound(switches: seq<Switch>, s: SwitchPort, t: SwitchPort)
    requires switches == [Switch("A", [s]), Switch("B", [t])] && s.name == t.name
    ensures FindSwitchPort(PortRef(s.name, Some("A")), switches) == Ok(s)
    ensures FindSwitchPort(PortRef(s.name, Some("B")), switches) == Ok(t)
  {
    assert "A" != "B" by { assert "A"[0] != "B"[0]; }
    assert switches[1..] == [Switch("B", [t])];
    assert SwitchNamed(switches, "B") == SwitchNamed(switches[1..], "B") == Some(Switch("B", [t]));
    assert PortsNamed([t], s.name) == [t] + PortsNamed([t][1..], s.name);
    assert PortsNamed([s], s.name) == [s] + PortsNamed([s][1..], s.name);
  }

  lemma BothAreBound(e: Ecu, p: EcuPort, s: SwitchPort, t: SwitchPort, links: seq<Link>)
    requires TwoSwitches(e, p, s, t) && links == Bound(BothToPort(p, s), e)
    ensures links == [Link(OfEcuPort(p), OfSwitchPort(s)), Link(OfEcuPort(p), OfSwitchPort(t))]
    ensures AllRefs(links) == [s, t]
    ensures PartnersOf(Sides(links), OfEcuPort(p)) == [OfSwitchPort(s), OfSwitchPort(t)]
  {
    var connections := BothToPort(p, s);
    BothAreFound(e.switches, s, t);
    var both := [Link(OfEcuPort(p), OfSwitchPort(s)), Link(OfEcuPort(p), OfSwitchPort(t))];
    assert forall k :: 0 <= k < 2 ==> Resolve(connections[k], e) == Ok(both[k]);
    BoundIs(connections, e, both);
    assert both[..1][..0] == [] && both[..1][0] == both[0];
    assert AllRefs(both[..1]) == AllRefs(both[..1][..0]) + SwitchPortRefs(both[0]);
    assert Sides(both[..1]) == Sides(both[..1][..0]) + SidesOf(both[0]);
    PartnersOfTwo(Sides(both), OfEcuPort(p), OfSwitchPort(s), OfSwitchPort(t));
  }

  /** The ECU is accepted. The second switch port points at the ECU port, which does not list it. */
  lemma NamesakePortIsNotListed(e: Ecu, w: Wiring, p: EcuPort, s: SwitchPort, t: SwitchPort, links: seq<Link>)
    requires TwoSwitches(e, p, s, t) && links == Bound(BothToPort(p, s), e) && Unwired(w)
             && AllKnown(w, Sides(links)) && p in w.ecuPorts
    ensures |links| == |BothToPort(p, s)| && NoDuplicates(AllRefs(links))
    ensures t in w.switchPorts && Wire(w, Sides(links)).switchPorts[t] == Some(OfEcuPort(p))
    ensures OfSwitchPort(t) !in Wire(w, Sides(links)).ecuPorts[p]
  {
    BothAreBound(e, p, s, t, links);
    hide Bound, Wire, AllRefs, Sides, Resolve, Listed, PartnersOf, FirstOfItsName;
    assert links[1] in links;
    EndsPointAtEachOther(w, links, links[1]);
    EcuPortLists(w, Sides(links), p);
    SecondIsNotFirst(OfSwitchPort(s), OfSwitchPort(t));
    ListedAreFirstOfName([OfSwitchPort(s), OfSwitchPort(t)], OfSwitchPort(t));
  }

  lemma SecondIsNotFirst(s: Component, t: Component)
    requires s != t && NameOf(s) == NameOf(t)
    ensures !FirstOfItsName([s, t], t)
  {
    assert [s, t][0] == s && [s, t][1] == t;
  }

  lemma PartnersOfTwo(sides: seq<Side>, c: Component, s: Component, t: Component)
    requires sides == [(c, s), (s, c), (c, t), (t, c)] && c != s && c != t
    ensures PartnersOf(sides, c) == [s, t]
  {
    assert sides[..3][..2][..1][..0] == [] && sides[..3][..2][..1][0] == (c, s);
    assert PartnersOf(sides[..3][..2][..1], c) == [s];
    assert PartnersOf(sides[..3][..2], c) == [s];
    assert PartnersOf(sides[..3], c) == [s, t];
  }
}
