/**
 What the names in a connection mean, and what the wiring of an ECU is, said of the places of its components and of
 the ends of its connections.
 */
module TopologyMeaning {
  import opened Topology
  import opened TopologyBinding
  import opened Wrappers
  import opened Graphs
  import opened Sequences

  // ------------------------------------------------------------------ a name among lists of components

  /** The items for which `holds`, in order. */
  function Picked<T>(xs: seq<T>, holds: T -> bool): seq<T> {
    if xs == [] then [] else (if holds(xs[0]) then [xs[0]] else []) + Picked(xs[1..], holds)
  }

  function Concat<T>(lists: seq<seq<T>>): seq<T> {
    if lists == [] then [] else Concat(lists[..|lists| - 1]) + lists[|lists| - 1]
  }

  /** Item `j` of list `i` is there and is one of those. */
  predicate HoldsAt<T>(lists: seq<seq<T>>, holds: T -> bool, i: nat, j: nat) {
    i < |lists| && j < |lists[i]| && holds(lists[i][j])
  }

  predicate IsFirst<T>(xs: seq<T>, holds: T -> bool, j: nat) {
    j < |xs| && holds(xs[j]) && forall k :: 0 <= k < j ==> !holds(xs[k])
  }

  ghost predicate HoldsNowhere<T>(lists: seq<seq<T>>, holds: T -> bool) {
    forall i: nat, j: nat :: !HoldsAt(lists, holds, i, j)
  }

  ghost predicate HoldsTwice<T>(lists: seq<seq<T>>, holds: T -> bool) {
    exists i: nat, j: nat, k: nat, l: nat ::
      HoldsAt(lists, holds, i, j) && HoldsAt(lists, holds, k, l) && (i != k || j != l)
  }

  lemma {:induction false} PickedMembers<T>(xs: seq<T>, holds: T -> bool)
    ensures Picked(xs, holds) == [] <==> forall k :: 0 <= k < |xs| ==> !holds(xs[k])
    ensures Picked(xs, holds) != [] ==> exists j: nat :: IsFirst(xs, holds, j) && xs[j] == Picked(xs, holds)[0]
  {
    if xs != [] {
      PickedMembers(xs[1..], holds);
      assert forall k :: 0 < k < |xs| ==> xs[k] == xs[1..][k - 1];
      if holds(xs[0]) {
        assert IsFirst(xs, holds, 0);
      } else if Picked(xs, holds) != [] {
        var j: nat :| IsFirst(xs[1..], holds, j) && xs[1..][j] == Picked(xs[1..], holds)[0];
        assert IsFirst(xs, holds, j + 1);
      }
    }
  }

  lemma {:induction false} PickedTwice<T>(xs: seq<T>, holds: T -> bool)
    ensures |Picked(xs, holds)| > 1 <==> exists i, j :: 0 <= i < j < |xs| && holds(xs[i]) && holds(xs[j])
  {
    if xs != [] {
      var rest := xs[1..];
      PickedTwice(rest, holds);
      PickedMembers(rest, holds);
      assert forall k :: 0 < k < |xs| ==> xs[k] == rest[k - 1];
      if i, j :| 0 <= i < j < |xs| && holds(xs[i]) && holds(xs[j]) {
        assert holds(rest[j - 1]);
        if i > 0 {
          assert holds(rest[i - 1]);
        }
      }
      if holds(xs[0]) && Picked(rest, holds) != [] {
        var k :| 0 <= k < |rest| && holds(rest[k]);
        assert holds(xs[k + 1]);
      }
      if i, j :| 0 <= i < j < |rest| && holds(rest[i]) && holds(rest[j]) {
        assert holds(xs[i + 1]) && holds(xs[j + 1]);
      }
    }
  }

  // where the items of the lists are in their concatenation

  function Offset<T>(lists: seq<seq<T>>, i: nat): nat
    requires i <= |lists|
  {
    |Concat(lists[..i])|
  }

  lemma OffsetStep<T>(lists: seq<seq<T>>, i: nat)
    requires i < |lists|
    ensures Concat(lists[..i + 1]) == Concat(lists[..i]) + lists[i]
    ensures Offset(lists, i + 1) == Offset(lists, i) + |lists[i]|
  {
    assert lists[..i + 1][..i] == lists[..i];
  }

  lemma {:induction false} PrefixOfConcat<T>(lists: seq<seq<T>>, i: nat, n: nat)
    requires i <= n <= |lists|
    ensures Offset(lists, i) <= Offset(lists, n)
            && Concat(lists[..n])[..Offset(lists, i)] == Concat(lists[..i])
    decreases n
  {
    if i < n {
      OffsetStep(lists, n - 1);
      PrefixOfConcat(lists, i, n - 1);
    }
  }

  lemma PlaceOf<T>(lists: seq<seq<T>>, i: nat, j: nat)
    requires i < |lists| && j < |lists[i]|
    ensures Offset(lists, i) + j < |Concat(lists)| && Concat(lists)[Offset(lists, i) + j] == lists[i][j]
  {
    OffsetStep(lists, i);
    PrefixOfConcat(lists, i + 1, |lists|);
    assert lists[..|lists|] == lists;
    assert Concat(lists)[Offset(lists, i) + j] == Concat(lists[..i + 1])[Offset(lists, i) + j];
  }

  lemma {:induction false} PlaceIn<T>(lists: seq<seq<T>>, n: nat, k: nat) returns (i: nat, j: nat)
    requires n <= |lists| && k < Offset(lists, n)
    ensures i < n && j < |lists[i]| && k == Offset(lists, i) + j
    decreases n
  {
    OffsetStep(lists, n - 1);
    if k < Offset(lists, n - 1) {
      i, j := PlaceIn(lists, n - 1, k);
    } else {
      i, j := n - 1, k - Offset(lists, n - 1);
    }
  }

  lemma PlacesDiffer<T>(lists: seq<seq<T>>, i: nat, j: nat, k: nat, l: nat)
    requires i < |lists| && j < |lists[i]| && k < |lists| && l < |lists[k]| && (i != k || j != l)
    ensures Offset(lists, i) + j != Offset(lists, k) + l
  {
    if i < k {
      OffsetStep(lists, i);
      PrefixOfConcat(lists, i + 1, k);
    } else if k < i {
      OffsetStep(lists, k);
      PrefixOfConcat(lists, k + 1, i);
    }
  }

  lemma ConcatHoldsNowhere<T>(lists: seq<seq<T>>, holds: T -> bool)
    ensures (forall k :: 0 <= k < |Concat(lists)| ==> !holds(Concat(lists)[k])) <==> HoldsNowhere(lists, holds)
  {
    var all := Concat(lists);
    hide Concat, Offset;
    if k :| 0 <= k < |all| && holds(all[k]) {
      var i, j := SomePlace(lists, k);
      assert HoldsAt(lists, holds, i, j);
    }
    if i: nat, j: nat :| HoldsAt(lists, holds, i, j) {
      PlaceOf(lists, i, j);
      assert holds(all[Offset(lists, i) + j]);
    }
  }

  lemma ConcatHoldsTwice<T>(lists: seq<seq<T>>, holds: T -> bool)
    ensures (exists k, m :: 0 <= k < m < |Concat(lists)| && holds(Concat(lists)[k]) && holds(Concat(lists)[m]))
            <==> HoldsTwice(lists, holds)
  {
    var all := Concat(lists);
    hide Concat, Offset;
    if k, m :| 0 <= k < m < |all| && holds(all[k]) && holds(all[m]) {
      var i, j := SomePlace(lists, k);
      var x, y := SomePlace(lists, m);
      assert HoldsAt(lists, holds, i, j) && HoldsAt(lists, holds, x, y) && (i != x || j != y);
    }
    if HoldsTwice(lists, holds) {
      var i: nat, j: nat, x: nat, y: nat :|
        HoldsAt(lists, holds, i, j) && HoldsAt(lists, holds, x, y) && (i != x || j != y);
      PlaceOf(lists, i, j);
      PlaceOf(lists, x, y);
      PlacesDiffer(lists, i, j, x, y);
      TwoPlaces(all, holds, Offset(lists, i) + j, Offset(lists, x) + y);
    }
  }

  lemma TwoPlaces<T>(xs: seq<T>, holds: T -> bool, k: nat, m: nat)
    requires k < |xs| && m < |xs| && k != m && holds(xs[k]) && holds(xs[m])
    ensures exists i, j :: 0 <= i < j < |xs| && holds(xs[i]) && holds(xs[j])
  {
    assert k < m || m < k;
  }

  lemma SomePlace<T>(lists: seq<seq<T>>, k: nat) returns (i: nat, j: nat)
    requires k < |Concat(lists)|
    ensures i < |lists| && j < |lists[i]| && k == Offset(lists, i) + j && Concat(lists)[k] == lists[i][j]
  {
    assert lists[..|lists|] == lists;
    i, j := PlaceIn(lists, |lists|, k);
    PlaceOf(lists, i, j);
  }

  // ------------------------------------------------------------------ what a look-up answers

  /** Without a scope: the only item anywhere, or an error if there are several or none. */
  ghost predicate IsOnlyOne<T>(lists: seq<seq<T>>, holds: T -> bool, several: string, none: string, r: Result<T>) {
    if HoldsTwice(lists, holds) then r == Err(several)
    else if HoldsNowhere(lists, holds) then r == Err(none)
    else exists i: nat, j: nat :: HoldsAt(lists, holds, i, j) && r == Ok(lists[i][j])
  }

  /** Within a scope: the first item there, or an error if there is none. */
  ghost predicate IsFirstOne<T>(xs: seq<T>, holds: T -> bool, none: string, r: Result<T>) {
    if exists j: nat :: IsFirst(xs, holds, j) then exists j: nat :: IsFirst(xs, holds, j) && r == Ok(xs[j])
    else r == Err(none)
  }

  function Chosen<T>(picked: seq<T>, several: string, none: string): Result<T> {
    if |picked| > 1 then Err(several) else if picked == [] then Err(none) else Ok(picked[0])
  }

  lemma OnlyOneMeaning<T>(lists: seq<seq<T>>, holds: T -> bool, several: string, none: string)
    ensures IsOnlyOne(lists, holds, several, none, Chosen(Picked(Concat(lists), holds), several, none))
  {
    var all := Concat(lists);
    PickedMembers(all, holds);
    PickedTwice(all, holds);
    ConcatHoldsNowhere(lists, holds);
    ConcatHoldsTwice(lists, holds);
    hide Concat, Picked;
    if |Picked(all, holds)| == 1 {
      var k: nat :| IsFirst(all, holds, k) && all[k] == Picked(all, holds)[0];
      var i, j := SomePlace(lists, k);
      assert HoldsAt(lists, holds, i, j);
    }
  }

  lemma FirstOneMeaning<T>(xs: seq<T>, holds: T -> bool, none: string)
    ensures IsFirstOne(xs, holds, none, if Picked(xs, holds) == [] then Err(none) else Ok(Picked(xs, holds)[0]))
  {
    PickedMembers(xs, holds);
  }

  // ------------------------------------------------------------------ switch ports, interfaces, ECU ports

  function PortLists(switches: seq<Switch>): (r: seq<seq<SwitchPort>>)
    ensures |r| == |switches| && forall i :: 0 <= i < |r| ==> r[i] == switches[i].ports
  {
    seq(|switches|, i requires 0 <= i < |switches| => switches[i].ports)
  }

  function InterfaceLists(controllers: seq<Controller>): (r: seq<seq<Interface>>)
    ensures |r| == |controllers| && forall i :: 0 <= i < |r| ==> r[i] == controllers[i].interfaces
  {
    seq(|controllers|, i requires 0 <= i < |controllers| => controllers[i].interfaces)
  }

  function IsPortNamed(name: string): SwitchPort -> bool {
    (p: SwitchPort) => p.name == name
  }

  function IsInterfaceNamed(name: string): Interface -> bool {
    (i: Interface) => i.name == name
  }

  function IsEcuPortNamed(name: string): EcuPort -> bool {
    (p: EcuPort) => p.name == name
  }

  function IsSwitchNamed(name: string): Switch -> bool {
    (s: Switch) => s.name == name
  }

  function IsControllerNamed(name: string): Controller -> bool {
    (c: Controller) => c.name == name
  }

  /** What a reference to a switch port answers; a scope means the first switch of the name. */
  ghost predicate MeansPort(ref: PortRef, switches: seq<Switch>, r: Result<SwitchPort>) {
    match ref.switch
    case None => IsOnlyOne(PortLists(switches), IsPortNamed(ref.port), "074", "075", r)
    case Some(name) =>
      if exists i: nat :: IsFirst(switches, IsSwitchNamed(name), i) then
        exists i: nat :: IsFirst(switches, IsSwitchNamed(name), i)
          && IsFirstOne(switches[i].ports, IsPortNamed(ref.port), "075", r)
      else r == Err("073")
  }

  /** What a reference to an interface answers; a scope means the first controller of the name. */
  ghost predicate MeansInterface(ref: InterfaceRef, controllers: seq<Controller>, r: Result<Interface>) {
    match ref.controller
    case None => IsOnlyOne(InterfaceLists(controllers), IsInterfaceNamed(ref.iface), "077", "078", r)
    case Some(name) =>
      if exists i: nat :: IsFirst(controllers, IsControllerNamed(name), i) then
        exists i: nat :: IsFirst(controllers, IsControllerNamed(name), i)
          && IsFirstOne(controllers[i].interfaces, IsInterfaceNamed(ref.iface), "078", r)
      else r == Err("076")
  }

  ghost predicate MeansEcuPort(name: string, ports: seq<EcuPort>, r: Result<EcuPort>) {
    IsFirstOne(ports, IsEcuPortNamed(name), "072", r)
  }

  lemma {:induction false} PortsArePicked(ports: seq<SwitchPort>, name: string)
    ensures PortsNamed(ports, name) == Picked(ports, IsPortNamed(name))
  {
    if ports != [] {
      PortsArePicked(ports[1..], name);
    }
  }

  lemma {:induction false} InterfacesArePicked(interfaces: seq<Interface>, name: string)
    ensures InterfacesNamed(interfaces, name) == Picked(interfaces, IsInterfaceNamed(name))
  {
    if interfaces != [] {
      InterfacesArePicked(interfaces[1..], name);
    }
  }

  lemma {:induction false} AllPortsAreConcat(switches: seq<Switch>)
    ensures AllPorts(switches) == Concat(PortLists(switches))
  {
    if switches != [] {
      var n := |switches| - 1;
      AllPortsAreConcat(switches[..n]);
      assert PortLists(switches)[..n] == PortLists(switches[..n]);
    }
  }

  lemma {:induction false} AllInterfacesAreConcat(controllers: seq<Controller>)
    ensures AllInterfaces(controllers) == Concat(InterfaceLists(controllers))
  {
    if controllers != [] {
      var n := |controllers| - 1;
      AllInterfacesAreConcat(controllers[..n]);
      assert InterfaceLists(controllers)[..n] == InterfaceLists(controllers[..n]);
    }
  }

  lemma PortMeaning(ref: PortRef, switches: seq<Switch>)
    ensures MeansPort(ref, switches, FindSwitchPort(ref, switches))
  {
    hide Picked, Concat, IsOnlyOne, IsFirstOne;
    match ref.switch
    case None =>
      AllPortsAreConcat(switches);
      PortsArePicked(AllPorts(switches), ref.port);
      OnlyOneMeaning(PortLists(switches), IsPortNamed(ref.port), "074", "075");
    case Some(name) =>
      var i := SwitchNamedIsFirst(switches, name);
      if i < |switches| {
        assert IsFirst(switches, IsSwitchNamed(name), i);
        PortsArePicked(switches[i].ports, ref.port);
        FirstOneMeaning(switches[i].ports, IsPortNamed(ref.port), "075");
      }
  }

  lemma InterfaceMeaning(ref: InterfaceRef, controllers: seq<Controller>)
    ensures MeansInterface(ref, controllers, FindInterface(ref, controllers))
  {
    hide Picked, Concat, IsOnlyOne, IsFirstOne;
    match ref.controller
    case None =>
      AllInterfacesAreConcat(controllers);
      InterfacesArePicked(AllInterfaces(controllers), ref.iface);
      OnlyOneMeaning(InterfaceLists(controllers), IsInterfaceNamed(ref.iface), "077", "078");
    case Some(name) =>
      var i := ControllerNamedIsFirst(controllers, name);
      if i < |controllers| {
        assert IsFirst(controllers, IsControllerNamed(name), i);
        InterfacesArePicked(controllers[i].interfaces, ref.iface);
        FirstOneMeaning(controllers[i].interfaces, IsInterfaceNamed(ref.iface), "078");
      }
  }

  lemma {:induction false} EcuPortMeaning(name: string, ports: seq<EcuPort>)
    ensures MeansEcuPort(name, ports, FindEcuPort(name, ports))
  {
    if ports != [] {
      assert forall k :: 0 < k < |ports| ==> ports[k] == ports[1..][k - 1];
      if ports[0].name == name {
        assert IsFirst(ports, IsEcuPortNamed(name), 0);
      } else {
        EcuPortMeaning(name, ports[1..]);
        if j: nat :| IsFirst(ports[1..], IsEcuPortNamed(name), j) && FindEcuPort(name, ports) == Ok(ports[1..][j]) {
          assert IsFirst(ports, IsEcuPortNamed(name), j + 1);
        }
        if j: nat :| IsFirst(ports, IsEcuPortNamed(name), j) {
          assert IsFirst(ports[1..], IsEcuPortNamed(name), j - 1);
        }
      }
    }
  }

  // ------------------------------------------------------------------ connections

  /** What the look-up of the first end of a connection answers. */
  ghost predicate MeansFirst(c: Connection, e: Ecu, r: Result<Component>) {
    match c
    case EcuPortToSwitchPort(p, _) => MeansEcuEnd(p, e, r)
    case EcuPortToInterface(p, _) => MeansEcuEnd(p, e, r)
    case SwitchPortToInterface(s, _) => MeansPortEnd(s, e, r)
    case SwitchPortToSwitchPort(s, _) => MeansPortEnd(s, e, r)
    case InterfaceToInterface(i, _) => MeansInterfaceEnd(i, e, r)
  }

  ghost predicate MeansSecond(c: Connection, e: Ecu, r: Result<Component>) {
    match c
    case EcuPortToSwitchPort(_, s) => MeansPortEnd(s, e, r)
    case EcuPortToInterface(_, i) => MeansInterfaceEnd(i, e, r)
    case SwitchPortToInterface(_, i) => MeansInterfaceEnd(i, e, r)
    case SwitchPortToSwitchPort(_, s) => MeansPortEnd(s, e, r)
    case InterfaceToInterface(_, i) => MeansInterfaceEnd(i, e, r)
  }

  ghost predicate MeansEcuEnd(name: string, e: Ecu, r: Result<Component>) {
    match r
    case Ok(c) => c.OfEcuPort? && MeansEcuPort(name, e.ports, Ok(c.ecuPort))
    case Err(code) => MeansEcuPort(name, e.ports, Err(code))
  }

  ghost predicate MeansPortEnd(ref: PortRef, e: Ecu, r: Result<Component>) {
    match r
    case Ok(c) => c.OfSwitchPort? && MeansPort(ref, e.switches, Ok(c.switchPort))
    case Err(code) => MeansPort(ref, e.switches, Err(code))
  }

  ghost predicate MeansInterfaceEnd(ref: InterfaceRef, e: Ecu, r: Result<Component>) {
    match r
    case Ok(c) => c.OfInterface? && MeansInterface(ref, e.controllers, Ok(c.iface))
    case Err(code) => MeansInterface(ref, e.controllers, Err(code))
  }

  lemma EndMeaning(e: Ecu, name: string, s: PortRef, i: InterfaceRef)
    ensures MeansEcuEnd(name, e, EcuPortEnd(name, e))
    ensures MeansPortEnd(s, e, SwitchPortEnd(s, e))
    ensures MeansInterfaceEnd(i, e, InterfaceEnd(i, e))
  {
    hide MeansEcuPort, MeansPort, MeansInterface, FindEcuPort, FindSwitchPort, FindInterface;
    EcuPortMeaning(name, e.ports);
    PortMeaning(s, e.switches);
    InterfaceMeaning(i, e.controllers);
  }

  /** A connection becomes the link of its two ends, or fails with the error of the first end that does. */
  lemma LinkMeaning(c: Connection, e: Ecu) returns (a: Result<Component>, b: Result<Component>)
    ensures MeansFirst(c, e, a) && MeansSecond(c, e, b)
    ensures Resolve(c, e) == if a.Err? then Err(a.code) else if b.Err? then Err(b.code) else Ok(Link(a.value, b.value))
  {
    hide MeansEcuEnd, MeansPortEnd, MeansInterfaceEnd, EcuPortEnd, SwitchPortEnd, InterfaceEnd;
    match c
    case EcuPortToSwitchPort(p, s) =>
      a, b := EcuPortEnd(p, e), SwitchPortEnd(s, e);
      EndMeaning(e, p, s, InterfaceRef("", None));
    case EcuPortToInterface(p, i) =>
      a, b := EcuPortEnd(p, e), InterfaceEnd(i, e);
      EndMeaning(e, p, PortRef("", None), i);
    case SwitchPortToInterface(s, i) =>
      a, b := SwitchPortEnd(s, e), InterfaceEnd(i, e);
      EndMeaning(e, "", s, i);
    case SwitchPortToSwitchPort(s, t) =>
      a, b := SwitchPortEnd(s, e), SwitchPortEnd(t, e);
      EndMeaning(e, "", s, InterfaceRef("", None));
      EndMeaning(e, "", t, InterfaceRef("", None));
    case InterfaceToInterface(i, j) =>
      a, b := InterfaceEnd(i, e), InterfaceEnd(j, e);
      EndMeaning(e, "", PortRef("", None), i);
      EndMeaning(e, "", PortRef("", None), j);
  }

  // ------------------------------------------------------------------ no switch port twice

  predicate IsEndOf(p: SwitchPort, link: Link) {
    link.a == OfSwitchPort(p) || link.b == OfSwitchPort(p)
  }

  /** A switch port is an end of both links. */
  predicate ShareSwitchPort(l: Link, m: Link) {
    (l.a.OfSwitchPort? && (l.a == m.a || l.a == m.b)) || (l.b.OfSwitchPort? && (l.b == m.a || l.b == m.b))
  }

  /** No switch port is both ends of a link, or an end of two. */
  predicate NoPortTwice(links: seq<Link>) {
    && (forall i :: 0 <= i < |links| ==> !(links[i].a.OfSwitchPort? && links[i].a == links[i].b))
    && forall i, j :: 0 <= i < j < |links| ==> !ShareSwitchPort(links[i], links[j])
  }

  lemma SharedEnd(l: Link, m: Link)
    ensures ShareSwitchPort(l, m) <==> exists p :: IsEndOf(p, l) && IsEndOf(p, m)
  {
    if l.a.OfSwitchPort? && (l.a == m.a || l.a == m.b) {
      assert IsEndOf(l.a.switchPort, l) && IsEndOf(l.a.switchPort, m);
    }
    if l.b.OfSwitchPort? && (l.b == m.a || l.b == m.b) {
      assert IsEndOf(l.b.switchPort, l) && IsEndOf(l.b.switchPort, m);
    }
  }

  lemma RefsOfLink(link: Link, p: SwitchPort)
    ensures p in SwitchPortRefs(link) <==> IsEndOf(p, link)
    ensures NoDuplicates(SwitchPortRefs(link)) <==> !(link.a.OfSwitchPort? && link.a == link.b)
  {
    var refs := SwitchPortRefs(link);
    if link.a.OfSwitchPort? && link.b.OfSwitchPort? {
      assert refs == [link.a.switchPort, link.b.switchPort];
      assert refs[0] == link.a.switchPort && refs[1] == link.b.switchPort;
    }
  }

  lemma {:induction false} RefsMembers(links: seq<Link>, p: SwitchPort)
    ensures p in AllRefs(links) <==> exists i :: 0 <= i < |links| && IsEndOf(p, links[i])
  {
    if links != [] {
      var n := |links| - 1;
      RefsMembers(links[..n], p);
      RefsOfLink(links[n], p);
      hide SwitchPortRefs, IsEndOf;
      assert forall i :: 0 <= i < n ==> links[..n][i] == links[i];
      if i :| 0 <= i < n && IsEndOf(p, links[..n][i]) {
        assert IsEndOf(p, links[i]);
      }
      if i :| 0 <= i < |links| && IsEndOf(p, links[i]) {
        assert i < n ==> IsEndOf(p, links[..n][i]);
      }
    }
  }

  lemma NoDuplicatesConcat<T>(a: seq<T>, b: seq<T>)
    ensures NoDuplicates(a + b) <==> NoDuplicates(a) && NoDuplicates(b) && forall x :: x in a ==> x !in b
  {
    if NoDuplicates(a + b) {
      assert forall i :: 0 <= i < |a| ==> a[i] == (a + b)[i];
      assert forall i :: 0 <= i < |b| ==> b[i] == (a + b)[|a| + i];
      forall x | x in a ensures x !in b {
        var i :| 0 <= i < |a| && a[i] == x;
      }
    }
    if NoDuplicates(a) && NoDuplicates(b) && forall x :: x in a ==> x !in b {
      forall i, j | 0 <= i < j < |a + b| ensures (a + b)[i] != (a + b)[j] {
        if i < |a| <= j {
          assert a[i] in a && b[j - |a|] in b;
        }
      }
    }
  }

  lemma PortTwiceStep(links: seq<Link>)
    requires links != []
    ensures var n := |links| - 1;
            NoPortTwice(links) <==>
              && NoPortTwice(links[..n])
              && !(links[n].a.OfSwitchPort? && links[n].a == links[n].b)
              && forall i :: 0 <= i < n ==> !ShareSwitchPort(links[..n][i], links[n])
  {
    var n := |links| - 1;
    hide ShareSwitchPort;
    assert forall i :: 0 <= i < n ==> links[..n][i] == links[i];
  }

  /** The references of the last link are new exactly if it shares no port with an earlier one. */
  lemma LastRefsAreNew(links: seq<Link>)
    requires links != []
    ensures var n := |links| - 1;
            (forall p :: p in AllRefs(links[..n]) ==> p !in SwitchPortRefs(links[n]))
            <==> forall i :: 0 <= i < n ==> !ShareSwitchPort(links[..n][i], links[n])
  {
    var n := |links| - 1;
    forall p
      ensures p in AllRefs(links[..n]) <==> exists i :: 0 <= i < n && IsEndOf(p, links[..n][i])
      ensures p in SwitchPortRefs(links[n]) <==> IsEndOf(p, links[n])
    {
      RefsMembers(links[..n], p);
      RefsOfLink(links[n], p);
    }
    forall i | 0 <= i < n
      ensures ShareSwitchPort(links[..n][i], links[n])
              <==> exists p :: IsEndOf(p, links[..n][i]) && IsEndOf(p, links[n])
    {
      SharedEnd(links[..n][i], links[n]);
    }
    hide ShareSwitchPort, IsEndOf, AllRefs, SwitchPortRefs;
    if p :| p in AllRefs(links[..n]) && p in SwitchPortRefs(links[n]) {
      var i :| 0 <= i < n && IsEndOf(p, links[..n][i]);
      assert ShareSwitchPort(links[..n][i], links[n]);
    }
    if i :| 0 <= i < n && ShareSwitchPort(links[..n][i], links[n]) {
      var p :| IsEndOf(p, links[..n][i]) && IsEndOf(p, links[n]);
      assert p in AllRefs(links[..n]) && p in SwitchPortRefs(links[n]);
    }
  }

  /** The check over the switch ports accepts exactly if none is used twice. */
  lemma {:induction false} RefsMeaning(links: seq<Link>)
    ensures NoDuplicates(AllRefs(links)) <==> NoPortTwice(links)
  {
    if links != [] {
      var n := |links| - 1;
      RefsMeaning(links[..n]);
      NoDuplicatesConcat(AllRefs(links[..n]), SwitchPortRefs(links[n]));
      LastRefsAreNew(links);
      OneLinkRefs(links[n]);
      PortTwiceStep(links);
      hide NoPortTwice, ShareSwitchPort, NoDuplicates, SwitchPortRefs;
      assert AllRefs(links) == AllRefs(links[..n]) + SwitchPortRefs(links[n]);
    }
  }

  lemma OneLinkRefs(link: Link)
    ensures NoDuplicates(SwitchPortRefs(link)) <==> !(link.a.OfSwitchPort? && link.a == link.b)
  {
    if link.a.OfSwitchPort? {
      RefsOfLink(link, link.a.switchPort);
    } else {
      assert |SwitchPortRefs(link)| <= 1;
    }
  }

  // ------------------------------------------------------------------ the wiring

  /** What `c` is linked to by one link: the other end, or itself twice if it is both. */
  function OtherEnds(link: Link, c: Component): seq<Component> {
    (if link.a == c then [link.b] else []) + (if link.b == c then [link.a] else [])
  }

  /** The components at the other ends of the links of `c`, link by link. */
  function PartnersIn(links: seq<Link>, c: Component): seq<Component> {
    if links == [] then [] else OtherEnds(links[0], c) + PartnersIn(links[1..], c)
  }

  lemma {:induction false} PartnersAppend(links: seq<Link>, last: Link, c: Component)
    ensures PartnersIn(links + [last], c) == PartnersIn(links, c) + OtherEnds(last, c)
  {
    hide OtherEnds;
    if links == [] {
      assert [last][1..] == [] && PartnersIn([], c) == [];
      assert [] + [last] == [last];
      assert OtherEnds(last, c) + [] == OtherEnds(last, c) == [] + OtherEnds(last, c);
    } else {
      var rest := links[1..];
      assert (links + [last])[1..] == rest + [last] && (links + [last])[0] == links[0];
      PartnersAppend(rest, last, c);
      ConcatIsAssociative(OtherEnds(links[0], c), PartnersIn(rest, c), OtherEnds(last, c));
    }
  }

  lemma SidesAppend(sides: seq<Side>, link: Link, c: Component)
    ensures PartnersOf(sides + SidesOf(link), c) == PartnersOf(sides, c) + OtherEnds(link, c)
  {
    var one := sides + [(link.a, link.b)];
    assert sides + SidesOf(link) == one + [(link.b, link.a)];
    assert (one + [(link.b, link.a)])[..|one|] == one && one[..|sides|] == sides;
  }

  /** The partners that a component is told while the links are bound are those. */
  lemma {:induction false} PartnersMeaning(links: seq<Link>, c: Component)
    ensures PartnersOf(Sides(links), c) == PartnersIn(links, c)
  {
    if links != [] {
      var n := |links| - 1;
      PartnersMeaning(links[..n], c);
      SidesAppend(Sides(links[..n]), links[n], c);
      PartnersAppend(links[..n], links[n], c);
      assert links == links[..n] + [links[n]];
    }
  }

  /** A switch port keeps the last of its partners, and what it had if there is none. */
  lemma {:induction false} SwitchPortHoldsLast(w: Wiring, sides: seq<Side>, p: SwitchPort)
    requires AllKnown(w, sides) && p in w.switchPorts
    ensures var partners := PartnersOf(sides, OfSwitchPort(p));
            Wire(w, sides).switchPorts[p] ==
              if partners == [] then w.switchPorts[p] else Some(partners[|partners| - 1])
  {
    if sides != [] {
      SwitchPortHoldsLast(w, sides[..|sides| - 1], p);
    }
  }

  /** `at` are, in order, the places of those that share their name with no earlier one. */
  ghost predicate AreFirstOfName(cs: seq<Component>, at: seq<nat>) {
    && (forall i, j :: 0 <= i < j < |at| ==> at[i] < at[j])
    && forall k: nat :: k in at <==> k < |cs| && forall m :: 0 <= m < k ==> NameOf(cs[m]) != NameOf(cs[k])
  }

  lemma FirstOfNameAppend(cs: seq<Component>, before: seq<nat>, at: seq<nat>)
    requires cs != [] && AreFirstOfName(cs[..|cs| - 1], before)
    requires at == before + if HasName(cs[..|cs| - 1], NameOf(cs[|cs| - 1])) then [] else [|cs| - 1]
    ensures AreFirstOfName(cs, at)
  {
    hide NameOf;
    var n := |cs| - 1;
    assert forall i :: 0 <= i < |before| ==> before[i] in before;
    forall k: nat
      ensures k in at <==> k < |cs| && forall m :: 0 <= m < k ==> NameOf(cs[m]) != NameOf(cs[k])
    {
      assert forall m :: 0 <= m < n ==> cs[..n][m] == cs[m];
      assert k in at <==> k in before || (k == n && !HasName(cs[..n], NameOf(cs[n])));
    }
  }

  lemma ListedStep(partners: seq<Component>)
    requires partners != []
    ensures var init, last := partners[..|partners| - 1], partners[|partners| - 1];
            Listed(partners) == Listed(init) + if HasName(init, NameOf(last)) then [] else [last]
  {
    ListedNames(partners[..|partners| - 1], NameOf(partners[|partners| - 1]));
  }

  lemma {:induction false} ListedInOrder(partners: seq<Component>) returns (at: seq<nat>)
    ensures AreFirstOfName(partners, at) && |Listed(partners)| == |at|
    ensures forall i :: 0 <= i < |at| ==> at[i] < |partners| && Listed(partners)[i] == partners[at[i]]
  {
    if partners == [] {
      at := [];
    } else {
      hide AreFirstOfName, HasName, NameOf, Listed;
      var n := |partners| - 1;
      var before := ListedInOrder(partners[..n]);
      at := before + if HasName(partners[..n], NameOf(partners[n])) then [] else [n];
      FirstOfNameAppend(partners, before, at);
      ListedStep(partners);
    }
  }

  /**
   The wiring of freshly built components: a switch port holds its last partner, an interface lists all partners
   in order, and an ECU port lists, in order, the first partner of each name.
   */
  lemma WiringMeaning(w: Wiring, links: seq<Link>, p: SwitchPort, i: Interface, q: EcuPort)
    requires AllKnown(w, Sides(links)) && Unwired(w)
    requires p in w.switchPorts && i in w.interfaces && q in w.ecuPorts
    ensures var wired := Wire(w, Sides(links));
            && wired.interfaces[i] == PartnersIn(links, OfInterface(i))
            && wired.ecuPorts[q] == Listed(PartnersIn(links, OfEcuPort(q)))
            && wired.switchPorts[p] == (var partners := PartnersIn(links, OfSwitchPort(p));
                                        if partners == [] then None else Some(partners[|partners| - 1]))
  {
    PartnersMeaning(links, OfInterface(i));
    PartnersMeaning(links, OfEcuPort(q));
    PartnersMeaning(links, OfSwitchPort(p));
    InterfaceListsPartners(w, Sides(links), i);
    EcuPortLists(w, Sides(links), q);
    SwitchPortHoldsLast(w, Sides(links), p);
  }
}
