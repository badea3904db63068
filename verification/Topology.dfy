/**
 The internal topology of an ECU: connections name their components, binding resolves the names and
 wires the components to each other in place, and a check over the switch ports follows.
 */
module Topology {
  import opened Wrappers
  import opened Graphs

  // ------------------------------------------------------------------ components

  class SwitchPort {
    const name: string
    var connected: Option<Component>

    constructor (name: string)
      ensures this.name == name && connected == None
    {
      this.name := name;
      connected := None;
    }
  }

  class EcuPort {
    const name: string
    var connected: seq<Component>

    constructor (name: string)
      ensures this.name == name && connected == []
    {
      this.name := name;
      connected := [];
    }
  }

  class Interface {
    const name: string
    var connected: seq<Component>

    constructor (name: string)
      ensures this.name == name && connected == []
    {
      this.name := name;
      connected := [];
    }
  }

  datatype Component =
    | OfSwitchPort(switchPort: SwitchPort)
    | OfEcuPort(ecuPort: EcuPort)
    | OfInterface(iface: Interface)

  function NameOf(c: Component): string {
    match c
    case OfSwitchPort(p) => p.name
    case OfEcuPort(p) => p.name
    case OfInterface(i) => i.name
  }

  datatype Switch = Switch(name: string, ports: seq<SwitchPort>)
  datatype Controller = Controller(name: string, interfaces: seq<Interface>)
  datatype Ecu = Ecu(switches: seq<Switch>, controllers: seq<Controller>, ports: seq<EcuPort>)

  function AllPorts(switches: seq<Switch>): seq<SwitchPort> {
    if switches == [] then [] else AllPorts(switches[..|switches| - 1]) + switches[|switches| - 1].ports
  }

  function AllInterfaces(controllers: seq<Controller>): seq<Interface> {
    if controllers == [] then []
        else AllInterfaces(controllers[..|controllers| - 1]) + controllers[|controllers| - 1].interfaces
  }

  // ------------------------------------------------------------------ connections and their resolution

  datatype PortRef = PortRef(port: string, switch: Option<string>)
  datatype InterfaceRef = InterfaceRef(iface: string, controller: Option<string>)

  datatype Connection =
    | EcuPortToSwitchPort(ecuPort: string, switchPort: PortRef)
    | EcuPortToInterface(ecuPort: string, iface: InterfaceRef)
    | SwitchPortToInterface(switchPort: PortRef, iface: InterfaceRef)
    | SwitchPortToSwitchPort(switchPort: PortRef, switchPort2: PortRef)
    | InterfaceToInterface(iface: InterfaceRef, iface2: InterfaceRef)

  /** A bound connection: its two ends, in the order in which `bind` wires them. */
  datatype Link = Link(a: Component, b: Component)

  /** `code` is the error number of the source. */
  datatype Result<T> = Ok(value: T) | Err(code: string)

  function EcuPortNamed(ports: seq<EcuPort>, name: string): Option<EcuPort> {
    if ports == [] then None else if ports[0].name == name then Some(ports[0]) else EcuPortNamed(ports[1..], name)
  }

  function PortsNamed(ports: seq<SwitchPort>, name: string): seq<SwitchPort> {
    if ports == [] then []
    else (if ports[0].name == name then [ports[0]] else []) + PortsNamed(ports[1..], name)
  }

  function InterfacesNamed(interfaces: seq<Interface>, name: string): seq<Interface> {
    if interfaces == [] then []
    else (if interfaces[0].name == name then [interfaces[0]] else []) + InterfacesNamed(interfaces[1..], name)
  }

  function SwitchNamed(switches: seq<Switch>, name: string): Option<Switch> {
    if switches == [] then None else if switches[0].name == name then Some(switches[0])
        else SwitchNamed(switches[1..], name)
  }

  function ControllerNamed(controllers: seq<Controller>, name: string): Option<Controller> {
    if controllers == [] then None
    else if controllers[0].name == name then Some(controllers[0]) else ControllerNamed(controllers[1..], name)
  }

  function FindSwitchPort(ref: PortRef, switches: seq<Switch>): Result<SwitchPort> {
    if ref.switch.Some? then
      var switch := SwitchNamed(switches, ref.switch.value);
      if switch.None? then Err("073")
      else
        var matches := PortsNamed(switch.value.ports, ref.port);
        if matches == [] then Err("075") else Ok(matches[0])
    else
      var matches := PortsNamed(AllPorts(switches), ref.port);
      if |matches| > 1 then Err("074") else if matches == [] then Err("075") else Ok(matches[0])
  }

  function FindInterface(ref: InterfaceRef, controllers: seq<Controller>): Result<Interface> {
    if ref.controller.Some? then
      var controller := ControllerNamed(controllers, ref.controller.value);
      if controller.None? then Err("076")
      else
        var matches := InterfacesNamed(controller.value.interfaces, ref.iface);
        if matches == [] then Err("078") else Ok(matches[0])
    else
      var matches := InterfacesNamed(AllInterfaces(controllers), ref.iface);
      if |matches| > 1 then Err("077") else if matches == [] then Err("078") else Ok(matches[0])
  }

  function FindEcuPort(name: string, ports: seq<EcuPort>): Result<EcuPort> {
    var port := EcuPortNamed(ports, name);
    if port.None? then Err("072") else Ok(port.value)
  }

  /** Pairs two resolutions: the first error in order, or the link. */
  function Pair(a: Result<Component>, b: Result<Component>): Result<Link> {
    if a.Err? then Err(a.code) else if b.Err? then Err(b.code) else Ok(Link(a.value, b.value))
  }

  function SwitchPortEnd(ref: PortRef, e: Ecu): Result<Component> {
    var r := FindSwitchPort(ref, e.switches);
    if r.Ok? then Ok(OfSwitchPort(r.value)) else Err(r.code)
  }

  function InterfaceEnd(ref: InterfaceRef, e: Ecu): Result<Component> {
    var r := FindInterface(ref, e.controllers);
    if r.Ok? then Ok(OfInterface(r.value)) else Err(r.code)
  }

  function EcuPortEnd(name: string, e: Ecu): Result<Component> {
    var r := FindEcuPort(name, e.ports);
    if r.Ok? then Ok(OfEcuPort(r.value)) else Err(r.code)
  }

  function Resolve(c: Connection, e: Ecu): Result<Link> {
    match c
    case EcuPortToSwitchPort(p, s) => Pair(EcuPortEnd(p, e), SwitchPortEnd(s, e))
    case EcuPortToInterface(p, i) => Pair(EcuPortEnd(p, e), InterfaceEnd(i, e))
    case SwitchPortToInterface(s, i) => Pair(SwitchPortEnd(s, e), InterfaceEnd(i, e))
    case SwitchPortToSwitchPort(s, t) => Pair(SwitchPortEnd(s, e), SwitchPortEnd(t, e))
    case InterfaceToInterface(i, j) => Pair(InterfaceEnd(i, e), InterfaceEnd(j, e))
  }

  /** The connections bound before the first one that does not resolve. */
  function Bound(connections: seq<Connection>, e: Ecu): (links: seq<Link>)
    ensures |links| <= |connections|
    ensures forall i :: 0 <= i < |links| ==> Resolve(connections[i], e) == Ok(links[i])
    ensures |links| < |connections| ==> Resolve(connections[|links|], e).Err?
  {
    hide Resolve;
    if connections == [] then []
    else
      var r := Resolve(connections[0], e);
      if r.Err? then [] else [r.value] + Bound(connections[1..], e)
  }

  // ------------------------------------------------------------------ what the names mean

  predicate Holds(e: Ecu, c: Component) {
    match c
    case OfSwitchPort(p) => p in AllPorts(e.switches)
    case OfEcuPort(p) => p in e.ports
    case OfInterface(i) => i in AllInterfaces(e.controllers)
  }

  lemma {:induction false} PortsNamedMembers(ports: seq<SwitchPort>, name: string)
    ensures forall k ::
              0 <= k < |PortsNamed(ports, name)| ==>
                  PortsNamed(ports, name)[k] in ports && PortsNamed(ports, name)[k].name == name
    ensures forall k :: 0 <= k < |ports| && ports[k].name == name ==> ports[k] in PortsNamed(ports, name)
  {
    if ports != [] {
      PortsNamedMembers(ports[1..], name);
      assert ports == [ports[0]] + ports[1..];
    }
  }

  lemma {:induction false} InterfacesNamedMembers(interfaces: seq<Interface>, name: string)
    ensures forall k ::
              0 <= k < |InterfacesNamed(interfaces, name)| ==>
                  InterfacesNamed(interfaces, name)[k] in interfaces
                    && InterfacesNamed(interfaces, name)[k].name == name
    ensures forall k ::
              0 <= k < |interfaces| && interfaces[k].name == name ==> interfaces[k] in InterfacesNamed(interfaces, name)
  {
    if interfaces != [] {
      InterfacesNamedMembers(interfaces[1..], name);
      assert interfaces == [interfaces[0]] + interfaces[1..];
    }
  }

  lemma {:induction false} PortsAreCollected(switches: seq<Switch>, i: nat, p: SwitchPort)
    requires i < |switches| && p in switches[i].ports
    ensures p in AllPorts(switches)
  {
    if i < |switches| - 1 {
      PortsAreCollected(switches[..|switches| - 1], i, p);
    }
  }

  lemma {:induction false} InterfacesAreCollected(controllers: seq<Controller>, i: nat, p: Interface)
    requires i < |controllers| && p in controllers[i].interfaces
    ensures p in AllInterfaces(controllers)
  {
    if i < |controllers| - 1 {
      InterfacesAreCollected(controllers[..|controllers| - 1], i, p);
    }
  }

  lemma {:induction false} SwitchNamedIsFirst(switches: seq<Switch>, name: string) returns (i: nat)
    ensures i <= |switches| && forall k :: 0 <= k < i ==> switches[k].name != name
    ensures SwitchNamed(switches, name) == if i < |switches| then Some(switches[i]) else None
    ensures i < |switches| ==> switches[i].name == name
  {
    if switches == [] || switches[0].name == name {
      i := 0;
    } else {
      var k := SwitchNamedIsFirst(switches[1..], name);
      i := k + 1;
    }
  }

  lemma {:induction false} ControllerNamedIsFirst(controllers: seq<Controller>, name: string) returns (i: nat)
    ensures i <= |controllers| && forall k :: 0 <= k < i ==> controllers[k].name != name
    ensures ControllerNamed(controllers, name) == if i < |controllers| then Some(controllers[i]) else None
    ensures i < |controllers| ==> controllers[i].name == name
  {
    if controllers == [] || controllers[0].name == name {
      i := 0;
    } else {
      var k := ControllerNamedIsFirst(controllers[1..], name);
      i := k + 1;
    }
  }

  lemma {:induction false} PortsNamedCount(ports: seq<SwitchPort>, name: string)
    ensures |PortsNamed(ports, name)| > 1
            <==> exists i, j :: 0 <= i < j < |ports| && ports[i].name == name == ports[j].name
  {
    if ports != [] {
      var rest := ports[1..];
      PortsNamedCount(rest, name);
      PortsNamedMembers(rest, name);
      if i, j :| 0 <= i < j < |ports| && ports[i].name == name == ports[j].name {
        if i > 0 {
          assert rest[i - 1].name == name == rest[j - 1].name;
        } else {
          assert rest[j - 1] in PortsNamed(rest, name);
        }
      }
      if ports[0].name == name && PortsNamed(rest, name) != [] {
        var p := PortsNamed(rest, name)[0];
        assert p in rest;
        var k :| 0 <= k < |rest| && rest[k] == p;
        assert ports[0].name == name == ports[k + 1].name;
      }
      if i, j :| 0 <= i < j < |rest| && rest[i].name == name == rest[j].name {
        assert ports[i + 1].name == name == ports[j + 1].name;
      }
    }
  }

  predicate IsFirstSwitch(switches: seq<Switch>, i: nat, name: string) {
    i < |switches| && switches[i].name == name && forall k :: 0 <= k < i ==> switches[k].name != name
  }

  predicate IsFirstPort(ports: seq<SwitchPort>, j: nat, name: string) {
    j < |ports| && ports[j].name == name && forall k :: 0 <= k < j ==> ports[k].name != name
  }

  lemma {:induction false} FirstPortNamed(ports: seq<SwitchPort>, name: string)
    ensures PortsNamed(ports, name) != [] ==>
              exists j: nat :: IsFirstPort(ports, j, name) && ports[j] == PortsNamed(ports, name)[0]
  {
    if PortsNamed(ports, name) != [] {
      if ports[0].name == name {
        assert IsFirstPort(ports, 0, name);
      } else {
        FirstPortNamed(ports[1..], name);
        var j: nat :| IsFirstPort(ports[1..], j, name) && ports[1..][j] == PortsNamed(ports[1..], name)[0];
        assert forall k :: 0 < k < j + 1 ==> ports[k] == ports[1..][k - 1];
        assert IsFirstPort(ports, j + 1, name);
      }
    }
  }

  /**
   A scoped reference is missing its switch exactly when no switch has the name. Otherwise it looks in the
   first switch of that name only, and resolves to the first port there that has the name, if there is one.
   */
  lemma ScopedPortMeaning(ref: PortRef, switches: seq<Switch>)
    requires ref.switch.Some?
    ensures var r := FindSwitchPort(ref, switches);
            && (r == Err("073") <==> forall s :: s in switches ==> s.name != ref.switch.value)
            && r != Err("074")
            && (forall i: nat :: IsFirstSwitch(switches, i, ref.switch.value) ==>
                  && (r == Err("075") <==> forall p :: p in switches[i].ports ==> p.name != ref.port)
                  && (r.Ok? ==>
                      exists j: nat :: IsFirstPort(switches[i].ports, j, ref.port) && switches[i].ports[j] == r.value))
  {
    var i := SwitchNamedIsFirst(switches, ref.switch.value);
    if i < |switches| {
      assert switches[i] in switches;
      PortsNamedMembers(switches[i].ports, ref.port);
      FirstPortNamed(switches[i].ports, ref.port);
      forall k: nat | IsFirstSwitch(switches, k, ref.switch.value) ensures k == i {
        assert !(k < i) && !(i < k);
      }
    }
  }

  /**
   An unscoped reference is ambiguous exactly when two ports of the ECU have the name, and missing exactly
   when none has; otherwise it resolves to the only such port.
   */
  lemma FindSwitchPortMeaning(ref: PortRef, switches: seq<Switch>)
    ensures var r, all := FindSwitchPort(ref, switches), AllPorts(switches);
            && (r.Ok? ==> r.value in all && r.value.name == ref.port)
            && (ref.switch.None? ==>
                 && (r == Err("074") <==> exists i, j :: 0 <= i < j < |all| && all[i].name == ref.port == all[j].name)
                 && (r == Err("075") <==> forall k :: 0 <= k < |all| ==> all[k].name != ref.port)
                 && (r.Ok? ==> forall k :: 0 <= k < |all| && all[k].name == ref.port ==> all[k] == r.value))
  {
    if ref.switch.Some? {
      var i := SwitchNamedIsFirst(switches, ref.switch.value);
      if i < |switches| {
        PortsNamedMembers(switches[i].ports, ref.port);
        var r := FindSwitchPort(ref, switches);
        if r.Ok? {
          PortsAreCollected(switches, i, r.value);
        }
      }
    } else {
      var matches := PortsNamed(AllPorts(switches), ref.port);
      PortsNamedMembers(AllPorts(switches), ref.port);
      PortsNamedCount(AllPorts(switches), ref.port);
    }
  }

  lemma InterfaceEndIsHeld(ref: InterfaceRef, e: Ecu)
    requires InterfaceEnd(ref, e).Ok?
    ensures Holds(e, InterfaceEnd(ref, e).value) && InterfaceEnd(ref, e).value.OfInterface?
  {
    if ref.controller.Some? {
      var i := ControllerNamedIsFirst(e.controllers, ref.controller.value);
      InterfacesNamedMembers(e.controllers[i].interfaces, ref.iface);
      InterfacesAreCollected(e.controllers, i, FindInterface(ref, e.controllers).value);
    } else {
      InterfacesNamedMembers(AllInterfaces(e.controllers), ref.iface);
    }
  }

  lemma SwitchPortEndIsHeld(ref: PortRef, e: Ecu)
    requires SwitchPortEnd(ref, e).Ok?
    ensures Holds(e, SwitchPortEnd(ref, e).value) && SwitchPortEnd(ref, e).value.OfSwitchPort?
  {
    FindSwitchPortMeaning(ref, e.switches);
  }

  lemma {:induction false} EcuPortNamedIsHeld(ports: seq<EcuPort>, name: string)
    requires EcuPortNamed(ports, name).Some?
    ensures EcuPortNamed(ports, name).value in ports
  {
    if ports[0].name != name {
      EcuPortNamedIsHeld(ports[1..], name);
    }
  }

  /** Both ends of a bound connection are components of the ECU, of the kinds that the connection names. */
  lemma LinkIsHeld(c: Connection, e: Ecu)
    requires Resolve(c, e).Ok?
    ensures Holds(e, Resolve(c, e).value.a) && Holds(e, Resolve(c, e).value.b)
  {
    match c
    case EcuPortToSwitchPort(p, s) => EcuPortNamedIsHeld(e.ports, p); SwitchPortEndIsHeld(s, e);
    case EcuPortToInterface(p, i) => EcuPortNamedIsHeld(e.ports, p); InterfaceEndIsHeld(i, e);
    case SwitchPortToInterface(s, i) => SwitchPortEndIsHeld(s, e); InterfaceEndIsHeld(i, e);
    case SwitchPortToSwitchPort(s, t) => SwitchPortEndIsHeld(s, e); SwitchPortEndIsHeld(t, e);
    case InterfaceToInterface(i, j) => InterfaceEndIsHeld(i, e); InterfaceEndIsHeld(j, e);
  }
}
