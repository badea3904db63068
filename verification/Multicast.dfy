/**
 Multicast path exploration: level by level, from an interface, along the links and
 siblings that carry a VLAN.
 */
module Multicast {
  import opened Wrappers
  import opened Graphs

  // ------------------------------------------------------------------ the network

  datatype Kind = SwitchPort | ControllerInterface | EcuPort

  /** `oid` is the object identity; `owner` names the switch or controller of a port or interface. */
  datatype Comp = Comp(oid: nat, kind: Kind, name: string, owner: string)

  datatype VlanEntry = VlanEntry(id: int, ports: seq<string>)
  datatype Switch = Switch(oid: nat, name: string, ports: seq<Comp>, vlans: seq<VlanEntry>)

  /** `peerOf` has no entry for an unconnected switch port. */
  datatype Network = Network(
    peerOf: map<Comp, Comp>,
    links: map<Comp, seq<Comp>>,
    siblings: map<Comp, seq<Comp>>,
    switchOf: map<Comp, Switch>,
    vlansOf: map<Comp, set<int>>)

  /** The identity `check_obj_in_list` compares: kind, name and, except for ECU ports, owner. */
  predicate Same(a: Comp, b: Comp) {
    a.kind == b.kind && a.name == b.name && (a.kind == EcuPort || a.owner == b.owner)
  }

  predicate InList(c: Comp, list: seq<Comp>) {
    exists x :: x in list && Same(x, c)
  }

  method CheckObjInList(c: Comp, list: seq<Comp>) returns (flag: bool)
    ensures flag <==> InList(c, list)
  {
    flag := false;
    for i := 0 to |list|
      invariant flag <==> exists k :: 0 <= k < i && Same(list[k], c)
    {
      if list[i].kind == c.kind
         && ((list[i].kind == SwitchPort && c.name == list[i].name && c.owner == list[i].owner)
             || (list[i].kind == ControllerInterface && c.name == list[i].name && c.owner == list[i].owner)
             || (list[i].kind == EcuPort && c.name == list[i].name)) {
        flag := true;
      }
    }
  }

  // ------------------------------------------------------------------ VLAN queries

  function VlansOf(net: Network, c: Comp): seq<VlanEntry> {
    if c in net.switchOf then net.switchOf[c].vlans else []
  }

  function PortsOf(net: Network, c: Comp): seq<Comp> {
    if c in net.switchOf then net.switchOf[c].ports else []
  }

  predicate ListsPort(vlans: seq<VlanEntry>, vlan: int, name: string) {
    exists e :: e in vlans && e.id == vlan && name in e.ports
  }

  /** `SwitchPort.is_part_of_vlan`: a search with early return. */
  method SwitchPortInVlan(net: Network, c: Comp, vlan: int) returns (r: bool)
    ensures r <==> ListsPort(VlansOf(net, c), vlan, c.name)
  {
    var vlans := VlansOf(net, c);
    for i := 0 to |vlans|
      invariant forall k :: 0 <= k < i ==> !(vlans[k].id == vlan && c.name in vlans[k].ports)
    {
      if vlans[i].id == vlan && c.name in vlans[i].ports {
        return true;
      }
    }
    return false;
  }

  /** The names of all ports of the entries for `vlan`, in order. */
  function VlanPortNames(vlans: seq<VlanEntry>, vlan: int): seq<string> {
    if vlans == [] then []
    else
      var e := vlans[|vlans| - 1];
      VlanPortNames(vlans[..|vlans| - 1], vlan) + if e.id == vlan then e.ports else []
  }

  function Named(ports: seq<Comp>, name: string): seq<Comp> {
    if ports == [] then []
    else Named(ports[..|ports| - 1], name) + if ports[|ports| - 1].name == name then [ports[|ports| - 1]] else []
  }

  function NamedInTurn(ports: seq<Comp>, names: seq<string>): seq<Comp> {
    if names == [] then [] else NamedInTurn(ports, names[..|names| - 1]) + Named(ports, names[|names| - 1])
  }

  function VlanPorts(net: Network, c: Comp, vlan: int): seq<Comp> {
    NamedInTurn(PortsOf(net, c), VlanPortNames(VlansOf(net, c), vlan))
  }

  /** `SwitchPort.get_vlan_connected_ports`. */
  method GetVlanConnectedPorts(net: Network, c: Comp, vlan: int) returns (r: seq<Comp>)
    ensures r == VlanPorts(net, c, vlan)
  {
    var names: seq<string> := [];
    var vlans := VlansOf(net, c);
    for i := 0 to |vlans|
      invariant names == VlanPortNames(vlans[..i], vlan)
    {
      assert vlans[..i + 1][..i] == vlans[..i];
      if vlans[i].id == vlan {
        names := names + vlans[i].ports;
      }
    }
    assert vlans[..|vlans|] == vlans;
    r := NamedInTurn(PortsOf(net, c), names);
  }

  /** It lists exactly the switch's ports that some entry for the VLAN names. */
  lemma VlanPortsMeaning(net: Network, c: Comp, vlan: int, d: Comp)
    ensures d in VlanPorts(net, c, vlan) <==> d in PortsOf(net, c) && ListsPort(VlansOf(net, c), vlan, d.name)
  {
    NamedInTurnMeaning(PortsOf(net, c), VlanPortNames(VlansOf(net, c), vlan), d);
    VlanPortNamesMeaning(VlansOf(net, c), vlan, d.name);
  }

  lemma {:induction false} VlanPortNamesMeaning(vlans: seq<VlanEntry>, vlan: int, name: string)
    ensures name in VlanPortNames(vlans, vlan) <==> ListsPort(vlans, vlan, name)
  {
    if vlans != [] {
      var n := |vlans| - 1;
      VlanPortNamesMeaning(vlans[..n], vlan, name);
      assert vlans == vlans[..n] + [vlans[n]];
    }
  }

  lemma {:induction false} NamedMeaning(ports: seq<Comp>, name: string, d: Comp)
    ensures d in Named(ports, name) <==> d in ports && d.name == name
  {
    if ports != [] {
      NamedMeaning(ports[..|ports| - 1], name, d);
      assert ports == ports[..|ports| - 1] + [ports[|ports| - 1]];
    }
  }

  lemma {:induction false} NamedInTurnMeaning(ports: seq<Comp>, names: seq<string>, d: Comp)
    ensures d in NamedInTurn(ports, names) <==> d in ports && d.name in names
  {
    if names != [] {
      NamedInTurnMeaning(ports, names[..|names| - 1], d);
      NamedMeaning(ports, names[|names| - 1], d);
      assert names == names[..|names| - 1] + [names[|names| - 1]];
    }
  }

  /** Switch ports and interfaces must carry the VLAN; ECU ports carry every VLAN. */
  predicate CarriesVlan(net: Network, c: Comp, vlan: int) {
    match c.kind
    case SwitchPort => ListsPort(VlansOf(net, c), vlan, c.name)
    case ControllerInterface => c in net.vlansOf && vlan in net.vlansOf[c]
    case EcuPort => true
  }

  // ------------------------------------------------------------------ what a component leads to

  function Linked(net: Network, c: Comp): seq<Comp> {
    if c.kind == SwitchPort then (if c in net.peerOf then [net.peerOf[c]] else [])
    else if c in net.links then net.links[c]
    else []
  }

  function SiblingsOf(net: Network, c: Comp): seq<Comp> {
    if c in net.siblings then net.siblings[c] else []
  }

  function Carrying(net: Network, list: seq<Comp>, vlan: int): seq<Comp> {
    if list == [] then []
    else
      var d := list[|list| - 1];
      Carrying(net, list[..|list| - 1], vlan) + if CarriesVlan(net, d, vlan) then [d] else []
  }

  function OtherNames(list: seq<Comp>, name: string): seq<Comp> {
    if list == [] then []
    else OtherNames(list[..|list| - 1], name) + if list[|list| - 1].name != name then [list[|list| - 1]] else []
  }

  /**
   The components one step away from `c` on a path of `vlan` from `start`: its VLAN-valid
   links, the other ports of its switch in the VLAN, the other interfaces of its controller.
   The start leads to its direct links only.
   */
  function Next(net: Network, vlan: int, start: Comp, c: Comp): seq<Comp> {
    Carrying(net, Linked(net, c), vlan)
    + if c == start || c.kind == EcuPort then []
      else if c.kind == SwitchPort then OtherNames(VlanPorts(net, c, vlan), c.name)
      else OtherNames(Carrying(net, SiblingsOf(net, c), vlan), c.name)
  }

  /** Every component the network mentions, and the start. */
  ghost function Universe(net: Network, start: Comp): set<Comp> {
    {start} + net.peerOf.Keys + net.links.Keys + net.siblings.Keys + net.switchOf.Keys
    + (set c | c in net.peerOf :: net.peerOf[c])
    + (set c, d | c in net.links && d in net.links[c] :: d)
    + (set c, d | c in net.siblings && d in net.siblings[c] :: d)
    + (set c, d | c in net.switchOf && d in net.switchOf[c].ports :: d)
  }

  ghost function PathGraph(net: Network, vlan: int, start: Comp): Graph<Comp> {
    map c | c in Universe(net, start) :: Next(net, vlan, start, c)
  }

  lemma {:induction false} CarryingMeaning(net: Network, list: seq<Comp>, vlan: int, d: Comp)
    ensures d in Carrying(net, list, vlan) <==> d in list && CarriesVlan(net, d, vlan)
  {
    if list != [] {
      CarryingMeaning(net, list[..|list| - 1], vlan, d);
      assert list == list[..|list| - 1] + [list[|list| - 1]];
    }
  }

  lemma {:induction false} OtherNamesMeaning(list: seq<Comp>, name: string, d: Comp)
    ensures d in OtherNames(list, name) <==> d in list && d.name != name
  {
    if list != [] {
      OtherNamesMeaning(list[..|list| - 1], name, d);
      assert list == list[..|list| - 1] + [list[|list| - 1]];
    }
  }

  lemma NextMeaning(net: Network, vlan: int, start: Comp, c: Comp, d: Comp)
    ensures d in Next(net, vlan, start, c) <==>
              || (d in Linked(net, c) && CarriesVlan(net, d, vlan))
              || (c != start && c.kind == SwitchPort && d.name != c.name
                  && d in PortsOf(net, c) && ListsPort(VlansOf(net, c), vlan, d.name))
              || (c != start && c.kind == ControllerInterface && d.name != c.name
                  && d in SiblingsOf(net, c) && CarriesVlan(net, d, vlan))
    ensures d in Next(net, vlan, start, c) ==> d in Universe(net, start)
  {
    CarryingMeaning(net, Linked(net, c), vlan, d);
    CarryingMeaning(net, SiblingsOf(net, c), vlan, d);
    OtherNamesMeaning(VlanPorts(net, c, vlan), c.name, d);
    OtherNamesMeaning(Carrying(net, SiblingsOf(net, c), vlan), c.name, d);
    VlanPortsMeaning(net, c, vlan, d);
  }
}
