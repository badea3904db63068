/**
 The multicast pass over a whole workspace: one path per transmitted group and VLAN, then
 the switch tables.
 */
module MulticastValidation {
  import opened Wrappers
  import opened Graphs
  import opened Multicast
  import opened LevelSearch
  import opened MulticastPaths
  import opened MulticastTables

  datatype Membership = Membership(group: string, vlan: int, transmits: bool, interface: Comp)

  /** The interface of the first membership that transmits to the group in the VLAN. */
  function FirstTransmitter(ms: seq<Membership>, group: string, vlan: int): Option<Comp> {
    if ms == [] then None
    else
      var earlier := FirstTransmitter(ms[..|ms| - 1], group, vlan);
      var m := ms[|ms| - 1];
      if earlier.Some? then earlier
      else if m.transmits && m.group == group && m.vlan == vlan then Some(m.interface)
      else None
  }

  predicate HasPath(paths: seq<PathEntry>, group: string, vlan: int) {
    exists k :: 0 <= k < |paths| && paths[k].address == group && paths[k].vlan == vlan
  }

  /** Each path belongs to a transmitted group and VLAN, and starts at its first transmitter. */
  ghost predicate PathsKeyed(ms: seq<Membership>, paths: seq<PathEntry>, starts: seq<Comp>) {
    && |starts| == |paths|
    && (forall k :: 0 <= k < |paths| ==> FirstTransmitter(ms, paths[k].address, paths[k].vlan) == Some(starts[k]))
    && (forall group, vlan :: FirstTransmitter(ms, group, vlan).Some? ==> HasPath(paths, group, vlan))
  }

  ghost predicate PathsComputed(net: Network, paths: seq<PathEntry>, starts: seq<Comp>, strict: bool)
    requires |starts| == |paths|
  {
    paths == []
    || (PathsComputed(net, paths[..|paths| - 1], starts[..|paths| - 1], strict)
        && ComputedFrom(net, paths[|paths| - 1], starts[|paths| - 1], strict))
  }

  lemma {:induction false} EachComputed(net: Network, paths: seq<PathEntry>, starts: seq<Comp>, strict: bool, k: nat)
    requires |starts| == |paths| && PathsComputed(net, paths, starts, strict) && k < |paths|
    ensures ComputedFrom(net, paths[k], starts[k], strict)
  {
    if k < |paths| - 1 {
      EachComputed(net, paths[..|paths| - 1], starts[..|paths| - 1], strict, k);
    }
  }

  ghost predicate ComputedFrom(net: Network, path: PathEntry, start: Comp, strict: bool) {
    PathOutcome(net, path.vlan, PathGraph(net, path.vlan, start), start, strict, Some(path.comps))
  }

  /** Port `port` of `sw` is reached, in the VLAN of entry `i`, from the first transmitter of the group. */
  ghost predicate Reached(net: Network, ms: seq<Membership>, sw: Switch, i: nat, group: string, port: string)
    requires i < |sw.vlans|
  {
    var vlan := sw.vlans[i].id;
    exists start, c :: FirstTransmitter(ms, group, vlan) == Some(start)
      && Reaches(PathGraph(net, vlan, start), start, c) && Contributes(net, c, vlan, sw, i, port)
  }

  /** No component is hidden from the searches of the transmitters. */
  ghost predicate AllVisible(net: Network, ms: seq<Membership>) {
    forall group, vlan :: FirstTransmitter(ms, group, vlan).Some? ==>
      NothingHidden(PathGraph(net, vlan, FirstTransmitter(ms, group, vlan).value),
          FirstTransmitter(ms, group, vlan).value)
  }

  lemma PathsContribute(net: Network, ms: seq<Membership>, paths: seq<PathEntry>, starts: seq<Comp>, strict: bool,
                        sw: Switch, i: nat, group: string, port: string)
    requires PathsKeyed(ms, paths, starts) && PathsComputed(net, paths, starts, strict) && i < |sw.vlans|
    ensures Contributed(net, paths, sw, i, group, port) ==> Reached(net, ms, sw, i, group, port)
    ensures AllVisible(net, ms) && Reached(net, ms, sw, i, group, port) ==> Contributed(net, paths, sw, i, group, port)
  {
    var vlan := sw.vlans[i].id;
    if Contributed(net, paths, sw, i, group, port) {
      var k, c :| 0 <= k < |paths| && c in paths[k].comps && paths[k].address == group
        && Contributes(net, c, paths[k].vlan, sw, i, port);
      EachComputed(net, paths, starts, strict, k);
      PathIsReachable(net, paths[k], starts[k], strict, c);
    }
    if AllVisible(net, ms) && Reached(net, ms, sw, i, group, port) {
      var start, c :| FirstTransmitter(ms, group, vlan) == Some(start)
                      && Reaches(PathGraph(net, vlan, start), start, c) && Contributes(net, c, vlan, sw, i, port);
      var k :| 0 <= k < |paths| && paths[k].address == group && paths[k].vlan == vlan;
      EachComputed(net, paths, starts, strict, k);
      PathIsComplete(net, paths[k], starts[k], strict, c);
    }
  }

  lemma PathIsReachable(net: Network, path: PathEntry, start: Comp, strict: bool, c: Comp)
    requires ComputedFrom(net, path, start, strict) && c in path.comps
    ensures Reaches(PathGraph(net, path.vlan, start), start, c)
  {
  }

  lemma PathIsComplete(net: Network, path: PathEntry, start: Comp, strict: bool, c: Comp)
    requires ComputedFrom(net, path, start, strict) && NothingHidden(PathGraph(net, path.vlan, start), start)
    requires Reaches(PathGraph(net, path.vlan, start), start, c)
    ensures c in path.comps
  {
  }

  /** Ports know their switch and are switch ports. */
  ghost predicate WellOwned(net: Network) {
    PortsOwned(net) && forall x, p :: x in net.switchOf && p in net.switchOf[x].ports ==> p.kind == SwitchPort
  }

  /** Every switch port on a computed path has a switch, and is named by one of its entries for the VLAN. */
  lemma PathPortHasSwitch(net: Network, path: PathEntry, start: Comp, strict: bool, c: Comp)
    requires WellOwned(net) && ComputedFrom(net, path, start, strict)
    requires c in path.comps && c.kind == SwitchPort && start.kind == ControllerInterface
    ensures c in net.switchOf && ListsPort(net.switchOf[c].vlans, path.vlan, c.name)
  {
    PathIsReachable(net, path, start, strict, c);
    PathCarriesVlan(net, path.vlan, start, c);
  }

  lemma PathsStay(ms: seq<Membership>, i: nat, paths: seq<PathEntry>, starts: seq<Comp>)
    requires i < |ms| && PathsKeyed(ms[..i], paths, starts)
    requires ms[i].transmits ==> HasPath(paths, ms[i].group, ms[i].vlan)
    ensures PathsKeyed(ms[..i + 1], paths, starts)
  {
    assert ms[..i + 1][..i] == ms[..i];
  }

  lemma PathsExtend(ms: seq<Membership>, i: nat, paths: seq<PathEntry>, starts: seq<Comp>, path: PathEntry)
    requires i < |ms| && PathsKeyed(ms[..i], paths, starts)
    requires ms[i].transmits && !HasPath(paths, ms[i].group, ms[i].vlan)
    requires path.address == ms[i].group && path.vlan == ms[i].vlan
    ensures PathsKeyed(ms[..i + 1], paths + [path], starts + [ms[i].interface])
  {
    assert ms[..i + 1][..i] == ms[..i];
    var all := paths + [path];
    assert all[|paths|] == path;
    forall group, vlan | FirstTransmitter(ms[..i + 1], group, vlan).Some? ensures HasPath(all, group, vlan) {
      if FirstTransmitter(ms[..i], group, vlan).Some? {
        var k :| 0 <= k < |paths| && paths[k].address == group && paths[k].vlan == vlan;
        assert all[k] == paths[k];
      }
    }
  }

  /** The paths dictionary: one path for the first transmitter of each group and VLAN; `None` when a search raises. */
  method ComputePaths(net: Network, ms: seq<Membership>, strict: bool) returns (r: Option<seq<PathEntry>>,
                      ghost starts: seq<Comp>)
    requires forall m :: m in ms ==> m.interface.kind == ControllerInterface
    ensures r.Some? ==> PathsKeyed(ms, r.value, starts) && PathsComputed(net, r.value, starts, strict)
    ensures !strict ==> r.Some?
  {
    var paths: seq<PathEntry> := [];
    starts := [];
    for i := 0 to |ms|
      invariant PathsKeyed(ms[..i], paths, starts) && PathsComputed(net, paths, starts, strict)
    {
      var m := ms[i];
      if m.transmits && !HasPath(paths, m.group, m.vlan) {
        var comps := ComputePath(net, m.vlan, m.interface, strict);
        if comps.None? {
          return None, [];
        }
        var path := PathEntry(m.group, m.vlan, comps.value);
        PathsExtend(ms, i, paths, starts, path);
        assert (paths + [path])[..|paths|] == paths && (starts + [m.interface])[..|paths|] == starts;
        paths := paths + [path];
        starts := starts + [m.interface];
      } else {
        PathsStay(ms, i, paths, starts);
      }
    }
    assert ms[..|ms|] == ms;
    r := Some(paths);
  }

  lemma {:induction false} TransmitterIsMember(ms: seq<Membership>, group: string, vlan: int)
    requires FirstTransmitter(ms, group, vlan).Some?
    ensures exists m :: m in ms && m.interface == FirstTransmitter(ms, group, vlan).value
  {
    if FirstTransmitter(ms[..|ms| - 1], group, vlan).Some? {
      TransmitterIsMember(ms[..|ms| - 1], group, vlan);
    } else {
      assert ms[|ms| - 1] in ms;
    }
  }

  /**
   After the pass a port is listed under a group in a VLAN entry only if it was before or is
   reached from the group's first transmitter in that VLAN; with nothing hidden from the search, also if.
   */
  ghost predicate TablesAreFilled(net: Network, ms: seq<Membership>, before: Tables, after: Tables) {
    && after.Keys == before.Keys
    && forall sw, i: nat, group, port ::
        sw in before && i < |sw.vlans| ==> ListingIsRight(net, ms, before, after, sw, i, group, port)
  }

  ghost predicate ListingIsRight(net: Network, ms: seq<Membership>, before: Tables, after: Tables, sw: Switch, i: nat,
                                 group: string, port: string)
    requires i < |sw.vlans|
  {
    && (Listed(before, sw, i, group, port) ==> Listed(after, sw, i, group, port))
    && (Listed(after, sw, i, group, port) ==>
        Listed(before, sw, i, group, port) || Reached(net, ms, sw, i, group, port))
    && (AllVisible(net, ms) && Reached(net, ms, sw, i, group, port) ==> Listed(after, sw, i, group, port))
  }

  lemma LoadingFills(net: Network, ms: seq<Membership>, paths: seq<PathEntry>, starts: seq<Comp>, strict: bool,
                     before: Tables)
    requires PathsKeyed(ms, paths, starts) && PathsComputed(net, paths, starts, strict)
    requires Fits(before) && forall c :: c in net.switchOf ==> net.switchOf[c] in before
    ensures TablesAreFilled(net, ms, before, Loaded(net, before, paths))
  {
    var after := Loaded(net, before, paths);
    LoadedKeys(net, before, paths);
    forall sw, i: nat, group, port | sw in before && i < |sw.vlans|
      ensures ListingIsRight(net, ms, before, after, sw, i, group, port)
    {
      LoadedListing(net, before, paths, sw, i, group, port);
      PathsContribute(net, ms, paths, starts, strict, sw, i, group, port);
    }
  }

  lemma PathPortsHaveSwitches(net: Network, ms: seq<Membership>, paths: seq<PathEntry>, starts: seq<Comp>, strict: bool)
    requires WellOwned(net) && PathsKeyed(ms, paths, starts) && PathsComputed(net, paths, starts, strict)
    requires forall m :: m in ms ==> m.interface.kind == ControllerInterface
    ensures forall k, c :: 0 <= k < |paths| && c in paths[k].comps && c.kind == SwitchPort ==> c in net.switchOf
  {
    forall k, c | 0 <= k < |paths| && c in paths[k].comps && c.kind == SwitchPort ensures c in net.switchOf {
      TransmitterIsMember(ms, paths[k].address, paths[k].vlan);
      EachComputed(net, paths, starts, strict, k);
      PathPortHasSwitch(net, paths[k], starts[k], strict, c);
    }
  }

  /** The whole pass: paths first, then the tables; a search that raises leaves the tables alone. */
  method ValidateMulticastPaths(switches: SwitchTables, ms: seq<Membership>, strict: bool) returns (ok: bool)
    requires switches.Valid() && WellOwned(switches.net)
    requires forall m :: m in ms ==> m.interface.kind == ControllerInterface
    modifies switches
    ensures switches.Valid() && (!strict ==> ok)
    ensures if ok then TablesAreFilled(switches.net, ms, old(switches.tables), switches.tables)
            else switches.tables == old(switches.tables)
  {
    var paths, starts := ComputePaths(switches.net, ms, strict);
    if paths.None? {
      return false;
    }
    PathPortsHaveSwitches(switches.net, ms, paths.value, starts, strict);
    LoadingFills(switches.net, ms, paths.value, starts, strict, switches.tables);
    switches.LoadSwitchMulticast(paths.value);
    return true;
  }
}
