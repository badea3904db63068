/**
 The multicast groups listed in the VLAN entries of the switches, and how the computed
 paths are written into them.
 */
module MulticastTables {
  import opened Wrappers
  import opened Graphs
  import opened Multicast
  import opened MulticastPaths

  datatype Group = Group(address: string, ports: seq<string>)

  predicate Lists(groups: seq<Group>, address: string, port: string) {
    exists i :: 0 <= i < |groups| && groups[i].address == address && port in groups[i].ports
  }

  predicate HasGroup(groups: seq<Group>, address: string) {
    exists i :: 0 <= i < |groups| && groups[i].address == address
  }

  /** `port` is appended to every group of the address, or to a new group when there is none. */
  function WithPort(groups: seq<Group>, address: string, port: string): (r: seq<Group>)
    ensures Lists(r, address, port)
    ensures forall a, p :: Lists(r, a, p) <==> Lists(groups, a, p) || (a == address && p == port)
  {
    if HasGroup(groups, address) then
      var r := seq(|groups|, i requires 0 <= i < |groups| =>
        if groups[i].address == address then Group(address, groups[i].ports + [port]) else groups[i]);
      assert forall i :: 0 <= i < |groups| ==>
        r[i].address == groups[i].address
          && forall p :: p in r[i].ports <==> p in groups[i].ports || (groups[i].address == address && p == port);
      r
    else
      var r := groups + [Group(address, [port])];
      assert r[|groups|] == Group(address, [port]);
      assert forall i :: 0 <= i < |groups| ==> r[i] == groups[i];
      r
  }

  function EntryWithPort(v: VlanEntry, groups: seq<Group>, vlan: int, address: string, port: string): seq<Group> {
    if v.id == vlan then WithPort(groups, address, port) else groups
  }

  /** One list of groups per VLAN entry of a switch. */
  type Table = seq<seq<Group>>

  function TableWithPort(sw: Switch, table: Table, vlan: int, address: string, port: string): Table
    requires |table| == |sw.vlans|
  {
    seq(|table|, i requires 0 <= i < |table| => EntryWithPort(sw.vlans[i], table[i], vlan, address, port))
  }

  type Tables = map<Switch, Table>

  ghost predicate Fits(tables: Tables) {
    forall sw :: sw in tables ==> |tables[sw]| == |sw.vlans|
  }

  /** `port` is listed under the address in VLAN entry `i` of the switch. */
  ghost predicate Listed(tables: Tables, sw: Switch, i: nat, address: string, port: string) {
    sw in tables && i < |tables[sw]| && Lists(tables[sw][i], address, port)
  }

  /**
   Component `c`, found on a path of `vlan` and `address`, is the port `port` of `sw`, whose entry `i` is for
   that VLAN.
   */
  ghost predicate Contributes(net: Network, c: Comp, vlan: int, sw: Switch, i: nat, port: string) {
    && c.kind == SwitchPort && c in net.switchOf && net.switchOf[c] == sw && c.name == port
    && i < |sw.vlans| && sw.vlans[i].id == vlan
  }

  datatype PathEntry = PathEntry(address: string, vlan: int, comps: seq<Comp>)

  /** Some switch port of some path contributes the listing. */
  ghost predicate Contributed(net: Network, paths: seq<PathEntry>, sw: Switch, i: nat, address: string, port: string) {
    exists k, c ::
        0 <= k < |paths| && c in paths[k].comps && paths[k].address == address
          && Contributes(net, c, paths[k].vlan, sw, i, port)
  }

  class SwitchTables {
    const net: Network
    var tables: Tables

    ghost predicate Valid()
      reads this
    {
      Fits(tables) && forall c :: c in net.switchOf ==> net.switchOf[c] in tables
    }

    constructor (net: Network, tables: Tables)
      requires Fits(tables) && forall c :: c in net.switchOf ==> net.switchOf[c] in tables
      ensures Valid() && this.net == net && this.tables == tables
    {
      this.net := net;
      this.tables := tables;
    }

    /** `append_mcast`: the port goes into every entry for the VLAN, under the address. */
    method AppendMcast(vlan: int, c: Comp, address: string)
      requires Valid() && c in net.switchOf
      modifies this
      ensures Valid()
      ensures var sw := net.switchOf[c];
              tables == old(tables)[sw := TableWithPort(sw, old(tables)[sw], vlan, address, c.name)]
    {
      var sw := net.switchOf[c];
      var table := tables[sw];
      ghost var before := table;
      for i := 0 to |sw.vlans|
        invariant tables == old(tables) && |table| == |sw.vlans|
        invariant forall k :: 0 <= k < i ==> table[k] == EntryWithPort(sw.vlans[k], before[k], vlan, address, c.name)
        invariant forall k :: i <= k < |table| ==> table[k] == before[k]
      {
        if sw.vlans[i].id == vlan {
          var groups := AppendPort(table[i], address, c.name);
          table := table[i := groups];
        }
      }
      assert table == TableWithPort(sw, before, vlan, address, c.name);
      tables := tables[sw := table];
    }

    /** `load_switch_multicast`: every switch port of every path is appended under its address. */
    method LoadSwitchMulticast(paths: seq<PathEntry>)
      requires Valid()
               && forall k, c :: 0 <= k < |paths| && c in paths[k].comps && c.kind == SwitchPort ==> c in net.switchOf
      modifies this
      ensures Valid() && tables == Loaded(net, old(tables), paths)
    {
      for k := 0 to |paths|
        invariant Valid() && tables == Loaded(net, old(tables), paths[..k])
      {
        assert paths[..k + 1][..k] == paths[..k];
        var comps := paths[k].comps;
        ghost var before := tables;
        for j := 0 to |comps|
          invariant Valid() && tables == LoadedPath(net, before, paths[k], j)
        {
          if comps[j].kind == SwitchPort {
            assert comps[j] in paths[k].comps;
            AppendMcast(paths[k].vlan, comps[j], paths[k].address);
          }
        }
      }
      assert paths[..|paths|] == paths;
    }
  }

  /** The tables after the first `n` components of one path. */
  ghost function LoadedPath(net: Network, tables: Tables, path: PathEntry, n: nat): (r: Tables)
    requires n <= |path.comps|
  {
    if n == 0 then tables
    else
      var t := LoadedPath(net, tables, path, n - 1);
      var c := path.comps[n - 1];
      if c.kind == SwitchPort && c in net.switchOf && net.switchOf[c] in t
        && |t[net.switchOf[c]]| == |net.switchOf[c].vlans| then
        t[net.switchOf[c] := TableWithPort(net.switchOf[c], t[net.switchOf[c]], path.vlan, path.address, c.name)]
      else t
  }

  ghost function Loaded(net: Network, tables: Tables, paths: seq<PathEntry>): Tables {
    if paths == [] then tables
    else
      var path := paths[|paths| - 1];
      LoadedPath(net, Loaded(net, tables, paths[..|paths| - 1]), path, |path.comps|)
  }

  lemma OneAppendListing(tables: Tables, sw0: Switch, vlan: int, address: string, name: string, sw: Switch, i: nat,
                         a: string, p: string)
    requires Fits(tables) && sw0 in tables && sw in tables && i < |sw.vlans|
    ensures Listed(tables[sw0 := TableWithPort(sw0, tables[sw0], vlan, address, name)], sw, i, a, p) <==>
              Listed(tables, sw, i, a, p) || (sw == sw0 && sw.vlans[i].id == vlan && a == address && p == name)
  {
    if sw == sw0 {
      assert Lists(WithPort(tables[sw0][i], address, name), a, p)
             <==> Lists(tables[sw0][i], a, p) || (a == address && p == name);
    }
  }

  /** What one path adds: the listings its switch ports contribute. */
  lemma {:induction false} LoadedPathListing(net: Network, tables: Tables, path: PathEntry, n: nat, sw: Switch, i: nat,
                                             a: string, p: string)
    requires Fits(tables) && (forall c :: c in net.switchOf ==> net.switchOf[c] in tables)
    requires n <= |path.comps| && sw in tables && i < |sw.vlans|
    ensures LoadedPath(net, tables, path, n).Keys == tables.Keys && Fits(LoadedPath(net, tables, path, n))
    ensures Listed(LoadedPath(net, tables, path, n), sw, i, a, p) <==>
              Listed(tables, sw, i, a, p)
              || (a == path.address && exists k :: 0 <= k < n && Contributes(net, path.comps[k], path.vlan, sw, i, p))
  {
    if n > 0 {
      LoadedPathListing(net, tables, path, n - 1, sw, i, a, p);
      var t, c := LoadedPath(net, tables, path, n - 1), path.comps[n - 1];
      if c.kind == SwitchPort && c in net.switchOf {
        OneAppendListing(t, net.switchOf[c], path.vlan, path.address, c.name, sw, i, a, p);
      }
    }
  }

  /** A port is listed after loading exactly if it was before or some path contributes it. */
  lemma {:induction false} LoadedListing(net: Network, tables: Tables, paths: seq<PathEntry>, sw: Switch, i: nat,
                                         a: string, p: string)
    requires Fits(tables) && (forall c :: c in net.switchOf ==> net.switchOf[c] in tables)
    requires sw in tables && i < |sw.vlans|
    ensures Loaded(net, tables, paths).Keys == tables.Keys && Fits(Loaded(net, tables, paths))
    ensures Listed(Loaded(net, tables, paths), sw, i, a, p) <==>
              Listed(tables, sw, i, a, p) || Contributed(net, paths, sw, i, a, p)
  {
    if paths != [] {
      var m := |paths| - 1;
      LoadedListing(net, tables, paths[..m], sw, i, a, p);
      LoadedPathListing(net, Loaded(net, tables, paths[..m]), paths[m], |paths[m].comps|, sw, i, a, p);
      ContributedSplit(net, paths, sw, i, a, p);
    }
  }

  lemma {:induction false} LoadedPathKeys(net: Network, tables: Tables, path: PathEntry, n: nat)
    requires n <= |path.comps|
    ensures LoadedPath(net, tables, path, n).Keys == tables.Keys
  {
    if n > 0 {
      LoadedPathKeys(net, tables, path, n - 1);
    }
  }

  lemma {:induction false} LoadedKeys(net: Network, tables: Tables, paths: seq<PathEntry>)
    ensures Loaded(net, tables, paths).Keys == tables.Keys
  {
    if paths != [] {
      LoadedKeys(net, tables, paths[..|paths| - 1]);
      LoadedPathKeys(net, Loaded(net, tables, paths[..|paths| - 1]), paths[|paths| - 1], |paths[|paths| - 1].comps|);
    }
  }

  lemma ContributedSplit(net: Network, paths: seq<PathEntry>, sw: Switch, i: nat, a: string, p: string)
    requires paths != []
    ensures var m := |paths| - 1;
            Contributed(net, paths, sw, i, a, p) <==>
              Contributed(net, paths[..m], sw, i, a, p)
              || (a == paths[m].address
                  && exists k ::
                      0 <= k < |paths[m].comps| && Contributes(net, paths[m].comps[k], paths[m].vlan, sw, i, p))
  {
    var m := |paths| - 1;
    if Contributed(net, paths[..m], sw, i, a, p) {
      var k, c :| 0 <= k < m && c in paths[..m][k].comps && paths[..m][k].address == a
        && Contributes(net, c, paths[..m][k].vlan, sw, i, p);
      assert c in paths[k].comps;
    }
    if Contributed(net, paths, sw, i, a, p) {
      var k, c :| 0 <= k < |paths| && c in paths[k].comps && paths[k].address == a
        && Contributes(net, c, paths[k].vlan, sw, i, p);
      if k < m {
        assert c in paths[..m][k].comps;
      } else {
        var j :| 0 <= j < |paths[m].comps| && paths[m].comps[j] == c;
      }
    }
  }

  /** The loop over the groups of one entry, with its `found` flag. */
  method AppendPort(groups: seq<Group>, address: string, port: string) returns (r: seq<Group>)
    ensures r == WithPort(groups, address, port)
  {
    r := groups;
    var found := false;
    for i := 0 to |groups|
      invariant |r| == |groups|
      invariant found <==> exists k :: 0 <= k < i && groups[k].address == address
      invariant forall k :: 0 <= k < i ==>
                  r[k] == if groups[k].address == address then Group(address, groups[k].ports + [port]) else groups[k]
      invariant forall k :: i <= k < |r| ==> r[k] == groups[k]
    {
      if groups[i].address == address {
        found := true;
        r := r[i := Group(address, groups[i].ports + [port])];
      }
    }
    if !found {
      r := groups + [Group(address, [port])];
    }
  }
}
