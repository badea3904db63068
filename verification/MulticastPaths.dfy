/**
 The search itself, level by level, and what it computes.

 The source compares a sibling interface's name with the name of a list, which no list
 has. `strict` selects that reading, where the comparison raises; otherwise the comparison
 is with the component being expanded.
 */
module MulticastPaths {
  import opened Wrappers
  import opened Graphs
  import opened Sequences
  import opened Multicast
  import opened LevelSearch

  /** `check_vlan_conn_valid` for a component that is there. */
  method CheckVlanConnValid(net: Network, c: Comp, connected: seq<Comp>, frontier: seq<Comp>,
                            vlan: int) returns (flag: bool)
    ensures flag <==> Unseen(c, connected, frontier) && CarriesVlan(net, c, vlan)
  {
    flag := true;
    var known := CheckObjInList(c, connected);
    if known { flag := false; }
    known := CheckObjInList(c, frontier);
    if known { flag := false; }
    if c.kind == SwitchPort {
      var member := SwitchPortInVlan(net, c, vlan);
      if !member { flag := false; }
    }
    if c.kind == ControllerInterface && !(c in net.vlansOf && vlan in net.vlansOf[c]) {
      flag := false;
    }
  }

  /** The loop over a component's links that all three helpers share. */
  method AppendLinked(net: Network, list: seq<Comp>, connected: seq<Comp>, frontier: seq<Comp>, newList: seq<Comp>,
                      vlan: int)
    returns (r: seq<Comp>)
    ensures r == newList + UnseenOf(Carrying(net, list, vlan), connected, frontier)
  {
    r := newList;
    assert UnseenOf(Carrying(net, list[..0], vlan), connected, frontier) == [];
    for i := 0 to |list|
      invariant r == newList + UnseenOf(Carrying(net, list[..i], vlan), connected, frontier)
    {
      var valid := CheckVlanConnValid(net, list[i], connected, frontier, vlan);
      CarryingPrefix(net, list, i, vlan);
      UnseenAppend(Carrying(net, list[..i], vlan), if CarriesVlan(net, list[i], vlan) then [list[i]] else [], connected,
          frontier);
      if valid {
        r := r + [list[i]];
      }
    }
    assert list[..|list|] == list;
  }

  lemma CarryingPrefix(net: Network, list: seq<Comp>, i: nat, vlan: int)
    requires i < |list|
    ensures Carrying(net, list[..i + 1], vlan)
         == Carrying(net, list[..i], vlan) + if CarriesVlan(net, list[i], vlan) then [list[i]] else []
  {
    assert list[..i + 1][..i] == list[..i];
  }

  /** What one more candidate of another name adds. */
  lemma OtherNameStep(list: seq<Comp>, i: nat, name: string, connected: seq<Comp>, frontier: seq<Comp>)
    requires i < |list|
    ensures UnseenOf(OtherNames(list[..i + 1], name), connected, frontier)
         == UnseenOf(OtherNames(list[..i], name), connected, frontier)
            + if list[i].name != name && Unseen(list[i], connected, frontier) then [list[i]] else []
  {
    assert list[..i + 1][..i] == list[..i];
    UnseenAppend(OtherNames(list[..i], name), if list[i].name != name then [list[i]] else [], connected, frontier);
  }

  lemma OtherNameAppend(list: seq<Comp>, d: Comp, name: string, connected: seq<Comp>, frontier: seq<Comp>)
    ensures UnseenOf(OtherNames(list + [d], name), connected, frontier)
         == UnseenOf(OtherNames(list, name), connected, frontier)
            + if d.name != name && Unseen(d, connected, frontier) then [d] else []
  {
    assert (list + [d])[..|list|] == list && (list + [d])[..|list| + 1] == list + [d];
    OtherNameStep(list + [d], |list|, name, connected, frontier);
  }

  /** The loop over the other ports of a switch. */
  method AppendOthers(ports: seq<Comp>, name: string, connected: seq<Comp>, frontier: seq<Comp>, newList: seq<Comp>)
    returns (r: seq<Comp>)
    ensures r == newList + UnseenOf(OtherNames(ports, name), connected, frontier)
  {
    r := newList;
    for i := 0 to |ports|
      invariant r == newList + UnseenOf(OtherNames(ports[..i], name), connected, frontier)
    {
      var inConnected := CheckObjInList(ports[i], connected);
      var inFrontier := CheckObjInList(ports[i], frontier);
      OtherNameStep(ports, i, name, connected, frontier);
      ConcatIsAssociative(newList, UnseenOf(OtherNames(ports[..i], name), connected, frontier), [ports[i]]);
      if !inConnected && !inFrontier && ports[i].name != name {
        r := r + [ports[i]];
      }
    }
    assert ports[..|ports|] == ports;
  }

  method GetSwitchPortConnectedComponent(net: Network, c: Comp, connected: seq<Comp>, frontier: seq<Comp>,
                                         newList: seq<Comp>, vlan: int, ghost start: Comp)
    returns (r: seq<Comp>)
    requires c.kind == SwitchPort && c != start
    ensures r == newList + UnseenOf(Next(net, vlan, start, c), connected, frontier)
  {
    r := AppendLinked(net, Linked(net, c), connected, frontier, newList, vlan);
    var ports := GetVlanConnectedPorts(net, c, vlan);
    r := AppendOthers(ports, c.name, connected, frontier, r);
    UnseenAppend(Carrying(net, Linked(net, c), vlan), OtherNames(ports, c.name), connected, frontier);
    ConcatIsAssociative(newList, UnseenOf(Carrying(net, Linked(net, c), vlan), connected, frontier),
                        UnseenOf(OtherNames(ports, c.name), connected, frontier));
  }

  method GetEcuPortConnectedComponent(net: Network, c: Comp, connected: seq<Comp>, frontier: seq<Comp>,
                                      newList: seq<Comp>, vlan: int, ghost start: Comp)
    returns (r: seq<Comp>)
    requires c.kind == EcuPort
    ensures r == newList + UnseenOf(Next(net, vlan, start, c), connected, frontier)
  {
    r := AppendLinked(net, Linked(net, c), connected, frontier, newList, vlan);
    assert Next(net, vlan, start, c) == Carrying(net, Linked(net, c), vlan);
  }

  predicate Passes(net: Network, d: Comp, connected: seq<Comp>, frontier: seq<Comp>, vlan: int) {
    CarriesVlan(net, d, vlan) && Unseen(d, connected, frontier)
  }

  /** Some interface passes the check, so that its name gets compared. */
  predicate AnyPasses(net: Network, interfaces: seq<Comp>, connected: seq<Comp>, frontier: seq<Comp>, vlan: int) {
    exists k :: 0 <= k < |interfaces| && Passes(net, interfaces[k], connected, frontier, vlan)
  }

  /** The loop over the interfaces of a controller; `None` when comparing names raises. */
  method AppendSiblings(net: Network, interfaces: seq<Comp>, name: string, connected: seq<Comp>, frontier: seq<Comp>,
                        newList: seq<Comp>, vlan: int, strict: bool)
    returns (r: Option<seq<Comp>>)
    ensures r.None? <==> strict && AnyPasses(net, interfaces, connected, frontier, vlan)
    ensures r.Some? ==>
              r.value == newList + UnseenOf(OtherNames(Carrying(net, interfaces, vlan), name), connected, frontier)
  {
    r := Some(newList);
    assert SiblingsUpTo(net, interfaces, 0, name, connected, frontier, vlan) == [] && newList + [] == newList;
    for i := 0 to |interfaces|
      invariant r == Some(newList + SiblingsUpTo(net, interfaces, i, name, connected, frontier, vlan))
      invariant strict ==> forall k :: 0 <= k < i ==> !Passes(net, interfaces[k], connected, frontier, vlan)
    {
      hide SiblingsUpTo, Passes;
      var valid := CheckVlanConnValid(net, interfaces[i], connected, frontier, vlan);
      assert valid
             <==> Passes(net, interfaces[i], connected, frontier, vlan)
                 by { PassesMeaning(net, interfaces[i], connected, frontier, vlan); }
      if valid && strict {
        return None;
      }
      SiblingStep(net, interfaces, i, name, vlan, connected, frontier);
      if valid && interfaces[i].name != name {
        ConcatIsAssociative(newList, SiblingsUpTo(net, interfaces, i, name, connected, frontier, vlan),
            [interfaces[i]]);
        r := Some(r.value + [interfaces[i]]);
      }
    }
    assert interfaces[..|interfaces|] == interfaces;
  }

  lemma PassesMeaning(net: Network, d: Comp, connected: seq<Comp>, frontier: seq<Comp>, vlan: int)
    ensures Passes(net, d, connected, frontier, vlan) <==> CarriesVlan(net, d, vlan) && Unseen(d, connected, frontier)
  {
  }

  /** What the first `i` interfaces add. */
  function SiblingsUpTo(net: Network, interfaces: seq<Comp>, i: nat, name: string, connected: seq<Comp>,
                        frontier: seq<Comp>, vlan: int): seq<Comp>
    requires i <= |interfaces|
  {
    UnseenOf(OtherNames(Carrying(net, interfaces[..i], vlan), name), connected, frontier)
  }

  method GetControllerInterfaceConnectedComponent(net: Network, c: Comp, connected: seq<Comp>, frontier: seq<Comp>,
                                                  newList: seq<Comp>, vlan: int, strict: bool, ghost start: Comp)
    returns (r: Option<seq<Comp>>)
    requires c.kind == ControllerInterface && c != start
    ensures r.None? <==> strict && AnyPasses(net, SiblingsOf(net, c), connected, frontier, vlan)
    ensures r.Some? ==> r.value == newList + UnseenOf(Next(net, vlan, start, c), connected, frontier)
  {
    var list := AppendLinked(net, Linked(net, c), connected, frontier, newList, vlan);
    var siblings := SiblingsOf(net, c);
    r := AppendSiblings(net, siblings, c.name, connected, frontier, list, vlan, strict);
    UnseenAppend(Carrying(net, Linked(net, c), vlan), OtherNames(Carrying(net, siblings, vlan), c.name), connected,
        frontier);
    ConcatIsAssociative(newList, UnseenOf(Carrying(net, Linked(net, c), vlan), connected, frontier),
                        UnseenOf(OtherNames(Carrying(net, siblings, vlan), c.name), connected, frontier));
  }

  lemma SiblingStep(net: Network, interfaces: seq<Comp>, i: nat, name: string, vlan: int, connected: seq<Comp>,
                    frontier: seq<Comp>)
    requires i < |interfaces|
    ensures SiblingsUpTo(net, interfaces, i + 1, name, connected, frontier, vlan)
         == if Passes(net, interfaces[i], connected, frontier, vlan) && interfaces[i].name != name
            then SiblingsUpTo(net, interfaces, i, name, connected, frontier, vlan) + [interfaces[i]]
            else SiblingsUpTo(net, interfaces, i, name, connected, frontier, vlan)
  {
    var before, d := Carrying(net, interfaces[..i], vlan), interfaces[i];
    CarryingPrefix(net, interfaces, i, vlan);
    if CarriesVlan(net, d, vlan) {
      OtherNameAppend(before, d, name, connected, frontier);
    } else {
      assert before + [] == before;
    }
  }

  // ------------------------------------------------------------------ one level

  /** Expanding `c` compares a sibling's name. */
  predicate ComparesName(net: Network, c: Comp, connected: seq<Comp>, frontier: seq<Comp>, vlan: int) {
    c.kind == ControllerInterface && AnyPasses(net, SiblingsOf(net, c), connected, frontier, vlan)
  }

  /** Expanding none of `list` compares a sibling's name. */
  predicate NoneCompares(net: Network, list: seq<Comp>, connected: seq<Comp>, frontier: seq<Comp>, vlan: int) {
    list == []
    || (NoneCompares(net, list[..|list| - 1], connected, frontier, vlan)
        && !ComparesName(net, list[|list| - 1], connected, frontier, vlan))
  }

  lemma {:induction false} NoneComparesMeaning(net: Network, list: seq<Comp>, connected: seq<Comp>,
                                               frontier: seq<Comp>, vlan: int)
    ensures NoneCompares(net, list, connected, frontier, vlan)
       <==> forall c :: c in list ==> !ComparesName(net, c, connected, frontier, vlan)
  {
    if list != [] {
      NoneComparesMeaning(net, list[..|list| - 1], connected, frontier, vlan);
      assert list == list[..|list| - 1] + [list[|list| - 1]];
    }
  }

  lemma {:induction false} NoneComparesPrefix(net: Network, list: seq<Comp>, i: nat, connected: seq<Comp>,
                                              frontier: seq<Comp>, vlan: int)
    requires i < |list|
    ensures NoneCompares(net, list[..i + 1], connected, frontier, vlan)
       <==> NoneCompares(net, list[..i], connected, frontier, vlan)
            && !ComparesName(net, list[i], connected, frontier, vlan)
    ensures NoneCompares(net, list, connected, frontier, vlan) ==>
              !ComparesName(net, list[i], connected, frontier, vlan)
  {
    assert list[..i + 1][..i] == list[..i];
    NoneComparesMeaning(net, list, connected, frontier, vlan);
  }

  /** The helper for the kind of `c`. */
  method Expand(net: Network, c: Comp, connected: seq<Comp>, frontier: seq<Comp>, newList: seq<Comp>, vlan: int,
                strict: bool, ghost start: Comp)
    returns (r: Option<seq<Comp>>)
    requires c != start && c in PathGraph(net, vlan, start)
    ensures r.None? <==> strict && ComparesName(net, c, connected, frontier, vlan)
    ensures r.Some? ==> r.value == newList + UnseenOf(PathGraph(net, vlan, start)[c], connected, frontier)
  {
    match c.kind
    case SwitchPort =>
      var list := GetSwitchPortConnectedComponent(net, c, connected, frontier, newList, vlan, start);
      r := Some(list);
    case ControllerInterface =>
      r := GetControllerInterfaceConnectedComponent(net, c, connected, frontier, newList, vlan, strict, start);
    case EcuPort =>
      var list := GetEcuPortConnectedComponent(net, c, connected, frontier, newList, vlan, start);
      r := Some(list);
  }

  method ExploreLevel(net: Network, vlan: int, connected: seq<Comp>, frontier: seq<Comp>, strict: bool,
                      ghost start: Comp, ghost g: Graph<Comp>)
    returns (newList: Option<seq<Comp>>)
    requires start !in frontier && g == PathGraph(net, vlan, start) && forall c :: c in frontier ==> c in g
    ensures newList.None? <==> strict && !NoneCompares(net, frontier, connected, frontier, vlan)
    ensures newList.Some? ==> newList.value == LevelFrom(g, frontier, connected, frontier)
  {
    var list := [];
    for i := 0 to |frontier|
      invariant list == LevelFrom(g, frontier[..i], connected, frontier)
      invariant strict ==> NoneCompares(net, frontier[..i], connected, frontier, vlan)
    {
      LevelPrefix(g, frontier, i, connected, frontier);
      NoneComparesPrefix(net, frontier, i, connected, frontier, vlan);
      var next := Expand(net, frontier[i], connected, frontier, list, vlan, strict, start);
      if next.None? {
        return None;
      }
      list := next.value;
    }
    assert frontier[..|frontier|] == frontier;
    return Some(list);
  }

  /** The valid direct links of the start, without repetitions. */
  method DirectLinks(net: Network, vlan: int, start: Comp) returns (frontier: seq<Comp>)
    ensures forall d :: d in frontier ==> d in Next(net, vlan, start, start) && !InList(d, [start])
    ensures forall d :: d in Next(net, vlan, start, start) ==> InList(d, [start]) || InList(d, frontier)
    ensures forall c, d :: c in frontier && d in frontier && Same(c, d) ==> c == d
  {
    frontier := [];
    var links := Linked(net, start);
    for i := 0 to |links|
      invariant forall d :: d in frontier ==> d in links && CarriesVlan(net, d, vlan) && !InList(d, [start])
      invariant forall c, d :: c in frontier && d in frontier && Same(c, d) ==> c == d
      invariant forall k ::
                  0 <= k < i && CarriesVlan(net, links[k], vlan) ==>
                      InList(links[k], [start]) || InList(links[k], frontier)
    {
      var valid := CheckVlanConnValid(net, links[i], [start], frontier, vlan);
      if valid {
        InListGrows(frontier, [links[i]]);
        assert Same(links[i], links[i]) && links[i] in frontier + [links[i]];
        frontier := frontier + [links[i]];
      }
    }
    forall d ensures d in Next(net, vlan, start, start) <==> d in links && CarriesVlan(net, d, vlan) {
      CarryingMeaning(net, links, vlan, d);
    }
  }

  lemma PathGraphIsClosed(net: Network, vlan: int, start: Comp)
    ensures Closed(PathGraph(net, vlan, start)) && start in PathGraph(net, vlan, start)
  {
    var g := PathGraph(net, vlan, start);
    forall c, d | Edge(g, c, d) ensures d in g {
      NextMeaning(net, vlan, start, c, d);
    }
  }

  // ------------------------------------------------------------------ the whole search

  /** At distance `k + 1` an interface has a VLAN sibling that is farther away still. */
  ghost predicate SiblingAhead(net: Network, vlan: int, g: Graph<Comp>, start: Comp, k: nat) {
    exists c ::
        c in Ball(g, start, k + 1) && c !in Ball(g, start, k) && HasSiblingBeyond(net, vlan, c, Ball(g, start, k + 1))
  }

  /** No component of `known` goes by the identity of `d`. */
  predicate IsBeyond(d: Comp, known: set<Comp>) {
    forall x :: x in known ==> !Same(x, d)
  }

  /** An interface with a sibling in the VLAN whose identity is not known. */
  ghost predicate HasSiblingBeyond(net: Network, vlan: int, c: Comp, known: set<Comp>) {
    c.kind == ControllerInterface
      && exists d :: d in SiblingsOf(net, c) && CarriesVlan(net, d, vlan) && IsBeyond(d, known)
  }

  lemma ComparesIffBeyond(net: Network, vlan: int, c: Comp, connected: seq<Comp>, frontier: seq<Comp>, known: set<Comp>)
    requires known == Elements(connected) + Elements(frontier)
    ensures ComparesName(net, c, connected, frontier, vlan) <==> HasSiblingBeyond(net, vlan, c, known)
  {
    forall d ensures Unseen(d, connected, frontier) <==> IsBeyond(d, known) {
      UnseenIffBeyond(d, connected, frontier, known);
    }
    if HasSiblingBeyond(net, vlan, c, known) {
      var d :| d in SiblingsOf(net, c) && CarriesVlan(net, d, vlan) && IsBeyond(d, known);
      var i :| 0 <= i < |SiblingsOf(net, c)| && SiblingsOf(net, c)[i] == d;
      assert Passes(net, SiblingsOf(net, c)[i], connected, frontier, vlan);
    }
  }

  lemma UnseenIffBeyond(d: Comp, connected: seq<Comp>, frontier: seq<Comp>, known: set<Comp>)
    requires known == Elements(connected) + Elements(frontier)
    ensures Unseen(d, connected, frontier) <==> IsBeyond(d, known)
  {
    if !Unseen(d, connected, frontier) {
      var x :| (x in connected || x in frontier) && Same(x, d);
      assert x in known;
    }
  }

  /** The frontier of level `k` is the components at that distance. */
  lemma LevelMembers(g: Graph<Comp>, start: Comp, connected: seq<Comp>, frontier: seq<Comp>, k: nat)
    requires Exploring(g, start, connected, frontier) && AtLevel(g, start, connected, frontier, k)
    ensures forall c :: c in frontier <==> c in Ball(g, start, k + 1) && c !in Ball(g, start, k)
  {
    forall c ensures c in frontier <==> c in Ball(g, start, k + 1) && c !in Ball(g, start, k) {
      assert c in Ball(g, start, k) <==> c in Elements(connected);
      assert c in Ball(g, start, k + 1) <==> c in Elements(connected) || c in Elements(frontier);
      if c in frontier && c in connected {
        assert Same(c, c) && InList(c, connected);
        assert false;
      }
    }
  }

  /** On an exact level a name is compared exactly when a VLAN sibling lies ahead there. */
  lemma ComparesIffAhead(net: Network, vlan: int, start: Comp, g: Graph<Comp>, connected: seq<Comp>,
                         frontier: seq<Comp>, k: nat)
    requires Exploring(g, start, connected, frontier) && AtLevel(g, start, connected, frontier, k)
    ensures NoneCompares(net, frontier, connected, frontier, vlan) <==> !SiblingAhead(net, vlan, g, start, k)
  {
    hide Exploring, Ball, ComparesName, HasSiblingBeyond;
    NoneComparesMeaning(net, frontier, connected, frontier, vlan);
    LevelMembers(g, start, connected, frontier, k);
    forall c ensures ComparesName(net, c, connected, frontier, vlan)
      <==> HasSiblingBeyond(net, vlan, c, Ball(g, start, k + 1)) {
      ComparesIffBeyond(net, vlan, c, connected, frontier, Ball(g, start, k + 1));
    }
  }

  /** No sibling lies ahead on any of the first `k` levels. */
  ghost predicate QuietBefore(net: Network, vlan: int, g: Graph<Comp>, start: Comp, k: nat) {
    k == 0 || (QuietBefore(net, vlan, g, start, k - 1) && !SiblingAhead(net, vlan, g, start, k - 1))
  }

  lemma {:induction false} QuietLevels(net: Network, vlan: int, g: Graph<Comp>, start: Comp, k: nat, m: nat)
    requires QuietBefore(net, vlan, g, start, k) && m < k
    ensures !SiblingAhead(net, vlan, g, start, m)
  {
    if m < k - 1 {
      QuietLevels(net, vlan, g, start, k - 1, m);
    }
  }

  ghost predicate EverAhead(net: Network, vlan: int, g: Graph<Comp>, start: Comp) {
    exists k :: SiblingAhead(net, vlan, g, start, k)
  }

  lemma QuietToTheEnd(net: Network, vlan: int, g: Graph<Comp>, start: Comp, k: nat)
    requires QuietBefore(net, vlan, g, start, k)
    requires Ball(g, start, k) == Ball(g, start, k + 1)
    ensures !EverAhead(net, vlan, g, start)
  {
    forall m: nat ensures !SiblingAhead(net, vlan, g, start, m) {
      if m < k {
        QuietLevels(net, vlan, g, start, k, m);
      } else {
        NothingAheadAfterEnd(net, vlan, g, start, k, m);
      }
    }
  }

  /** Once the frontier is empty no sibling lies ahead at any later level. */
  lemma NothingAheadAfterEnd(net: Network, vlan: int, g: Graph<Comp>, start: Comp, k: nat, m: nat)
    requires Ball(g, start, k) == Ball(g, start, k + 1) && k <= m
    ensures !SiblingAhead(net, vlan, g, start, m)
  {
    BallGrows(g, start, k, m);
    BallGrows(g, start, k, m + 1);
  }

  /** What holds after `k` levels. */
  ghost predicate Searching(net: Network, vlan: int, g: Graph<Comp>, start: Comp, strict: bool,
                            connected: seq<Comp>, frontier: seq<Comp>, k: nat) {
    && Exploring(g, start, connected, frontier)
    && (Exact(g, start, connected, frontier, k) || Misses(g, start, connected + frontier))
    && (strict && NothingHidden(g, start) ==> QuietBefore(net, vlan, g, start, k))
  }

  lemma SearchAdvances(net: Network, vlan: int, g: Graph<Comp>, start: Comp, strict: bool,
                       connected: seq<Comp>, frontier: seq<Comp>, k: nat)
    requires Closed(g) && Searching(net, vlan, g, start, strict, connected, frontier, k) && frontier != []
    requires strict && NothingHidden(g, start) ==> !SiblingAhead(net, vlan, g, start, k)
    ensures Searching(net, vlan, g, start, strict, connected + frontier, LevelFrom(g, frontier, connected, frontier),
        k + 1)
    ensures Unexplored(g, connected + frontier) < Unexplored(g, connected)
  {
    hide Exploring, Exact, Misses, LevelFrom, Unexplored, SiblingAhead;
    UnexploredShrinks(g, start, connected, frontier);
    ExploringContinues(g, start, connected, frontier);
    ExpansionIsInside(g, start, connected, frontier);
    if Exact(g, start, connected, frontier, k) {
      LevelStep(g, start, connected, frontier, k);
    } else {
      MissesForGood(g, start, connected, frontier);
    }
  }

  lemma ExpansionIsInside(g: Graph<Comp>, start: Comp, connected: seq<Comp>, frontier: seq<Comp>)
    requires Exploring(g, start, connected, frontier)
    ensures forall c :: c in frontier ==> c in g
  {
  }

  /**
   Everything found is reachable, and whatever it leads to is found up to identity. Everything reachable is
   found if and only if no component is hidden behind another of its identity; then it is also determined when
   the search raises. In networks with distinct identities nothing is hidden (`DistinctKeysHideNothing`).
   */
  ghost predicate PathOutcome(net: Network, vlan: int, g: Graph<Comp>, start: Comp, strict: bool,
                              path: Option<seq<Comp>>) {
    && (!strict ==> path.Some?)
    && (path.Some? ==> start in path.value && forall c :: c in path.value ==> Reaches(g, start, c))
    && (path.Some? ==> forall c, d :: c in path.value && Edge(g, c, d) ==> InList(d, path.value))
    && (path.Some? ==> ((forall c :: Reaches(g, start, c) ==> c in path.value) <==> NothingHidden(g, start)))
    && (NothingHidden(g, start) && strict ==> (path.None? <==> EverAhead(net, vlan, g, start)))
  }

  lemma SearchEnds(net: Network, vlan: int, g: Graph<Comp>, start: Comp, strict: bool, connected: seq<Comp>, k: nat)
    requires Closed(g) && start in g && Searching(net, vlan, g, start, strict, connected, [], k)
    ensures PathOutcome(net, vlan, g, start, strict, Some(connected))
  {
    ExploringEnds(g, start, connected, k);
    if strict && NothingHidden(g, start) {
      assert Elements<Comp>([]) == {};
      QuietToTheEnd(net, vlan, g, start, k);
    }
  }

  lemma StartIsConnected(g: Graph<Comp>, start: Comp, connected: seq<Comp>, frontier: seq<Comp>)
    requires Exploring(g, start, connected, frontier)
    ensures start !in frontier
  {
    assert InList(start, connected) by {
      assert start in connected && Same(start, start);
    }
  }

  /** One level of the search, related to the distance from the start. */
  method ExploreOrRaise(net: Network, vlan: int, connected: seq<Comp>, frontier: seq<Comp>, strict: bool,
                        ghost start: Comp, ghost g: Graph<Comp>, ghost k: nat)
    returns (newList: Option<seq<Comp>>)
    requires g == PathGraph(net, vlan, start) && Searching(net, vlan, g, start, strict, connected, frontier, k)
    ensures newList.Some? ==> newList.value == LevelFrom(g, frontier, connected, frontier)
    ensures !strict ==> newList.Some?
    ensures strict && NothingHidden(g, start) ==> (newList.None? <==> SiblingAhead(net, vlan, g, start, k))
  {
    StartIsConnected(g, start, connected, frontier);
    newList := ExploreLevel(net, vlan, connected, frontier, strict, start, g);
    hide PathGraph, NothingHidden, NothingHiddenWithin;
    if NothingHidden(g, start) {
      ComparesIffAhead(net, vlan, start, g, connected, frontier, k);
    }
  }

  lemma SearchRaises(net: Network, vlan: int, g: Graph<Comp>, start: Comp, strict: bool, k: nat)
    requires strict && (NothingHidden(g, start) ==> SiblingAhead(net, vlan, g, start, k))
    ensures PathOutcome(net, vlan, g, start, strict, None)
  {
    hide NothingHidden, SiblingAhead;
  }

  /** The loop: explore, move the frontier over, replace it. */
  method Search(net: Network, vlan: int, start: Comp, strict: bool,
                ghost g: Graph<Comp>) returns (path: Option<seq<Comp>>)
    requires g == PathGraph(net, vlan, start) && Closed(g) && start in g
    ensures PathOutcome(net, vlan, g, start, strict, path)
  {
    var connected := [start];
    var frontier := DirectLinks(net, vlan, start);
    ghost var k := 0;
    ExploringStarts(g, start, frontier);
    StartIsExact(g, start, frontier);
    while |frontier| != 0
      invariant Searching(net, vlan, g, start, strict, connected, frontier, k)
      decreases Unexplored(g, connected)
    {
      hide *;
      var newList := ExploreOrRaise(net, vlan, connected, frontier, strict, start, g, k);
      if newList.None? {
        SearchRaises(net, vlan, g, start, strict, k);
        return None;
      }
      SearchAdvances(net, vlan, g, start, strict, connected, frontier, k);
      connected := connected + frontier;
      frontier := newList.value;
      k := k + 1;
    }
    hide *;
    SearchEnds(net, vlan, g, start, strict, connected, k);
    return Some(connected);
  }

  /**
   The path of a VLAN from an interface. Whatever is returned is reachable along VLAN-valid steps; it is
   everything reachable if and only if no component is hidden; and then, under the strict reading, the search
   raises exactly when, at some level, an interface has a VLAN sibling ahead.
   */
  method ComputePath(net: Network, vlan: int, start: Comp, strict: bool) returns (path: Option<seq<Comp>>)
    requires start.kind == ControllerInterface
    ensures PathOutcome(net, vlan, PathGraph(net, vlan, start), start, strict, path)
  {
    PathGraphIsClosed(net, vlan, start);
    path := Search(net, vlan, start, strict, PathGraph(net, vlan, start));
  }

  // ------------------------------------------------------------------ what is on a path

  /** The ports of a switch know their switch. */
  ghost predicate PortsOwned(net: Network) {
    forall c, p ::
        c in net.switchOf && p in net.switchOf[c].ports ==> p in net.switchOf && net.switchOf[p] == net.switchOf[c]
  }

  lemma StepCarriesVlan(net: Network, vlan: int, start: Comp, c: Comp, d: Comp)
    requires PortsOwned(net) && d in Next(net, vlan, start, c)
             && (d.kind == SwitchPort || d.kind == ControllerInterface)
    requires forall x, p :: x in net.switchOf && p in net.switchOf[x].ports ==> p.kind == SwitchPort
    ensures CarriesVlan(net, d, vlan)
  {
    NextMeaning(net, vlan, start, c, d);
  }

  /** Every component on a path other than its start carries the VLAN. */
  lemma PathCarriesVlan(net: Network, vlan: int, start: Comp, c: Comp)
    requires PortsOwned(net) && forall x, p :: x in net.switchOf && p in net.switchOf[x].ports ==> p.kind == SwitchPort
    requires Reaches(PathGraph(net, vlan, start), start, c) && c != start
    ensures CarriesVlan(net, c, vlan)
  {
    var g := PathGraph(net, vlan, start);
    var p :| WalkBetween(g, p, start, c);
    assert Edge(g, p[|p| - 2], p[|p| - 1]);
    if c.kind != EcuPort {
      StepCarriesVlan(net, vlan, start, p[|p| - 2], c);
    }
  }

  /**
   An interface that the start is linked to has a sibling in the VLAN ahead, when neither the start nor any
   link of the start goes by the sibling's identity.
   */
  lemma StrictRaises(net: Network, vlan: int, start: Comp, b: Comp, c: Comp)
    requires b in Linked(net, start) && b != start && b.kind == ControllerInterface && CarriesVlan(net, b, vlan)
    requires c in SiblingsOf(net, b) && CarriesVlan(net, c, vlan) && !InList(c, [start] + Linked(net, start))
    ensures EverAhead(net, vlan, PathGraph(net, vlan, start), start)
  {
    var g := PathGraph(net, vlan, start);
    NextMeaning(net, vlan, start, start, b);
    FirstBall(g, start, b);
    forall x | x in Ball(g, start, 1) ensures !Same(x, c) {
      FirstBall(g, start, x);
      NextMeaning(net, vlan, start, start, x);
      assert x in [start] + Linked(net, start);
    }
    assert IsBeyond(c, Ball(g, start, 0 + 1));
    assert HasSiblingBeyond(net, vlan, b, Ball(g, start, 0 + 1));
    assert SiblingAhead(net, vlan, g, start, 0);
  }

  /** What lies within no step and within one. */
  lemma FirstBall(g: Graph<Comp>, start: Comp, d: Comp)
    requires start in g
    ensures d in Ball(g, start, 0) <==> d == start
    ensures d in Ball(g, start, 1) <==> d == start || d in g[start]
  {
    assert start in Ball(g, start, 0);
    assert Ball(g, start, 0) == {start};
  }

  // ------------------------------------------------------------------ a component that is hidden

  lemma LinkIsEdge(net: Network, vlan: int, start: Comp, c: Comp, d: Comp)
    requires c in PathGraph(net, vlan, start) && d in Linked(net, c) && CarriesVlan(net, d, vlan)
    ensures Edge(PathGraph(net, vlan, start), c, d) && d in PathGraph(net, vlan, start)
    ensures Reaches(PathGraph(net, vlan, start), start, c) ==> Reaches(PathGraph(net, vlan, start), start, d)
  {
    NextMeaning(net, vlan, start, c, d);
    if Reaches(PathGraph(net, vlan, start), start, c) {
      ReachesStep(PathGraph(net, vlan, start), start, c, d);
    }
  }

  /** Whatever goes by the identity of a component next to the start makes the path incomplete. */
  lemma NamesakeIsMissed(net: Network, vlan: int, start: Comp, a: Comp, b: Comp)
    requires a in Linked(net, start) && CarriesVlan(net, a, vlan) && Same(a, b) && a != b
    requires Reaches(PathGraph(net, vlan, start), start, b)
    ensures !NothingHidden(PathGraph(net, vlan, start), start)
  {
    var g := PathGraph(net, vlan, start);
    LinkIsEdge(net, vlan, start, start, a);
    FirstBall(g, start, a);
    assert a in Ball(g, start, 1);
  }

  /**
   An interface linked to interface "eth" of a controller "cpu" and to a port of its ECU; behind the port of
   another ECU, interface "eth" of that ECU's controller "cpu".
   */
  function TwoCpus(s: Comp, a: Comp, p: Comp, q: Comp, b: Comp): Network {
    Network(map[], map[s := [a, p], a := [s], p := [s, q], q := [p, b], b := [q]], map[], map[],
        map[s := {1}, a := {1}, b := {1}])
  }

  lemma TwoCpusLinks(net: Network, s: Comp, a: Comp, p: Comp, q: Comp, b: Comp)
    requires s.kind == a.kind == b.kind == ControllerInterface && p.kind == q.kind == EcuPort
    requires s.oid < a.oid < b.oid < p.oid < q.oid && net == TwoCpus(s, a, p, q, b)
    ensures s in PathGraph(net, 1, s)
    ensures a in Linked(net, s) && p in Linked(net, s) && q in Linked(net, p) && b in Linked(net, q)
    ensures CarriesVlan(net, a, 1) && CarriesVlan(net, p, 1) && CarriesVlan(net, q, 1) && CarriesVlan(net, b, 1)
  {
    assert net.links[s] == [a, p] && net.links[p] == [s, q] && net.links[q] == [p, b];
  }

  /** The path from that interface leaves out the second "cpu", although it is reachable. */
  lemma SecondCpuIsMissed(net: Network, s: Comp, a: Comp, p: Comp, q: Comp, b: Comp, strict: bool,
                          path: Option<seq<Comp>>)
    requires s == Comp(0, ControllerInterface, "out", "gateway")
    requires a == Comp(1, ControllerInterface, "eth", "cpu") && b == Comp(2, ControllerInterface, "eth", "cpu")
    requires p == Comp(3, EcuPort, "p1", "") && q == Comp(4, EcuPort, "p2", "") && net == TwoCpus(s, a, p, q, b)
    requires PathOutcome(net, 1, PathGraph(net, 1, s), s, strict, path) && path.Some?
    ensures Reaches(PathGraph(net, 1, s), s, b)
    ensures exists c :: Reaches(PathGraph(net, 1, s), s, c) && c !in path.value
  {
    TwoCpusLinks(net, s, a, p, q, b);
    hide Linked, CarriesVlan, PathGraph, NothingHidden, TwoCpus;
    ReachesSelf(PathGraph(net, 1, s), s);
    LinkIsEdge(net, 1, s, s, p);
    LinkIsEdge(net, 1, s, p, q);
    LinkIsEdge(net, 1, s, q, b);
    NamesakeIsMissed(net, 1, s, a, b);
  }
}
