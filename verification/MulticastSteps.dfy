/**
 The steps of a multicast path read off the network itself: what a component is wired to, which VLAN entries name
 a port, which interfaces a controller has. What the search finds, and what is then listed in the switches, is said
 of ways along these steps.
 */
module MulticastSteps {
  import opened Wrappers
  import opened Graphs
  import opened Multicast
  import opened LevelSearch
  import opened MulticastPaths
  import opened MulticastTables
  import opened MulticastValidation

  // ------------------------------------------------------------------ steps

  /** A VLAN entry of the switch `sw` names the port. */
  predicate IsPortOfVlan(sw: Switch, vlan: int, port: string) {
    exists e :: e in sw.vlans && e.id == vlan && port in e.ports
  }

  /** A switch port has to be named by its switch, an interface has to have the VLAN; ECU ports pass everything. */
  predicate Passable(net: Network, vlan: int, d: Comp) {
    && (d.kind == SwitchPort ==> d in net.switchOf && IsPortOfVlan(net.switchOf[d], vlan, d.name))
    && (d.kind == ControllerInterface ==> d in net.vlansOf && vlan in net.vlansOf[d])
  }

  /** A switch port is wired to its peer, an interface or an ECU port to everything it lists. */
  predicate WiredTo(net: Network, c: Comp, d: Comp) {
    if c.kind == SwitchPort then c in net.peerOf && d == net.peerOf[c] else c in net.links && d in net.links[c]
  }

  /** Another port of the same switch, or another interface of the same controller, in the VLAN. */
  predicate Beside(net: Network, vlan: int, c: Comp, d: Comp) {
    && d.name != c.name
    && (c.kind == SwitchPort ==>
          c in net.switchOf && d in net.switchOf[c].ports && IsPortOfVlan(net.switchOf[c], vlan, d.name))
    && (c.kind == ControllerInterface ==> c in net.siblings && d in net.siblings[c] && Passable(net, vlan, d))
    && c.kind != EcuPort
  }

  /** One step of a path: along a wire, or, from any component but the start, to one beside it. */
  predicate GoesTo(net: Network, vlan: int, start: Comp, c: Comp, d: Comp) {
    (WiredTo(net, c, d) && Passable(net, vlan, d)) || (c != start && Beside(net, vlan, c, d))
  }

  lemma PassableMeaning(net: Network, vlan: int, d: Comp)
    ensures CarriesVlan(net, d, vlan) <==> Passable(net, vlan, d)
  {
  }

  /** The search looks at exactly these steps. */
  lemma NextIsStep(net: Network, vlan: int, start: Comp, c: Comp, d: Comp)
    ensures d in Next(net, vlan, start, c) <==> GoesTo(net, vlan, start, c, d)
  {
    hide Next, CarriesVlan, Passable;
    NextMeaning(net, vlan, start, c, d);
    PassableMeaning(net, vlan, d);
  }

  /** What leads anywhere is mentioned by the network. */
  lemma StepsAreMentioned(net: Network, vlan: int, start: Comp, c: Comp, d: Comp)
    requires GoesTo(net, vlan, start, c, d)
    ensures c in PathGraph(net, vlan, start)
  {
    hide Next;
  }

  /** The edges of the searched graph are the steps. */
  lemma EdgesAreSteps(net: Network, vlan: int, start: Comp, c: Comp, d: Comp)
    ensures Edge(PathGraph(net, vlan, start), c, d) <==> GoesTo(net, vlan, start, c, d)
  {
    NextIsStep(net, vlan, start, c, d);
    if GoesTo(net, vlan, start, c, d) {
      StepsAreMentioned(net, vlan, start, c, d);
    }
    hide Next, GoesTo;
  }

  // ------------------------------------------------------------------ ways

  /** A way from the start to `c`, step by step. */
  ghost predicate IsWay(net: Network, vlan: int, start: Comp, p: seq<Comp>, c: Comp) {
    && p != [] && p[0] == start && p[|p| - 1] == c
    && forall i :: 0 <= i < |p| - 1 ==> GoesTo(net, vlan, start, p[i], p[i + 1])
  }

  ghost predicate HasWay(net: Network, vlan: int, start: Comp, c: Comp) {
    exists p :: IsWay(net, vlan, start, p, c)
  }

  ghost predicate HasWayWithin(net: Network, vlan: int, start: Comp, c: Comp, k: nat) {
    exists p :: IsWay(net, vlan, start, p, c) && |p| - 1 <= k
  }

  lemma {:induction false} WayIsWalk(net: Network, vlan: int, start: Comp, p: seq<Comp>, c: Comp)
    requires IsWay(net, vlan, start, p, c)
    ensures WalkBetween(PathGraph(net, vlan, start), p, start, c)
  {
    hide GoesTo, PathGraph;
    var n := |p| - 1;
    if n > 0 {
      WayIsWalk(net, vlan, start, p[..n], p[n - 1]);
      assert GoesTo(net, vlan, start, p[n - 1], p[n - 1 + 1]);
      EdgesAreSteps(net, vlan, start, p[n - 1], p[n]);
      forall i | 0 <= i < n ensures Edge(PathGraph(net, vlan, start), p[i], p[i + 1]) {
        if i < n - 1 {
          assert Edge(PathGraph(net, vlan, start), p[..n][i], p[..n][i + 1]);
        }
      }
    }
  }

  lemma {:induction false} WalkIsWay(net: Network, vlan: int, start: Comp, p: seq<Comp>, c: Comp)
    requires WalkBetween(PathGraph(net, vlan, start), p, start, c)
    ensures IsWay(net, vlan, start, p, c)
  {
    hide GoesTo, PathGraph;
    forall i | 0 <= i < |p| - 1 ensures GoesTo(net, vlan, start, p[i], p[i + 1]) {
      assert Edge(PathGraph(net, vlan, start), p[i], p[i + 1]);
      EdgesAreSteps(net, vlan, start, p[i], p[i + 1]);
    }
  }

  /** What the search can reach is what has a way. */
  lemma ReachesMeaning(net: Network, vlan: int, start: Comp, c: Comp)
    ensures Reaches(PathGraph(net, vlan, start), start, c) <==> HasWay(net, vlan, start, c)
  {
    hide PathGraph;
    if p :| WalkBetween(PathGraph(net, vlan, start), p, start, c) {
      WalkIsWay(net, vlan, start, p, c);
    }
    if p :| IsWay(net, vlan, start, p, c) {
      WayIsWalk(net, vlan, start, p, c);
    }
  }

  lemma WayExtends(net: Network, vlan: int, start: Comp, b: Comp, c: Comp, k: nat)
    requires HasWayWithin(net, vlan, start, b, k) && GoesTo(net, vlan, start, b, c)
    ensures HasWayWithin(net, vlan, start, c, k + 1)
  {
    hide GoesTo;
    var p :| IsWay(net, vlan, start, p, b) && |p| - 1 <= k;
    assert IsWay(net, vlan, start, p + [c], c);
  }

  lemma WayGrows(net: Network, vlan: int, start: Comp, c: Comp, k: nat)
    requires HasWayWithin(net, vlan, start, c, k)
    ensures HasWayWithin(net, vlan, start, c, k + 1)
  {
    var p :| IsWay(net, vlan, start, p, c) && |p| - 1 <= k;
    assert |p| - 1 <= k + 1;
  }

  lemma StartHasWay(net: Network, vlan: int, start: Comp, c: Comp)
    ensures HasWayWithin(net, vlan, start, c, 0) <==> c == start
  {
    assert IsWay(net, vlan, start, [start], start) && |[start]| - 1 <= 0;
  }

  lemma WayIsReach(net: Network, vlan: int, start: Comp, c: Comp, k: nat)
    requires HasWayWithin(net, vlan, start, c, k)
    ensures Reaches(PathGraph(net, vlan, start), start, c)
  {
    hide IsWay;
    var p :| IsWay(net, vlan, start, p, c) && |p| - 1 <= k;
    WayIsWalk(net, vlan, start, p, c);
  }

  /** One step more. */
  lemma WayShortens(net: Network, vlan: int, start: Comp, c: Comp, k: nat) returns (b: Comp)
    requires HasWayWithin(net, vlan, start, c, k + 1) && !HasWayWithin(net, vlan, start, c, k)
    ensures HasWayWithin(net, vlan, start, b, k) && GoesTo(net, vlan, start, b, c)
  {
    hide GoesTo;
    var p :| IsWay(net, vlan, start, p, c) && |p| - 1 <= k + 1;
    var n := |p| - 1;
    if n == 0 {
      assert false;
    }
    b := p[n - 1];
    assert GoesTo(net, vlan, start, p[n - 1], p[n - 1 + 1]);
    assert IsWay(net, vlan, start, p[..n], b) && |p[..n]| - 1 <= k;
  }

  lemma {:induction false} BallHasWay(net: Network, vlan: int, start: Comp, c: Comp, k: nat)
    requires c in Ball(PathGraph(net, vlan, start), start, k)
    ensures HasWayWithin(net, vlan, start, c, k)
    decreases k
  {
    hide PathGraph, GoesTo, HasWayWithin;
    var g := PathGraph(net, vlan, start);
    if k == 0 {
      StartHasWay(net, vlan, start, c);
    } else if c in Ball(g, start, k - 1) {
      BallHasWay(net, vlan, start, c, k - 1);
      WayGrows(net, vlan, start, c, k - 1);
    } else {
      var b :| b in Ball(g, start, k - 1) && b in g && c in g[b];
      BallHasWay(net, vlan, start, b, k - 1);
      WayIsReach(net, vlan, start, b, k - 1);
      EdgesAreSteps(net, vlan, start, b, c);
      WayExtends(net, vlan, start, b, c, k - 1);
    }
  }

  lemma {:induction false} WayIsInBall(net: Network, vlan: int, start: Comp, c: Comp, k: nat)
    requires HasWayWithin(net, vlan, start, c, k)
    ensures c in Ball(PathGraph(net, vlan, start), start, k)
    decreases k
  {
    hide PathGraph, GoesTo, HasWayWithin;
    if k == 0 {
      StartHasWay(net, vlan, start, c);
    } else if HasWayWithin(net, vlan, start, c, k - 1) {
      WayIsInBall(net, vlan, start, c, k - 1);
    } else {
      var b := WayShortens(net, vlan, start, c, k - 1);
      WayIsInBall(net, vlan, start, b, k - 1);
      WayIsReach(net, vlan, start, b, k - 1);
      EdgesAreSteps(net, vlan, start, b, c);
    }
  }

  /** The levels of the search are the distances along the steps. */
  lemma BallMeaning(net: Network, vlan: int, start: Comp, c: Comp, k: nat)
    ensures c in Ball(PathGraph(net, vlan, start), start, k) <==> HasWayWithin(net, vlan, start, c, k)
  {
    hide PathGraph, Ball, HasWayWithin;
    if c in Ball(PathGraph(net, vlan, start), start, k) {
      BallHasWay(net, vlan, start, c, k);
    }
    if HasWayWithin(net, vlan, start, c, k) {
      WayIsInBall(net, vlan, start, c, k);
    }
  }

  // ------------------------------------------------------------------ the outcome of the search

  /** The search takes these for the same component. */
  predicate TakenForSame(a: Comp, b: Comp) {
    && a.kind == b.kind && a.name == b.name
    && (a.kind == SwitchPort || a.kind == ControllerInterface ==> a.owner == b.owner)
  }

  /**
   Two different components that are taken for the same are equally far away, at least two steps, so that both
   are met on one level.
   */
  ghost predicate NoneIsTakenForAnother(net: Network, vlan: int, start: Comp) {
    forall k: nat, c, d ::
      HasWayWithin(net, vlan, start, c, k) && HasWay(net, vlan, start, d) && c != d && TakenForSame(c, d) ==>
        k >= 2 && HasWayWithin(net, vlan, start, d, k)
  }

  /** No component as near goes by the identity of `d`. */
  ghost predicate IsNewWithin(net: Network, vlan: int, start: Comp, d: Comp, k: nat) {
    forall x :: HasWayWithin(net, vlan, start, x, k) ==> !TakenForSame(x, d)
  }

  /**
   The interface `c` is `k + 1` steps away. Its controller has another interface `d` in the VLAN that is not taken
   for any component as near.
   */
  ghost predicate MeetsSibling(net: Network, vlan: int, start: Comp, k: nat, c: Comp, d: Comp) {
    && HasWayWithin(net, vlan, start, c, k + 1) && !HasWayWithin(net, vlan, start, c, k)
    && c.kind == ControllerInterface && c in net.siblings && d in net.siblings[c] && Passable(net, vlan, d)
    && IsNewWithin(net, vlan, start, d, k + 1)
  }

  ghost predicate NewSiblingAhead(net: Network, vlan: int, start: Comp) {
    exists k: nat, c, d :: MeetsSibling(net, vlan, start, k, c, d)
  }

  lemma NothingHiddenMeaning(net: Network, vlan: int, start: Comp)
    ensures NothingHidden(PathGraph(net, vlan, start), start) <==> NoneIsTakenForAnother(net, vlan, start)
  {
    var g := PathGraph(net, vlan, start);
    forall c: Comp, d: Comp ensures Same(c, d) <==> TakenForSame(c, d) {
    }
    forall k: nat, c ensures c in Ball(g, start, k) <==> HasWayWithin(net, vlan, start, c, k) {
      BallMeaning(net, vlan, start, c, k);
    }
    forall c ensures Reaches(g, start, c) <==> HasWay(net, vlan, start, c) {
      ReachesMeaning(net, vlan, start, c);
    }
    hide PathGraph, Ball, Reaches, HasWay, HasWayWithin, Same, TakenForSame;
  }

  lemma BeyondMeaning(net: Network, vlan: int, start: Comp, d: Comp, k: nat)
    ensures IsBeyond(d, Ball(PathGraph(net, vlan, start), start, k)) <==> IsNewWithin(net, vlan, start, d, k)
  {
    var g := PathGraph(net, vlan, start);
    forall x ensures x in Ball(g, start, k) <==> HasWayWithin(net, vlan, start, x, k) {
      BallMeaning(net, vlan, start, x, k);
    }
    forall x: Comp ensures Same(x, d) <==> TakenForSame(x, d) {
    }
    hide PathGraph, Ball, HasWayWithin, Same, TakenForSame;
  }

  lemma MeetsMeaning(net: Network, vlan: int, start: Comp, k: nat, c: Comp, d: Comp)
    ensures var g := PathGraph(net, vlan, start);
            MeetsSibling(net, vlan, start, k, c, d) <==>
              && c in Ball(g, start, k + 1) && c !in Ball(g, start, k) && c.kind == ControllerInterface
              && d in SiblingsOf(net, c) && CarriesVlan(net, d, vlan) && IsBeyond(d, Ball(g, start, k + 1))
  {
    hide PathGraph, Ball, HasWayWithin, IsNewWithin, IsBeyond, Passable, CarriesVlan;
    BallMeaning(net, vlan, start, c, k + 1);
    BallMeaning(net, vlan, start, c, k);
    PassableMeaning(net, vlan, d);
    BeyondMeaning(net, vlan, start, d, k + 1);
  }

  lemma AheadMeaning(net: Network, vlan: int, start: Comp)
    ensures EverAhead(net, vlan, PathGraph(net, vlan, start), start) <==> NewSiblingAhead(net, vlan, start)
  {
    hide PathGraph, Ball, MeetsSibling, IsBeyond, CarriesVlan, SiblingsOf;
    var g := PathGraph(net, vlan, start);
    if EverAhead(net, vlan, g, start) {
      var k: nat :| SiblingAhead(net, vlan, g, start, k);
      var c :| c in Ball(g, start, k + 1) && c !in Ball(g, start, k)
               && HasSiblingBeyond(net, vlan, c, Ball(g, start, k + 1));
      var d :| d in SiblingsOf(net, c) && CarriesVlan(net, d, vlan) && IsBeyond(d, Ball(g, start, k + 1));
      MeetsMeaning(net, vlan, start, k, c, d);
    }
    if NewSiblingAhead(net, vlan, start) {
      var k: nat, c, d :| MeetsSibling(net, vlan, start, k, c, d);
      MeetsMeaning(net, vlan, start, k, c, d);
      assert HasSiblingBeyond(net, vlan, c, Ball(g, start, k + 1));
      assert SiblingAhead(net, vlan, g, start, k);
    }
  }

  /** Everything on a path has a way; everything that has one is on it exactly when none is taken for another. */
  ghost predicate IsPath(net: Network, vlan: int, start: Comp, strict: bool, path: Option<seq<Comp>>) {
    && (!strict ==> path.Some?)
    && (path.Some? ==> start in path.value && forall c :: c in path.value ==> HasWay(net, vlan, start, c))
    && (path.Some? ==>
          ((forall c :: HasWay(net, vlan, start, c) ==> c in path.value) <==> NoneIsTakenForAnother(net, vlan, start)))
    && (NoneIsTakenForAnother(net, vlan, start) && strict ==> (path.None? <==> NewSiblingAhead(net, vlan, start)))
  }

  lemma OutcomeIsPath(net: Network, vlan: int, start: Comp, strict: bool, path: Option<seq<Comp>>)
    requires PathOutcome(net, vlan, PathGraph(net, vlan, start), start, strict, path)
    ensures IsPath(net, vlan, start, strict, path)
  {
    forall c ensures Reaches(PathGraph(net, vlan, start), start, c) <==> HasWay(net, vlan, start, c) {
      ReachesMeaning(net, vlan, start, c);
    }
    NothingHiddenMeaning(net, vlan, start);
    AheadMeaning(net, vlan, start);
    hide PathGraph, HasWay, NothingHidden, EverAhead, Reaches, NoneIsTakenForAnother, NewSiblingAhead;
  }

  // ------------------------------------------------------------------ the tables

  /** Membership `i` is the first that transmits to the group in the VLAN. */
  predicate IsFirstTransmitter(ms: seq<Membership>, i: nat, group: string, vlan: int) {
    && i < |ms| && ms[i].transmits && ms[i].group == group && ms[i].vlan == vlan
    && forall j :: 0 <= j < i ==> !(ms[j].transmits && ms[j].group == group && ms[j].vlan == vlan)
  }

  lemma {:induction false} FirstTransmitterMeaning(ms: seq<Membership>, group: string, vlan: int, start: Comp)
    ensures FirstTransmitter(ms, group, vlan) == Some(start)
            <==> exists i: nat :: IsFirstTransmitter(ms, i, group, vlan) && ms[i].interface == start
    ensures FirstTransmitter(ms, group, vlan).None?
            <==> forall i :: 0 <= i < |ms| ==> !(ms[i].transmits && ms[i].group == group && ms[i].vlan == vlan)
  {
    if ms != [] {
      var n := |ms| - 1;
      FirstTransmitterMeaning(ms[..n], group, vlan, start);
      assert forall j :: 0 <= j < n ==> ms[..n][j] == ms[j];
      forall i: nat | i < n
        ensures IsFirstTransmitter(ms[..n], i, group, vlan) <==> IsFirstTransmitter(ms, i, group, vlan) {
      }
      if i: nat :| IsFirstTransmitter(ms[..n], i, group, vlan) && ms[..n][i].interface == start {
        assert IsFirstTransmitter(ms, i, group, vlan) && ms[i].interface == start;
      }
      if FirstTransmitter(ms[..n], group, vlan).None? && FirstTransmitter(ms, group, vlan) == Some(start) {
        assert IsFirstTransmitter(ms, n, group, vlan) && ms[n].interface == start;
      }
      if FirstTransmitter(ms[..n], group, vlan).Some? {
        FirstTransmitterMeaning(ms[..n], group, vlan, FirstTransmitter(ms[..n], group, vlan).value);
      }
    }
  }

  /**
   The port of that name of the switch has a way, in the VLAN of entry `i`, from the first interface that
   transmits to the group there.
   */
  ghost predicate HasPortOnWay(net: Network, ms: seq<Membership>, sw: Switch, i: nat, group: string, port: string)
    requires i < |sw.vlans|
  {
    exists k: nat, c ::
      && IsFirstTransmitter(ms, k, group, sw.vlans[i].id) && HasWay(net, sw.vlans[i].id, ms[k].interface, c)
      && c.kind == SwitchPort && c in net.switchOf && net.switchOf[c] == sw && c.name == port
  }

  lemma ReachedMeaning(net: Network, ms: seq<Membership>, sw: Switch, i: nat, group: string, port: string)
    requires i < |sw.vlans|
    ensures Reached(net, ms, sw, i, group, port) <==> HasPortOnWay(net, ms, sw, i, group, port)
  {
    hide HasWay, PathGraph, FirstTransmitter;
    var vlan := sw.vlans[i].id;
    forall start, c ensures Reaches(PathGraph(net, vlan, start), start, c) <==> HasWay(net, vlan, start, c) {
      ReachesMeaning(net, vlan, start, c);
    }
    hide Reaches, IsFirstTransmitter;
    if Reached(net, ms, sw, i, group, port) {
      var start, c :| FirstTransmitter(ms, group, vlan) == Some(start)
                      && Reaches(PathGraph(net, vlan, start), start, c) && Contributes(net, c, vlan, sw, i, port);
      FirstTransmitterMeaning(ms, group, vlan, start);
      var k: nat :| IsFirstTransmitter(ms, k, group, vlan) && ms[k].interface == start;
      assert HasWay(net, vlan, ms[k].interface, c);
    }
    if HasPortOnWay(net, ms, sw, i, group, port) {
      var k: nat, c :|
        && IsFirstTransmitter(ms, k, group, vlan) && HasWay(net, vlan, ms[k].interface, c)
        && c.kind == SwitchPort && c in net.switchOf && net.switchOf[c] == sw && c.name == port;
      FirstTransmitterMeaning(ms, group, vlan, ms[k].interface);
      assert Contributes(net, c, vlan, sw, i, port);
    }
  }

  ghost predicate NoneIsMissed(net: Network, ms: seq<Membership>) {
    forall k: nat, group, vlan :: IsFirstTransmitter(ms, k, group, vlan) ==>
      NoneIsTakenForAnother(net, vlan, ms[k].interface)
  }

  lemma AllVisibleMeaning(net: Network, ms: seq<Membership>)
    ensures AllVisible(net, ms) <==> NoneIsMissed(net, ms)
  {
    hide FirstTransmitter, NothingHidden, NoneIsTakenForAnother, PathGraph;
    forall vlan, start ensures NothingHidden(PathGraph(net, vlan, start), start)
                         <==> NoneIsTakenForAnother(net, vlan, start) {
      NothingHiddenMeaning(net, vlan, start);
    }
    if AllVisible(net, ms) {
      forall k: nat, group, vlan | IsFirstTransmitter(ms, k, group, vlan)
        ensures NoneIsTakenForAnother(net, vlan, ms[k].interface)
      {
        FirstTransmitterMeaning(ms, group, vlan, ms[k].interface);
      }
    }
    if NoneIsMissed(net, ms) {
      forall group, vlan | FirstTransmitter(ms, group, vlan).Some?
        ensures NothingHidden(PathGraph(net, vlan, FirstTransmitter(ms, group, vlan).value),
                              FirstTransmitter(ms, group, vlan).value)
      {
        var start := FirstTransmitter(ms, group, vlan).value;
        FirstTransmitterMeaning(ms, group, vlan, start);
        var k: nat :| IsFirstTransmitter(ms, k, group, vlan) && ms[k].interface == start;
      }
    }
  }

  /** Some group of the address in VLAN entry `i` of the switch lists the port. */
  ghost predicate ListsPortUnder(tables: Tables, sw: Switch, i: nat, address: string, port: string) {
    sw in tables && i < |tables[sw]| && exists g :: g in tables[sw][i] && g.address == address && port in g.ports
  }

  lemma ListedMeaning(tables: Tables, sw: Switch, i: nat, address: string, port: string)
    ensures Listed(tables, sw, i, address, port) <==> ListsPortUnder(tables, sw, i, address, port)
  {
  }

  /**
   After the pass a port is listed under a group only if it was before or has a way from the group's first
   transmitter; and also if, where no component is taken for another.
   */
  ghost predicate ListsPortsOnWays(net: Network, ms: seq<Membership>, before: Tables, after: Tables) {
    && after.Keys == before.Keys
    && forall sw, i: nat, group, port ::
         sw in before && i < |sw.vlans| ==> ListsRightly(net, ms, before, after, sw, i, group, port)
  }

  ghost predicate ListsRightly(net: Network, ms: seq<Membership>, before: Tables, after: Tables, sw: Switch, i: nat,
                               group: string, port: string)
    requires i < |sw.vlans|
  {
    && (ListsPortUnder(before, sw, i, group, port) ==> ListsPortUnder(after, sw, i, group, port))
    && (ListsPortUnder(after, sw, i, group, port) ==>
          ListsPortUnder(before, sw, i, group, port) || HasPortOnWay(net, ms, sw, i, group, port))
    && (NoneIsMissed(net, ms) && HasPortOnWay(net, ms, sw, i, group, port) ==>
          ListsPortUnder(after, sw, i, group, port))
  }

  lemma RightListing(net: Network, ms: seq<Membership>, before: Tables, after: Tables, sw: Switch, i: nat,
                     group: string, port: string)
    requires i < |sw.vlans|
    ensures ListingIsRight(net, ms, before, after, sw, i, group, port)
            <==> ListsRightly(net, ms, before, after, sw, i, group, port)
  {
    hide Reached, HasPortOnWay, AllVisible, NoneIsMissed, Listed, ListsPortUnder;
    AllVisibleMeaning(net, ms);
    ListedMeaning(before, sw, i, group, port);
    ListedMeaning(after, sw, i, group, port);
    ReachedMeaning(net, ms, sw, i, group, port);
  }

  lemma FilledMeaning(net: Network, ms: seq<Membership>, before: Tables, after: Tables)
    ensures TablesAreFilled(net, ms, before, after) <==> ListsPortsOnWays(net, ms, before, after)
  {
    hide ListsRightly, ListingIsRight;
    forall sw: Switch, i: nat, group, port | i < |sw.vlans|
      ensures ListingIsRight(net, ms, before, after, sw, i, group, port)
              <==> ListsRightly(net, ms, before, after, sw, i, group, port)
    {
      RightListing(net, ms, before, after, sw, i, group, port);
    }
  }

  /** A port is appended behind those of every group of its address, or is the first of a new group at the end. */
  lemma WithPortMeaning(groups: seq<Group>, address: string, port: string)
    ensures var r := WithPort(groups, address, port);
            && (forall i :: 0 <= i < |groups| && groups[i].address != address ==> i < |r| && r[i] == groups[i])
            && (forall i :: 0 <= i < |groups| && groups[i].address == address ==>
                  i < |r| && r[i] == Group(address, groups[i].ports + [port]))
            && if exists g :: g in groups && g.address == address then |r| == |groups|
               else |r| == |groups| + 1 && r[|groups|] == Group(address, [port])
  {
    if g :| g in groups && g.address == address {
      var i :| 0 <= i < |groups| && groups[i] == g;
    }
  }
}
