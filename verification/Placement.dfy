/**
 What the placement checks accept, said of positions and lengths: which items have to lie where, and apart from
 which others. No range, footprint or registry of the checks occurs in it.
 */
module Placement {
  import opened BitLayout
  import opened Wrappers

  // ------------------------------------------------------------------ signals and groups

  predicate SignalFits(x: SignalInstance, bits: nat) {
    x.position.Some? ==> x.position.value + x.signal.bitLength <= bits
  }

  /** Two placed signals of one container do not meet. */
  predicate SignalsApart(x: SignalInstance, y: SignalInstance) {
    x.position.Some? && y.position.Some? ==>
      || x.position.value + x.signal.bitLength <= y.position.value
      || y.position.value + y.signal.bitLength <= x.position.value
  }

  /** All placed signals of the group, which starts at bit `start`, end at `bit` or earlier. */
  predicate EndsBy(g: SignalGroup, start: nat, bit: int) {
    forall k :: 0 <= k < |g.signals| && g.signals[k].position.Some? ==>
      start + g.signals[k].position.value + g.signals[k].signal.bitLength <= bit
  }

  predicate GroupFits(g: SignalGroupInstance, bits: nat) {
    g.position.Some? ==> EndsBy(g.group, g.position.value, bits)
  }

  /** A signal lies behind all signals of a group, or before the group. */
  predicate ApartFromGroup(x: SignalInstance, g: SignalGroupInstance) {
    x.position.Some? && g.position.Some? ==>
      || EndsBy(g.group, g.position.value, x.position.value)
      || x.position.value + x.signal.bitLength <= g.position.value
  }

  predicate GroupsApart(g: SignalGroupInstance, h: SignalGroupInstance) {
    g.position.Some? && h.position.Some? ==>
      || EndsBy(g.group, g.position.value, h.position.value)
      || EndsBy(h.group, h.position.value, g.position.value)
  }

  predicate GroupIsLaidOut(g: SignalGroup) {
    forall i, j :: 0 <= i < j < |g.signals| ==> SignalsApart(g.signals[i], g.signals[j])
  }

  /** Where the signals and groups of a PDU have to lie. */
  predicate IsLaidOut(p: Pdu) {
    p.StandardPdu? ==>
      && (forall i :: 0 <= i < |p.groups| ==> GroupIsLaidOut(p.groups[i].group))
      && (forall i :: 0 <= i < |p.signals| ==> SignalFits(p.signals[i], 8 * p.length))
      && (forall i :: 0 <= i < |p.groups| ==> GroupFits(p.groups[i], 8 * p.length))
      && (forall i, j :: 0 <= i < j < |p.signals| ==> SignalsApart(p.signals[i], p.signals[j]))
      && (forall i, j :: 0 <= i < |p.signals| && 0 <= j < |p.groups| ==> ApartFromGroup(p.signals[i], p.groups[j]))
      && (forall i, j :: 0 <= i < j < |p.groups| ==> GroupsApart(p.groups[i], p.groups[j]))
  }

  // ------------------------------------------------------------------ the checked ranges

  /** The footprint is the end of some placed signal, or 0 when none is placed. */
  lemma {:induction false} FootprintIsAttained(signals: seq<SignalInstance>)
    ensures if exists i :: 0 <= i < |signals| && signals[i].position.Some?
            then exists i :: 0 <= i < |signals| && signals[i].position.Some?
                             && MaxEnd(signals) == signals[i].position.value + signals[i].signal.bitLength
            else MaxEnd(signals) == 0
  {
    if signals != [] {
      var n := |signals| - 1;
      FootprintIsAttained(signals[..n]);
      if i :| 0 <= i < n && signals[..n][i].position.Some?
              && MaxEnd(signals[..n]) == signals[..n][i].position.value + signals[..n][i].signal.bitLength {
        assert signals[i].position.Some?;
      }
      if i :| 0 <= i < n && signals[i].position.Some? {
        assert signals[..n][i].position.Some?;
      }
    }
  }

  /** The range that is checked for a placed group: from its position to the end of its last signal. */
  lemma GroupRangeMeaning(gi: SignalGroupInstance)
    ensures var r, signals := SignalGroupInstanceRange(gi), gi.group.signals;
            && (r.Some? <==> gi.position.Some? && exists i :: 0 <= i < |signals| && signals[i].position.Some?)
            && (r.Some? ==>
                 && r.value.start == gi.position.value
                 && (exists i :: 0 <= i < |signals| && signals[i].position.Some?
                       && r.value.end == gi.position.value + signals[i].position.value + signals[i].signal.bitLength)
                 && EndsBy(gi.group, gi.position.value, r.value.end))
  {
    FootprintIsAttained(gi.group.signals);
    forall i | 0 <= i < |gi.group.signals| && gi.group.signals[i].position.Some?
      ensures gi.group.signals[i].position.value + gi.group.signals[i].signal.bitLength <= MaxEnd(gi.group.signals)
    {
      FootprintCovers(gi.group.signals, i);
    }
  }

  /** A placed group ends where its checked range does. */
  lemma EndsByRange(gi: SignalGroupInstance, bit: int)
    requires gi.position.Some?
    ensures EndsBy(gi.group, gi.position.value, bit)
            <==> SignalGroupInstanceRange(gi).None? || SignalGroupInstanceRange(gi).value.end <= bit
  {
    hide SignalGroupInstanceRange;
    GroupRangeMeaning(gi);
  }

  // ------------------------------------------------------------------ collected ranges, item by item

  /** The ranges of two items, where both have one, do not meet. */
  predicate Meetless(a: Option<Range>, b: Option<Range>) {
    a.Some? && b.Some? ==> !Overlap(a.value, b.value)
  }

  predicate EndsWithin(a: Option<Range>, bits: int) {
    a.Some? ==> a.value.end <= bits
  }

  lemma {:induction false} CollectedMembers<T>(items: seq<T>, f: T -> Option<Range>, r: Range)
    ensures r in Collected(items, f) <==> exists i :: 0 <= i < |items| && f(items[i]) == Some(r)
  {
    if items != [] {
      var n := |items| - 1;
      CollectedMembers(items[..n], f, r);
      if i :| 0 <= i < n && f(items[..n][i]) == Some(r) {
        assert f(items[i]) == Some(r);
      }
      if i :| 0 <= i < |items| && f(items[i]) == Some(r) {
        if i < n {
          assert f(items[..n][i]) == Some(r);
        }
      }
    }
  }

  lemma WithinMembers(ranges: seq<Range>, bits: int)
    ensures Within(ranges, bits) <==> forall r :: r in ranges ==> r.end <= bits
  {
    if Within(ranges, bits) {
      forall r | r in ranges ensures r.end <= bits {
        var i :| 0 <= i < |ranges| && ranges[i] == r;
      }
    }
  }

  lemma CollectedWithin<T>(items: seq<T>, f: T -> Option<Range>, bits: int)
    ensures Within(Collected(items, f), bits) <==> forall i :: 0 <= i < |items| ==> EndsWithin(f(items[i]), bits)
  {
    WithinMembers(Collected(items, f), bits);
    forall r ensures r in Collected(items, f) <==> exists i :: 0 <= i < |items| && f(items[i]) == Some(r) {
      CollectedMembers(items, f, r);
    }
    forall i | 0 <= i < |items| && f(items[i]).Some? ensures f(items[i]).value in Collected(items, f) {
      assert f(items[i]) == Some(f(items[i]).value);
    }
  }

  /** No range of `a` meets one of `b`. */
  predicate AllMeetless(a: seq<Range>, b: seq<Range>) {
    forall x, y :: x in a && y in b ==> !Overlap(x, y)
  }

  lemma DisjointConcat(a: seq<Range>, b: seq<Range>)
    ensures Disjoint(a + b) <==> Disjoint(a) && Disjoint(b) && AllMeetless(a, b)
  {
    if Disjoint(a + b) {
      assert forall i :: 0 <= i < |a| ==> a[i] == (a + b)[i];
      assert forall i :: 0 <= i < |b| ==> b[i] == (a + b)[|a| + i];
      forall x, y | x in a && y in b ensures !Overlap(x, y) {
        var i :| 0 <= i < |a| && a[i] == x;
        var j :| 0 <= j < |b| && b[j] == y;
        assert (a + b)[i] == x && (a + b)[|a| + j] == y;
      }
    }
    if Disjoint(a) && Disjoint(b) && AllMeetless(a, b) {
      forall i, j | 0 <= i < j < |a + b| ensures !Overlap((a + b)[i], (a + b)[j]) {
        if i < |a| <= j {
          assert a[i] in a && b[j - |a|] in b;
        }
      }
    }
  }

  lemma CollectedMeetless<S, T>(xs: seq<S>, f: S -> Option<Range>, ys: seq<T>, g: T -> Option<Range>)
    ensures AllMeetless(Collected(xs, f), Collected(ys, g))
            <==> forall i, j :: 0 <= i < |xs| && 0 <= j < |ys| ==> Meetless(f(xs[i]), g(ys[j]))
  {
    forall r ensures r in Collected(xs, f) <==> exists i :: 0 <= i < |xs| && f(xs[i]) == Some(r) {
      CollectedMembers(xs, f, r);
    }
    forall r ensures r in Collected(ys, g) <==> exists i :: 0 <= i < |ys| && g(ys[i]) == Some(r) {
      CollectedMembers(ys, g, r);
    }
    if AllMeetless(Collected(xs, f), Collected(ys, g)) {
      forall i, j | 0 <= i < |xs| && 0 <= j < |ys| ensures Meetless(f(xs[i]), g(ys[j])) {
        if f(xs[i]).Some? && g(ys[j]).Some? {
          assert f(xs[i]) == Some(f(xs[i]).value) && g(ys[j]) == Some(g(ys[j]).value);
        }
      }
    }
  }

  lemma OverlapIsSymmetric(a: Range, b: Range)
    ensures Overlap(a, b) <==> Overlap(b, a)
  {
  }

  lemma {:induction false} CollectedDisjoint<T>(items: seq<T>, f: T -> Option<Range>)
    ensures Disjoint(Collected(items, f))
            <==> forall i, j :: 0 <= i < j < |items| ==> Meetless(f(items[i]), f(items[j]))
  {
    if items != [] {
      var n := |items| - 1;
      var init, last := items[..n], [items[n]];
      CollectedDisjoint(init, f);
      assert last[..0] == [];
      assert Collected(last, f) == if f(items[n]).Some? then [f(items[n]).value] else [];
      assert Collected(items, f) == Collected(init, f) + Collected(last, f);
      DisjointConcat(Collected(init, f), Collected(last, f));
      CollectedMeetless(init, f, last, f);
      hide Collected, Meetless, Disjoint, AllMeetless;
      assert Disjoint(Collected(last, f)) by { OneIsDisjoint(items[n], f); }
      assert forall i :: 0 <= i < n ==> init[i] == items[i];
      assert last[0] == items[n];
    }
  }

  lemma OneIsDisjoint<T>(x: T, f: T -> Option<Range>)
    ensures Disjoint(Collected([x], f))
  {
    assert [x][..0] == [];
    assert Collected([x], f) == if f(x).Some? then [f(x).value] else [];
  }

  // ------------------------------------------------------------------ what a PDU's checks accept

  lemma SignalsMeetless(x: SignalInstance, y: SignalInstance)
    ensures Meetless(SignalInstanceRange(x), SignalInstanceRange(y)) <==> SignalsApart(x, y)
  {
  }

  lemma GroupMeetless(x: SignalInstance, g: SignalGroupInstance)
    ensures Meetless(SignalInstanceRange(x), SignalGroupInstanceRange(g)) <==> ApartFromGroup(x, g)
  {
    hide SignalGroupInstanceRange, EndsBy;
    GroupRangeMeaning(g);
    if x.position.Some? && g.position.Some? {
      EndsByRange(g, x.position.value);
    }
  }

  lemma GroupsMeetless(g: SignalGroupInstance, h: SignalGroupInstance)
    ensures Meetless(SignalGroupInstanceRange(g), SignalGroupInstanceRange(h)) <==> GroupsApart(g, h)
  {
    hide SignalGroupInstanceRange, EndsBy;
    GroupRangeMeaning(g);
    GroupRangeMeaning(h);
    if g.position.Some? && h.position.Some? {
      EndsByRange(g, h.position.value);
      EndsByRange(h, g.position.value);
    }
  }

  lemma GroupFitsRange(g: SignalGroupInstance, bits: nat)
    ensures EndsWithin(SignalGroupInstanceRange(g), bits) <==> GroupFits(g, bits)
  {
    hide SignalGroupInstanceRange, EndsBy;
    GroupRangeMeaning(g);
    if g.position.Some? {
      EndsByRange(g, bits);
    }
  }

  lemma GroupValidMeaning(g: SignalGroup)
    ensures GroupIsValid(g) <==> GroupIsLaidOut(g)
  {
    CollectedDisjoint(g.signals, SignalInstanceRange);
    forall x, y ensures Meetless(SignalInstanceRange(x), SignalInstanceRange(y)) <==> SignalsApart(x, y) {
      SignalsMeetless(x, y);
    }
    hide Meetless, SignalsApart, Collected, Disjoint, SignalInstanceRange;
  }

  lemma WithinConcat(a: seq<Range>, b: seq<Range>, bits: int)
    ensures Within(a + b, bits) <==> Within(a, bits) && Within(b, bits)
  {
    WithinMembers(a, bits);
    WithinMembers(b, bits);
    WithinMembers(a + b, bits);
  }

  lemma PlacedWithin(signals: seq<SignalInstance>, groups: seq<SignalGroupInstance>, bits: nat)
    ensures Within(PlacedRanges(signals, groups), bits) <==>
              && (forall i :: 0 <= i < |signals| ==> SignalFits(signals[i], bits))
              && (forall i :: 0 <= i < |groups| ==> GroupFits(groups[i], bits))
  {
    WithinConcat(Collected(signals, SignalInstanceRange), Collected(groups, SignalGroupInstanceRange), bits);
    CollectedWithin(signals, SignalInstanceRange, bits);
    CollectedWithin(groups, SignalGroupInstanceRange, bits);
    forall g ensures EndsWithin(SignalGroupInstanceRange(g), bits) <==> GroupFits(g, bits) {
      GroupFitsRange(g, bits);
    }
    forall x ensures EndsWithin(SignalInstanceRange(x), bits) <==> SignalFits(x, bits) {
    }
    hide EndsWithin, GroupFits, SignalFits, Collected, Within, SignalInstanceRange, SignalGroupInstanceRange;
  }

  lemma PlacedDisjoint(signals: seq<SignalInstance>, groups: seq<SignalGroupInstance>)
    ensures Disjoint(PlacedRanges(signals, groups)) <==>
              && (forall i, j :: 0 <= i < j < |signals| ==> SignalsApart(signals[i], signals[j]))
              && (forall i, j :: 0 <= i < |signals| && 0 <= j < |groups| ==> ApartFromGroup(signals[i], groups[j]))
              && (forall i, j :: 0 <= i < j < |groups| ==> GroupsApart(groups[i], groups[j]))
  {
    DisjointConcat(Collected(signals, SignalInstanceRange), Collected(groups, SignalGroupInstanceRange));
    CollectedDisjoint(signals, SignalInstanceRange);
    CollectedDisjoint(groups, SignalGroupInstanceRange);
    CollectedMeetless(signals, SignalInstanceRange, groups, SignalGroupInstanceRange);
    forall x, y ensures Meetless(SignalInstanceRange(x), SignalInstanceRange(y)) <==> SignalsApart(x, y) {
      SignalsMeetless(x, y);
    }
    forall x, g ensures Meetless(SignalInstanceRange(x), SignalGroupInstanceRange(g)) <==> ApartFromGroup(x, g) {
      GroupMeetless(x, g);
    }
    forall g, h ensures Meetless(SignalGroupInstanceRange(g), SignalGroupInstanceRange(h)) <==> GroupsApart(g, h) {
      GroupsMeetless(g, h);
    }
    hide Meetless, SignalsApart, ApartFromGroup, GroupsApart, Collected, Disjoint, AllMeetless, SignalInstanceRange,
        SignalGroupInstanceRange;
  }

  /** A PDU is accepted exactly if its items lie as they have to. */
  lemma PduValidMeaning(p: Pdu)
    ensures PduIsValid(p) <==> IsLaidOut(p)
  {
    if p.StandardPdu? {
      PlacedWithin(p.signals, p.groups, 8 * p.length);
      PlacedDisjoint(p.signals, p.groups);
      forall g ensures GroupIsValid(g) <==> GroupIsLaidOut(g) {
        GroupValidMeaning(g);
      }
      hide GroupIsValid, GroupIsLaidOut, SignalsApart, ApartFromGroup, GroupsApart, GroupFits, SignalFits,
          PlacedRanges, Within, Disjoint;
    }
  }

  // ------------------------------------------------------------------ frames and channels

  /** The last PDU of the name. */
  predicate IsLastPdu(pdus: seq<Pdu>, k: nat, name: string) {
    k < |pdus| && pdus[k].name == name && forall j :: k < j < |pdus| ==> pdus[j].name != name
  }

  ghost predicate GoesByName(pdus: seq<Pdu>, name: string, p: Pdu) {
    exists k: nat :: IsLastPdu(pdus, k, name) && pdus[k] == p
  }

  ghost predicate IsDeclared(pdus: seq<Pdu>, name: string) {
    exists p :: GoesByName(pdus, name, p)
  }

  lemma {:induction false} RegistryMeaning(pdus: seq<Pdu>, name: string, p: Pdu)
    ensures name in RegistryOf(pdus) && RegistryOf(pdus)[name] == p <==> GoesByName(pdus, name, p)
  {
    if pdus != [] {
      var n := |pdus| - 1;
      RegistryMeaning(pdus[..n], name, p);
      assert forall j :: 0 <= j < n ==> pdus[..n][j] == pdus[j];
      if pdus[n].name == name {
        assert IsLastPdu(pdus, n, name);
      } else {
        forall k: nat ensures IsLastPdu(pdus, k, name) <==> IsLastPdu(pdus[..n], k, name) {
        }
        if k: nat :| IsLastPdu(pdus[..n], k, name) && pdus[..n][k] == p {
          assert IsLastPdu(pdus, k, name) && pdus[k] == p;
        }
      }
    }
  }

  predicate PduFits(x: PduInstance, p: Pdu, bits: nat) {
    x.position.Some? ==> x.position.value + 8 * p.length <= bits
  }

  predicate PdusApart(x: PduInstance, p: Pdu, y: PduInstance, q: Pdu) {
    x.position.Some? && y.position.Some? ==>
      || x.position.value + 8 * p.length <= y.position.value
      || y.position.value + 8 * q.length <= x.position.value
  }

  /** Where the PDUs of a frame have to lie; `pdus` are all that are declared. */
  ghost predicate FrameIsLaidOut(pdus: seq<Pdu>, f: Frame) {
    && (forall i :: 0 <= i < |f.packed| ==> IsDeclared(pdus, f.packed[i].pduRef))
    && (forall i, p :: 0 <= i < |f.packed| && GoesByName(pdus, f.packed[i].pduRef, p) ==>
          PduFits(f.packed[i], p, 8 * f.length))
    && (forall i, j :: 0 <= i < j < |f.packed| ==> PlacesApart(pdus, f.packed[i], f.packed[j]))
  }

  ghost predicate PlacesApart(pdus: seq<Pdu>, x: PduInstance, y: PduInstance) {
    forall p, q :: GoesByName(pdus, x.pduRef, p) && GoesByName(pdus, y.pduRef, q) ==> PdusApart(x, p, y, q)
  }

  lemma {:induction false} PackedIsCollected(registry: Registry, packed: seq<PduInstance>)
    ensures PackedRanges(registry, packed) == Collected(packed, (pi: PduInstance) => PduInstanceRange(registry, pi))
  {
    if packed != [] {
      PackedIsCollected(registry, packed[..|packed| - 1]);
    }
  }

  lemma FrameRanges(registry: Registry, f: Frame)
    requires RefsAreKnown(registry, f)
    ensures FrameIsValid(registry, f) <==>
              && (forall i :: 0 <= i < |f.packed| ==>
                    PduFits(f.packed[i], registry[f.packed[i].pduRef], 8 * f.length))
              && (forall i, j :: 0 <= i < j < |f.packed| ==>
                    PdusApart(f.packed[i], registry[f.packed[i].pduRef], f.packed[j], registry[f.packed[j].pduRef]))
  {
    var range := (pi: PduInstance) => PduInstanceRange(registry, pi);
    PackedIsCollected(registry, f.packed);
    CollectedWithin(f.packed, range, 8 * f.length);
    CollectedDisjoint(f.packed, range);
    forall i | 0 <= i < |f.packed|
      ensures EndsWithin(range(f.packed[i]), 8 * f.length)
              <==> PduFits(f.packed[i], registry[f.packed[i].pduRef], 8 * f.length)
    {
    }
    forall i, j | 0 <= i < j < |f.packed|
      ensures Meetless(range(f.packed[i]), range(f.packed[j]))
              <==> PdusApart(f.packed[i], registry[f.packed[i].pduRef], f.packed[j], registry[f.packed[j].pduRef])
    {
    }
    hide EndsWithin, PduFits, Meetless, PdusApart, PackedRanges, Collected, Within, Disjoint;
  }

  /** The name of a placed PDU leads to the one that the registry holds. */
  lemma KnownGoesByName(pdus: seq<Pdu>, f: Frame, i: nat, p: Pdu)
    requires RefsAreKnown(RegistryOf(pdus), f) && i < |f.packed|
    ensures GoesByName(pdus, f.packed[i].pduRef, p) <==> p == RegistryOf(pdus)[f.packed[i].pduRef]
  {
    RegistryMeaning(pdus, f.packed[i].pduRef, p);
  }

  lemma LaidOutIsValid(pdus: seq<Pdu>, f: Frame)
    requires FrameIsLaidOut(pdus, f)
    ensures RefsAreKnown(RegistryOf(pdus), f) && FrameIsValid(RegistryOf(pdus), f)
  {
    hide RegistryOf, FrameIsValid;
    var registry := RegistryOf(pdus);
    forall i | 0 <= i < |f.packed| ensures f.packed[i].pduRef in registry {
      assert IsDeclared(pdus, f.packed[i].pduRef);
      var p :| GoesByName(pdus, f.packed[i].pduRef, p);
      RegistryMeaning(pdus, f.packed[i].pduRef, p);
    }
    forall i | 0 <= i < |f.packed| ensures PduFits(f.packed[i], registry[f.packed[i].pduRef], 8 * f.length) {
      KnownGoesByName(pdus, f, i, registry[f.packed[i].pduRef]);
    }
    forall i, j | 0 <= i < j < |f.packed|
      ensures PdusApart(f.packed[i], registry[f.packed[i].pduRef], f.packed[j], registry[f.packed[j].pduRef])
    {
      KnownGoesByName(pdus, f, i, registry[f.packed[i].pduRef]);
      KnownGoesByName(pdus, f, j, registry[f.packed[j].pduRef]);
      assert PlacesApart(pdus, f.packed[i], f.packed[j]);
    }
    FrameRanges(registry, f);
  }

  lemma ValidIsLaidOut(pdus: seq<Pdu>, f: Frame)
    requires RefsAreKnown(RegistryOf(pdus), f) && FrameIsValid(RegistryOf(pdus), f)
    ensures FrameIsLaidOut(pdus, f)
  {
    hide RegistryOf, FrameIsValid;
    var registry := RegistryOf(pdus);
    FrameRanges(registry, f);
    forall i | 0 <= i < |f.packed| ensures IsDeclared(pdus, f.packed[i].pduRef) {
      KnownGoesByName(pdus, f, i, registry[f.packed[i].pduRef]);
    }
    forall i, p | 0 <= i < |f.packed| && GoesByName(pdus, f.packed[i].pduRef, p)
      ensures PduFits(f.packed[i], p, 8 * f.length)
    {
      KnownGoesByName(pdus, f, i, p);
    }
    forall i, j | 0 <= i < j < |f.packed| ensures PlacesApart(pdus, f.packed[i], f.packed[j]) {
      forall p, q | GoesByName(pdus, f.packed[i].pduRef, p) && GoesByName(pdus, f.packed[j].pduRef, q)
        ensures PdusApart(f.packed[i], p, f.packed[j], q)
      {
        KnownGoesByName(pdus, f, i, p);
        KnownGoesByName(pdus, f, j, q);
      }
    }
  }

  /** A frame is accepted exactly if its PDUs are declared and lie as they have to. */
  lemma FrameValidMeaning(pdus: seq<Pdu>, f: Frame)
    ensures RefsAreKnown(RegistryOf(pdus), f) && FrameIsValid(RegistryOf(pdus), f) <==> FrameIsLaidOut(pdus, f)
  {
    hide RegistryOf, FrameIsValid, RefsAreKnown, FrameIsLaidOut;
    if RefsAreKnown(RegistryOf(pdus), f) && FrameIsValid(RegistryOf(pdus), f) {
      ValidIsLaidOut(pdus, f);
    }
    if FrameIsLaidOut(pdus, f) {
      LaidOutIsValid(pdus, f);
    }
  }

  /** Where everything in a channel configuration has to lie. */
  ghost predicate ConfigIsLaidOut(c: ChannelConfig) {
    && (forall p :: p in c.pdus ==> IsLaidOut(p))
    && (forall bus, f :: (bus in c.canBuses || bus in c.linBuses) && f in bus.frames ==> FrameIsLaidOut(c.pdus, f))
  }

  lemma BusValidMeaning(pdus: seq<Pdu>, bus: Bus)
    ensures BusIsValid(RegistryOf(pdus), bus) <==> forall f :: f in bus.frames ==> FrameIsLaidOut(pdus, f)
  {
    hide RegistryOf, FrameIsValid, RefsAreKnown, FrameIsLaidOut;
    forall f ensures RefsAreKnown(RegistryOf(pdus), f) && FrameIsValid(RegistryOf(pdus), f)
      <==> FrameIsLaidOut(pdus, f) {
      FrameValidMeaning(pdus, f);
    }
    if BusIsValid(RegistryOf(pdus), bus) {
      forall f | f in bus.frames ensures FrameIsLaidOut(pdus, f) {
        var i :| 0 <= i < |bus.frames| && bus.frames[i] == f;
      }
    }
  }

  /** A channel configuration is accepted exactly if everything lies as it has to. */
  lemma ConfigValidMeaning(c: ChannelConfig)
    ensures ConfigIsValid(c) <==> ConfigIsLaidOut(c)
  {
    hide PduIsValid, BusIsValid, IsLaidOut, FrameIsLaidOut, RegistryOf;
    forall p ensures PduIsValid(p) <==> IsLaidOut(p) {
      PduValidMeaning(p);
    }
    forall bus
      ensures BusIsValid(RegistryOf(c.pdus), bus) <==> forall f :: f in bus.frames ==> FrameIsLaidOut(c.pdus, f)
    {
      BusValidMeaning(c.pdus, bus);
    }
    if ConfigIsValid(c) {
      forall p | p in c.pdus ensures IsLaidOut(p) {
        var i :| 0 <= i < |c.pdus| && c.pdus[i] == p;
      }
      forall bus | bus in c.canBuses || bus in c.linBuses ensures BusIsValid(RegistryOf(c.pdus), bus) {
      }
    }
  }

  // ------------------------------------------------------------------ all signals of a frame

  /** A signal of a frame: in PDU `pdu` of the frame, at position `signal` of the PDU or of its group `group`. */
  datatype Spot = Spot(pdu: nat, group: Option<nat>, signal: nat)

  /** `p` is the standard PDU at the spot, and the spot is a placed signal in it, in a placed group if in one. */
  predicate HoldsSpot(p: Pdu, s: Spot) {
    && p.StandardPdu?
    && match s.group
       case None => s.signal < |p.signals| && p.signals[s.signal].position.Some?
       case Some(g) =>
         && g < |p.groups| && p.groups[g].position.Some?
         && s.signal < |p.groups[g].group.signals| && p.groups[g].group.signals[s.signal].position.Some?
  }

  function SignalAt(p: Pdu, s: Spot): SignalInstance
    requires HoldsSpot(p, s)
  {
    if s.group.None? then p.signals[s.signal] else p.groups[s.group.value].group.signals[s.signal]
  }

  /** The first bit of the signal in a PDU that starts at `offset`. */
  function StartIn(p: Pdu, s: Spot, offset: nat): nat
    requires HoldsSpot(p, s)
  {
    offset + (if s.group.None? then 0 else p.groups[s.group.value].position.value) + SignalAt(p, s).position.value
  }

  function EndIn(p: Pdu, s: Spot, offset: nat): nat
    requires HoldsSpot(p, s)
  {
    StartIn(p, s, offset) + SignalAt(p, s).signal.bitLength
  }

  /** Signals of one PDU lie inside it and do not meet. */
  lemma SpotsInPdu(p: Pdu, s: Spot, t: Spot, offset: nat)
    requires IsLaidOut(p) && HoldsSpot(p, s) && HoldsSpot(p, t)
    ensures offset <= StartIn(p, s, offset) < EndIn(p, s, offset) <= offset + 8 * p.length
    ensures s.group != t.group || s.signal != t.signal ==>
              EndIn(p, s, offset) <= StartIn(p, t, offset) || EndIn(p, t, offset) <= StartIn(p, s, offset)
  {
    if s.group.None? {
      assert SignalFits(p.signals[s.signal], 8 * p.length);
      if t.group.None? && s.signal != t.signal {
        assert SignalsApart(p.signals[if s.signal < t.signal then s.signal else t.signal],
                            p.signals[if s.signal < t.signal then t.signal else s.signal]);
      } else if t.group.Some? {
        assert ApartFromGroup(p.signals[s.signal], p.groups[t.group.value]);
      }
    } else {
      var g := s.group.value;
      assert GroupFits(p.groups[g], 8 * p.length);
      if t.group.None? {
        assert ApartFromGroup(p.signals[t.signal], p.groups[g]);
      } else if t.group.value != g {
        var h := t.group.value;
        assert GroupsApart(p.groups[if g < h then g else h], p.groups[if g < h then h else g]);
      } else if s.signal != t.signal {
        assert GroupIsLaidOut(p.groups[g].group);
        var signals := p.groups[g].group.signals;
        assert SignalsApart(signals[if s.signal < t.signal then s.signal else t.signal],
                            signals[if s.signal < t.signal then t.signal else s.signal]);
      }
    }
  }

  /** `p` is placed by PDU `s.pdu` of the frame, and the spot is a signal in it. */
  ghost predicate IsSpot(pdus: seq<Pdu>, f: Frame, s: Spot, p: Pdu) {
    && s.pdu < |f.packed| && f.packed[s.pdu].position.Some? && GoesByName(pdus, f.packed[s.pdu].pduRef, p)
    && HoldsSpot(p, s)
  }

  /**
   In an accepted configuration all signals of a frame, wherever they are nested, lie in its payload, and no two
   of them meet.
   */
  lemma SignalsShareNoBit(c: ChannelConfig, bus: Bus, f: Frame, s: Spot, p: Pdu, t: Spot, q: Pdu)
    requires ConfigIsValid(c) && (bus in c.canBuses || bus in c.linBuses) && f in bus.frames
    requires IsSpot(c.pdus, f, s, p) && IsSpot(c.pdus, f, t, q)
    ensures EndIn(p, s, f.packed[s.pdu].position.value) <= 8 * f.length
    ensures s != t ==>
              || EndIn(p, s, f.packed[s.pdu].position.value) <= StartIn(q, t, f.packed[t.pdu].position.value)
              || EndIn(q, t, f.packed[t.pdu].position.value) <= StartIn(p, s, f.packed[s.pdu].position.value)
  {
    ConfigValidMeaning(c);
    assert FrameIsLaidOut(c.pdus, f);
    NamedIsDeclared(c.pdus, f.packed[s.pdu].pduRef, p);
    NamedIsDeclared(c.pdus, f.packed[t.pdu].pduRef, q);
    hide IsLaidOut, ConfigIsValid;
    assert PduFits(f.packed[s.pdu], p, 8 * f.length);
    SpotsInPdu(p, s, s, f.packed[s.pdu].position.value);
    SpotsInPdu(q, t, t, f.packed[t.pdu].position.value);
    if s.pdu == t.pdu {
      OneByName(c.pdus, f.packed[s.pdu].pduRef, p, q);
      SpotsInPdu(p, s, t, f.packed[s.pdu].position.value);
    } else if s.pdu < t.pdu {
      assert PlacesApart(c.pdus, f.packed[s.pdu], f.packed[t.pdu]);
      assert PdusApart(f.packed[s.pdu], p, f.packed[t.pdu], q);
    } else {
      assert PlacesApart(c.pdus, f.packed[t.pdu], f.packed[s.pdu]);
      assert PdusApart(f.packed[t.pdu], q, f.packed[s.pdu], p);
    }
  }

  lemma NamedIsDeclared(pdus: seq<Pdu>, name: string, p: Pdu)
    requires GoesByName(pdus, name, p)
    ensures p in pdus
  {
  }

  lemma OneByName(pdus: seq<Pdu>, name: string, p: Pdu, q: Pdu)
    requires GoesByName(pdus, name, p) && GoesByName(pdus, name, q)
    ensures p == q
  {
  }
}
