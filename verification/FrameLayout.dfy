/**
 The global consequence of the layered placement checks of `BitLayout`: in an accepted channel
 configuration the leaf signals of every frame share no bit, and they all lie in the frame's payload.
 No validator looks at a frame and its signals together.
 */
module FrameLayout {
  import opened BitLayout
  import opened Wrappers
  import Graphs

  // ------------------------------------------------------------------ leaf signals, in absolute bits

  function SignalLeaves(signals: seq<SignalInstance>, offset: int): seq<Range> {
    if signals == [] then []
    else
      var r := SignalInstanceRange(signals[|signals| - 1]);
      SignalLeaves(signals[..|signals| - 1], offset)
      + if r.Some? then [Range(r.value.name, offset + r.value.start, offset + r.value.end)] else []
  }

  function GroupLeaves(gi: SignalGroupInstance, offset: int): seq<Range> {
    if gi.position.None? then [] else SignalLeaves(gi.group.signals, offset + gi.position.value)
  }

  function GroupsLeaves(groups: seq<SignalGroupInstance>, offset: int): seq<Range> {
    if groups == [] then []
    else GroupsLeaves(groups[..|groups| - 1], offset) + GroupLeaves(groups[|groups| - 1], offset)
  }

  /** Every placed signal of a standard PDU that starts at bit `offset`, direct or inside a placed group. */
  function PduLeaves(p: Pdu, offset: int): seq<Range> {
    if p.StandardPdu? then SignalLeaves(p.signals, offset) + GroupsLeaves(p.groups, offset) else []
  }

  /** Every placed leaf signal of the placed standard PDUs of a frame. */
  function FrameLeaves(registry: Registry, packed: seq<PduInstance>): seq<Range> {
    if packed == [] then []
    else
      var pi := packed[|packed| - 1];
      FrameLeaves(registry, packed[..|packed| - 1])
      + if pi.position.Some? && pi.pduRef in registry then PduLeaves(registry[pi.pduRef], pi.position.value) else []
  }

  /** The absolute range of a placed signal whose container starts at bit `offset`. */
  function LeafOf(si: SignalInstance, offset: int): Range
    requires si.position.Some?
  {
    Range(si.signal.name, offset + si.position.value, offset + si.position.value + si.signal.bitLength)
  }

  lemma {:induction false} SignalIsALeaf(signals: seq<SignalInstance>, i: nat, offset: int)
    requires i < |signals| && signals[i].position.Some?
    ensures LeafOf(signals[i], offset) in SignalLeaves(signals, offset)
  {
    if i < |signals| - 1 {
      SignalIsALeaf(signals[..|signals| - 1], i, offset);
    }
  }

  lemma {:induction false} GroupIsListed(groups: seq<SignalGroupInstance>, i: nat, offset: int, leaf: Range)
    requires i < |groups| && leaf in GroupLeaves(groups[i], offset)
    ensures leaf in GroupsLeaves(groups, offset)
  {
    if i < |groups| - 1 {
      GroupIsListed(groups[..|groups| - 1], i, offset, leaf);
    }
  }

  lemma {:induction false} PduIsListed(registry: Registry, packed: seq<PduInstance>, i: nat, leaf: Range)
    requires i < |packed| && packed[i].position.Some? && packed[i].pduRef in registry
    requires leaf in PduLeaves(registry[packed[i].pduRef], packed[i].position.value)
    ensures leaf in FrameLeaves(registry, packed)
  {
    if i < |packed| - 1 {
      PduIsListed(registry, packed[..|packed| - 1], i, leaf);
    }
  }

  /** `pi` places the standard PDU `p` in its frame. */
  predicate Places(registry: Registry, pi: PduInstance, p: Pdu) {
    pi.position.Some? && pi.pduRef in registry && registry[pi.pduRef] == p && p.StandardPdu?
  }

  lemma GroupedSignalInPdu(p: Pdu, g: nat, gi: SignalGroupInstance, k: nat, offset: int)
    requires p.StandardPdu? && g < |p.groups| && p.groups[g] == gi && gi.position.Some?
    requires k < |gi.group.signals| && gi.group.signals[k].position.Some?
    ensures LeafOf(gi.group.signals[k], offset + gi.position.value) in PduLeaves(p, offset)
  {
    SignalIsALeaf(gi.group.signals, k, offset + gi.position.value);
    assert GroupLeaves(gi, offset) == SignalLeaves(gi.group.signals, offset + gi.position.value);
    GroupIsListed(p.groups, g, offset, LeafOf(gi.group.signals[k], offset + gi.position.value));
  }

  /** The leaves of a frame miss no placed signal: not one inside a group, at the sum of its offsets ... */
  lemma GroupedSignalIsALeaf(registry: Registry, packed: seq<PduInstance>, i: nat, p: Pdu, g: nat,
                             gi: SignalGroupInstance, k: nat)
    requires i < |packed| && Places(registry, packed[i], p)
    requires g < |p.groups| && p.groups[g] == gi && gi.position.Some?
    requires k < |gi.group.signals| && gi.group.signals[k].position.Some?
    ensures LeafOf(gi.group.signals[k], packed[i].position.value + gi.position.value) in FrameLeaves(registry, packed)
  {
    GroupedSignalInPdu(p, g, gi, k, packed[i].position.value);
    PduIsListed(registry, packed, i, LeafOf(gi.group.signals[k], packed[i].position.value + gi.position.value));
  }

  /** ... and not one directly in a PDU. */
  lemma DirectSignalIsALeaf(registry: Registry, packed: seq<PduInstance>, i: nat, p: Pdu, k: nat)
    requires i < |packed| && Places(registry, packed[i], p)
    requires k < |p.signals| && p.signals[k].position.Some?
    ensures LeafOf(p.signals[k], packed[i].position.value) in FrameLeaves(registry, packed)
  {
    SignalIsALeaf(p.signals, k, packed[i].position.value);
    PduIsListed(registry, packed, i, LeafOf(p.signals[k], packed[i].position.value));
  }

  // ------------------------------------------------------------------ nesting

  predicate Contains(outer: Range, inner: Range) {
    outer.start <= inner.start && inner.end <= outer.end
  }

  predicate Covered(outers: seq<Range>, leaf: Range) {
    exists outer :: outer in outers && Contains(outer, leaf)
  }

  /** Every leaf lies inside some outer range. */
  predicate Nested(outers: seq<Range>, leaves: seq<Range>) {
    forall leaf :: leaf in leaves ==> Covered(outers, leaf)
  }

  function Shifted(ranges: seq<Range>, offset: int): (r: seq<Range>)
    ensures |r| == |ranges|
    ensures forall i :: 0 <= i < |r| ==> r[i] == Range(ranges[i].name, ranges[i].start + offset, ranges[i].end + offset)
  {
    seq(|ranges|, i requires 0 <=
        i < |ranges| => Range(ranges[i].name, ranges[i].start + offset, ranges[i].end + offset))
  }

  /** Leaves under disjoint parts of the outer ranges stay disjoint when they are put together. */
  lemma NestedConcat(a: seq<Range>, leavesA: seq<Range>, b: seq<Range>, leavesB: seq<Range>)
    requires Disjoint(a + b) && Nested(a, leavesA) && Nested(b, leavesB)
    requires Disjoint(leavesA) && Disjoint(leavesB)
    ensures Nested(a + b, leavesA + leavesB) && Disjoint(leavesA + leavesB)
  {
    forall leaf | leaf in leavesA + leavesB ensures Covered(a + b, leaf) {
      if leaf in leavesA {
        var outer :| outer in a && Contains(outer, leaf);
        assert outer in a + b;
      } else {
        var outer :| outer in b && Contains(outer, leaf);
        assert outer in a + b;
      }
    }
    forall i, j | 0 <= i < |leavesA| && 0 <= j < |leavesB|
      ensures !Overlap(leavesA[i], leavesB[j])
    {
      assert leavesA[i] in leavesA && leavesB[j] in leavesB;
      var k :| 0 <= k < |a| && Contains(a[k], leavesA[i]);
      var m :| 0 <= m < |b| && Contains(b[m], leavesB[j]);
      assert !Overlap((a + b)[k], (a + b)[|a| + m]);
    }
  }

  lemma DisjointPrefix(ranges: seq<Range>, n: nat)
    requires Disjoint(ranges) && n <= |ranges|
    ensures Disjoint(ranges[..n])
  {
  }

  lemma DisjointParts(a: seq<Range>, b: seq<Range>)
    requires Disjoint(a + b)
    ensures Disjoint(a) && Disjoint(b)
  {
    assert forall i :: 0 <= i < |a| ==> a[i] == (a + b)[i];
    assert forall i :: 0 <= i < |b| ==> b[i] == (a + b)[|a| + i];
  }

  // ------------------------------------------------------------------ the layers, inside out

  lemma {:induction false} SignalLeavesAreShifted(signals: seq<SignalInstance>, offset: int)
    ensures SignalLeaves(signals, offset) == Shifted(Collected(signals, SignalInstanceRange), offset)
  {
    if signals != [] {
      SignalLeavesAreShifted(signals[..|signals| - 1], offset);
    }
  }

  /** Every collected range of a group's signals lies inside `[0, footprint)`. */
  lemma {:induction false} GroupRangesInFootprint(signals: seq<SignalInstance>)
    ensures forall r :: r in Collected(signals, SignalInstanceRange) ==> 0 <= r.start < r.end <= MaxEnd(signals)
  {
    if signals != [] {
      GroupRangesInFootprint(signals[..|signals| - 1]);
    }
  }

  lemma {:induction false} NothingPlaced(signals: seq<SignalInstance>, offset: int)
    requires MaxEnd(signals) == 0
    ensures SignalLeaves(signals, offset) == []
  {
    if signals != [] {
      NothingPlaced(signals[..|signals| - 1], offset);
    }
  }

  lemma CoveredByOne(outer: Range, leaves: seq<Range>)
    requires forall i :: 0 <= i < |leaves| ==> Contains(outer, leaves[i])
    ensures Nested([outer], leaves)
  {
    assert outer in [outer];
  }

  lemma GroupLeavesInFootprint(gi: SignalGroupInstance, offset: int)
    requires GroupIsValid(gi.group) && gi.position.Some?
    ensures Disjoint(GroupLeaves(gi, offset))
    ensures forall i :: 0 <= i < |GroupLeaves(gi, offset)| ==>
              Contains(Range(gi.group.name, offset + gi.position.value,
                  offset + gi.position.value + MaxEnd(gi.group.signals)),
                       GroupLeaves(gi, offset)[i])
  {
    var ranges := Collected(gi.group.signals, SignalInstanceRange);
    SignalLeavesAreShifted(gi.group.signals, offset + gi.position.value);
    GroupRangesInFootprint(gi.group.signals);
    ShiftKeepsDisjoint(ranges, offset + gi.position.value);
    assert forall i :: 0 <= i < |ranges| ==> ranges[i] in ranges;
  }

  /** The leaves of a valid group are disjoint and lie inside the range its PDU checks for it. */
  lemma GroupLeavesNested(gi: SignalGroupInstance, offset: int)
    requires GroupIsValid(gi.group)
    ensures Disjoint(GroupLeaves(gi, offset))
    ensures var r := SignalGroupInstanceRange(gi);
            if r.None? then GroupLeaves(gi, offset) == []
            else Nested([Range(r.value.name, r.value.start + offset, r.value.end + offset)], GroupLeaves(gi, offset))
  {
    if gi.position.Some? {
      GroupLeavesInFootprint(gi, offset);
      if MaxEnd(gi.group.signals) == 0 {
        NothingPlaced(gi.group.signals, offset + gi.position.value);
      } else {
        var r := SignalGroupInstanceRange(gi);
        CoveredByOne(Range(r.value.name, r.value.start + offset, r.value.end + offset), GroupLeaves(gi, offset));
      }
    }
  }

  lemma {:induction false} GroupsLeavesNested(groups: seq<SignalGroupInstance>, offset: int)
    requires forall i :: 0 <= i < |groups| ==> GroupIsValid(groups[i].group)
    requires Disjoint(Collected(groups, SignalGroupInstanceRange))
    ensures Disjoint(GroupsLeaves(groups, offset))
    ensures Nested(Shifted(Collected(groups, SignalGroupInstanceRange), offset), GroupsLeaves(groups, offset))
  {
    if groups != [] {
      var init, gi := groups[..|groups| - 1], groups[|groups| - 1];
      var outers := Collected(init, SignalGroupInstanceRange);
      var all := Collected(groups, SignalGroupInstanceRange);
      assert all[..|outers|] == outers;
      DisjointPrefix(all, |outers|);
      GroupsLeavesNested(init, offset);
      GroupLeavesNested(gi, offset);
      var r := SignalGroupInstanceRange(gi);
      if r.None? {
        assert GroupsLeaves(groups, offset) == GroupsLeaves(init, offset);
      } else {
        var outer := Range(r.value.name, r.value.start + offset, r.value.end + offset);
        assert Shifted(all, offset) == Shifted(outers, offset) + [outer];
        ShiftKeepsDisjoint(all, offset);
        NestedConcat(Shifted(outers, offset), GroupsLeaves(init, offset), [outer], GroupLeaves(gi, offset));
      }
    }
  }

  lemma ShiftKeepsDisjoint(ranges: seq<Range>, offset: int)
    requires Disjoint(ranges)
    ensures Disjoint(Shifted(ranges, offset))
  {
    var s := Shifted(ranges, offset);
    forall i, j | 0 <= i < j < |s| ensures !Overlap(s[i], s[j]) {
      assert !Overlap(ranges[i], ranges[j]);
    }
  }

  lemma {:induction false} CollectedStartsAtZero(signals: seq<SignalInstance>, groups: seq<SignalGroupInstance>)
    ensures forall r :: r in PlacedRanges(signals, groups) ==> 0 <= r.start < r.end
    decreases |signals| + |groups|
  {
    if signals != [] {
      CollectedStartsAtZero(signals[..|signals| - 1], groups);
    } else if groups != [] {
      CollectedStartsAtZero(signals, groups[..|groups| - 1]);
    }
  }

  /** The leaves of a valid PDU are nested in the ranges it checks, moved to the PDU's offset. */
  lemma PduLeavesInPlaced(p: Pdu, offset: int)
    requires p.StandardPdu? && PduIsValid(p)
    ensures Disjoint(PduLeaves(p, offset))
    ensures Nested(Shifted(PlacedRanges(p.signals, p.groups), offset), PduLeaves(p, offset))
  {
    var direct, grouped := Collected(p.signals, SignalInstanceRange), Collected(p.groups, SignalGroupInstanceRange);
    SignalLeavesAreShifted(p.signals, offset);
    DisjointParts(direct, grouped);
    ShiftKeepsDisjoint(direct, offset);
    GroupsLeavesNested(p.groups, offset);
    ShiftKeepsDisjoint(direct + grouped, offset);
    assert Shifted(direct + grouped, offset) == Shifted(direct, offset) + Shifted(grouped, offset);
    assert Nested(Shifted(direct, offset), SignalLeaves(p.signals, offset));
    NestedConcat(Shifted(direct, offset), SignalLeaves(p.signals, offset), Shifted(grouped, offset),
        GroupsLeaves(p.groups, offset));
  }

  /** The leaves of a valid PDU placed at `offset` are disjoint and lie inside the PDU's own range. */
  lemma PduLeavesNested(name: string, p: Pdu, offset: int)
    requires PduIsValid(p)
    ensures Disjoint(PduLeaves(p, offset))
    ensures Nested([Range(name, offset, offset + p.length * 8)], PduLeaves(p, offset))
  {
    if p.StandardPdu? {
      var placed := PlacedRanges(p.signals, p.groups);
      PduLeavesInPlaced(p, offset);
      CollectedStartsAtZero(p.signals, p.groups);
      InnerBecomesOuter(Shifted(placed, offset), PduLeaves(p, offset), Range(name, offset, offset + p.length * 8));
    }
  }

  lemma InnerBecomesOuter(outers: seq<Range>, leaves: seq<Range>, whole: Range)
    requires Nested(outers, leaves)
    requires forall outer :: outer in outers ==> Contains(whole, outer)
    ensures Nested([whole], leaves)
  {
    forall leaf | leaf in leaves ensures Covered([whole], leaf) {
      var outer :| outer in outers && Contains(outer, leaf);
      assert whole in [whole];
    }
  }

  /** A registry whose PDUs were all validated. */
  predicate RegistryIsValid(registry: Registry) {
    forall name :: name in registry ==> PduIsValid(registry[name])
  }

  lemma {:induction false} FrameLeavesNested(registry: Registry, packed: seq<PduInstance>)
    requires RegistryIsValid(registry)
    requires Disjoint(PackedRanges(registry, packed))
    ensures Disjoint(FrameLeaves(registry, packed))
    ensures Nested(PackedRanges(registry, packed), FrameLeaves(registry, packed))
  {
    if packed != [] {
      var init, pi := packed[..|packed| - 1], packed[|packed| - 1];
      var outers := PackedRanges(registry, init);
      assert PackedRanges(registry, packed)[..|outers|] == outers;
      DisjointPrefix(PackedRanges(registry, packed), |outers|);
      FrameLeavesNested(registry, init);
      if pi.position.Some? && pi.pduRef in registry {
        var p := registry[pi.pduRef];
        var outer := Range(pi.pduRef, pi.position.value, pi.position.value + p.length * 8);
        PduLeavesNested(pi.pduRef, p, pi.position.value);
        NestedConcat(outers, FrameLeaves(registry, init), [outer], PduLeaves(p, pi.position.value));
      }
    }
  }

  // ------------------------------------------------------------------ counting bits

  predicate Occupies(r: Range, b: int) {
    r.start <= b < r.end
  }

  function Bits(r: Range): set<int> {
    set b: int | r.start <= b < r.end && Occupies(r, b)
  }

  function AllBits(ranges: seq<Range>): set<int> {
    if ranges == [] then {} else AllBits(ranges[..|ranges| - 1]) + Bits(ranges[|ranges| - 1])
  }

  function TotalLength(ranges: seq<Range>): int {
    if ranges == [] then 0
    else TotalLength(ranges[..|ranges| - 1]) + ranges[|ranges| - 1].end - ranges[|ranges| - 1].start
  }

  lemma {:induction false} BitsCount(name: string, start: int, end: int)
    requires start <= end
    ensures |Bits(Range(name, start, end))| == end - start
    decreases end - start
  {
    if start < end {
      BitsCount(name, start, end - 1);
      assert Bits(Range(name, start, end)) == Bits(Range(name, start, end - 1)) + {end - 1};
    }
  }

  lemma {:induction false} BitBelongsToARange(ranges: seq<Range>, b: int)
    requires b in AllBits(ranges)
    ensures exists i :: 0 <= i < |ranges| && b in Bits(ranges[i])
  {
    var n := |ranges| - 1;
    if b in Bits(ranges[n]) {
    } else {
      BitBelongsToARange(ranges[..n], b);
      var i :| 0 <= i < n && b in Bits(ranges[..n][i]);
      assert b in Bits(ranges[i]);
    }
  }

  /** Disjoint non-empty ranges occupy exactly as many bits as their lengths add up to. */
  lemma {:induction false} DisjointRangesAddUp(ranges: seq<Range>)
    requires Disjoint(ranges)
    requires forall i :: 0 <= i < |ranges| ==> ranges[i].start <= ranges[i].end
    ensures |AllBits(ranges)| == TotalLength(ranges)
  {
    if ranges != [] {
      var n := |ranges| - 1;
      DisjointRangesAddUp(ranges[..n]);
      BitsCount(ranges[n].name, ranges[n].start, ranges[n].end);
      forall b | b in AllBits(ranges[..n]) ensures b !in Bits(ranges[n]) {
        BitBelongsToARange(ranges[..n], b);
        var i :| 0 <= i < n && b in Bits(ranges[..n][i]);
        assert !Overlap(ranges[i], ranges[n]);
      }
      assert AllBits(ranges[..n]) !! Bits(ranges[n]);
    }
  }

  lemma TotalLengthIsBounded(ranges: seq<Range>, bits: nat)
    requires Disjoint(ranges)
    requires forall i :: 0 <= i < |ranges| ==> 0 <= ranges[i].start <= ranges[i].end <= bits
    ensures TotalLength(ranges) <= bits
  {
    DisjointRangesAddUp(ranges);
    var payload := Range("", 0, bits);
    forall b | b in AllBits(ranges) ensures b in Bits(payload) {
      BitBelongsToARange(ranges, b);
    }
    BitsCount("", 0, bits);
    Graphs.SubsetCardinality(AllBits(ranges), Bits(payload));
  }

  // ------------------------------------------------------------------ the theorem

  /** The leaf signals of a frame share no bit, lie in its payload, and so fit in it by their lengths. */
  predicate LeavesFit(registry: Registry, f: Frame) {
    var leaves := FrameLeaves(registry, f.packed);
    && Disjoint(leaves)
    && (forall i :: 0 <= i < |leaves| ==> 0 <= leaves[i].start < leaves[i].end <= 8 * f.length)
    && TotalLength(leaves) <= 8 * f.length
  }

  lemma {:induction false} SignalLeavesArePositive(signals: seq<SignalInstance>, offset: int)
    ensures forall r :: r in SignalLeaves(signals, offset) ==> r.start < r.end
  {
    if signals != [] {
      SignalLeavesArePositive(signals[..|signals| - 1], offset);
    }
  }

  lemma {:induction false} GroupsLeavesArePositive(groups: seq<SignalGroupInstance>, offset: int)
    ensures forall r :: r in GroupsLeaves(groups, offset) ==> r.start < r.end
  {
    if groups != [] {
      GroupsLeavesArePositive(groups[..|groups| - 1], offset);
      var gi := groups[|groups| - 1];
      if gi.position.Some? {
        SignalLeavesArePositive(gi.group.signals, offset + gi.position.value);
      }
    }
  }

  lemma {:induction false} FrameLeavesArePositive(registry: Registry, packed: seq<PduInstance>)
    ensures forall r :: r in FrameLeaves(registry, packed) ==> r.start < r.end
  {
    if packed != [] {
      FrameLeavesArePositive(registry, packed[..|packed| - 1]);
      var pi := packed[|packed| - 1];
      if pi.position.Some? && pi.pduRef in registry && registry[pi.pduRef].StandardPdu? {
        var p := registry[pi.pduRef];
        SignalLeavesArePositive(p.signals, pi.position.value);
        GroupsLeavesArePositive(p.groups, pi.position.value);
      }
    }
  }

  lemma {:induction false} PackedStartsAtZero(registry: Registry, packed: seq<PduInstance>)
    ensures forall r :: r in PackedRanges(registry, packed) ==> 0 <= r.start
  {
    if packed != [] {
      PackedStartsAtZero(registry, packed[..|packed| - 1]);
    }
  }

  lemma ValidFrameLeavesFit(registry: Registry, f: Frame)
    requires RegistryIsValid(registry) && FrameIsValid(registry, f)
    ensures LeavesFit(registry, f)
  {
    var leaves, outers := FrameLeaves(registry, f.packed), PackedRanges(registry, f.packed);
    FrameLeavesNested(registry, f.packed);
    FrameLeavesArePositive(registry, f.packed);
    PackedStartsAtZero(registry, f.packed);
    forall i | 0 <= i < |leaves| ensures 0 <= leaves[i].start < leaves[i].end <= 8 * f.length {
      assert leaves[i] in leaves;
      var outer :| outer in outers && Contains(outer, leaves[i]);
    }
    TotalLengthIsBounded(leaves, 8 * f.length);
  }

  lemma RegistryOfValidPdus(pdus: seq<Pdu>)
    requires forall i :: 0 <= i < |pdus| ==> PduIsValid(pdus[i])
    ensures RegistryIsValid(RegistryOf(pdus))
  {
    forall name | name in RegistryOf(pdus) ensures PduIsValid(RegistryOf(pdus)[name]) {
      RegistryHoldsPdus(pdus, name);
    }
  }

  /** In an accepted configuration every frame of every CAN and LIN bus has fitting leaves. */
  lemma AcceptedFramesFit(c: ChannelConfig, bus: Bus, f: Frame)
    requires ConfigIsValid(c)
    requires bus in c.canBuses || bus in c.linBuses
    requires f in bus.frames
    ensures LeavesFit(RegistryOf(c.pdus), f)
  {
    RegistryOfValidPdus(c.pdus);
    assert BusIsValid(RegistryOf(c.pdus), bus);
    ValidFrameLeavesFit(RegistryOf(c.pdus), f);
  }
}
