/**
 Bit ranges and the layered placement of signals: in signal groups, in PDUs, in frames.
 Each layer checks only its own items; the theorem about leaf signals is in `FrameLayout`.
 */
module BitLayout {
  import opened Wrappers

  // ------------------------------------------------------------------ ranges and their checks

  /** The half-open bit range `[start, end)`. */
  datatype Range = Range(name: string, start: int, end: int)

  predicate Overlap(a: Range, b: Range) {
    a.start < b.end && b.start < a.end
  }

  predicate Disjoint(ranges: seq<Range>) {
    forall i, j :: 0 <= i < j < |ranges| ==> !Overlap(ranges[i], ranges[j])
  }

  predicate Within(ranges: seq<Range>, bits: int) {
    forall i :: 0 <= i < |ranges| ==> ranges[i].end <= bits
  }

  /** The ranges of the placed items, in order. */
  function Collected<T>(items: seq<T>, getRange: T -> Option<Range>): seq<Range> {
    if items == [] then []
    else
      var r := getRange(items[|items| - 1]);
      Collected(items[..|items| - 1], getRange) + if r.Some? then [r.value] else []
  }

  method CollectBitRanges<T>(items: seq<T>, getRange: T -> Option<Range>) returns (ranges: seq<Range>)
    ensures ranges == Collected(items, getRange)
  {
    ranges := [];
    for i := 0 to |items|
      invariant ranges == Collected(items[..i], getRange)
    {
      assert items[..i + 1][..i] == items[..i];
      var r := getRange(items[i]);
      if r.Some? {
        ranges := ranges + [r.value];
      }
    }
    assert items[..|items|] == items;
  }

  method CheckBitRangesWithin(ranges: seq<Range>, maxBits: int) returns (ok: bool)
    ensures ok <==> Within(ranges, maxBits)
  {
    for i := 0 to |ranges|
      invariant forall k :: 0 <= k < i ==> ranges[k].end <= maxBits
    {
      if ranges[i].end > maxBits {
        return false;
      }
    }
    return true;
  }

  method CheckBitRangesNoOverlap(ranges: seq<Range>) returns (ok: bool)
    ensures ok <==> Disjoint(ranges)
  {
    for i := 0 to |ranges|
      invariant forall k, j :: 0 <= k < i && k < j < |ranges| ==> !Overlap(ranges[k], ranges[j])
    {
      for j := i + 1 to |ranges|
        invariant forall m :: i < m < j ==> !Overlap(ranges[i], ranges[m])
      {
        if ranges[i].start < ranges[j].end && ranges[j].start < ranges[i].end {
          return false;
        }
      }
    }
    return true;
  }

  // ------------------------------------------------------------------ signals, groups, PDUs

  type positive = n: nat | n > 0 witness 1

  datatype Signal = Signal(name: string, bitLength: positive)
  datatype SignalInstance = SignalInstance(signal: Signal, position: Option<nat>)
  datatype SignalGroup = SignalGroup(name: string, signals: seq<SignalInstance>)
  datatype SignalGroupInstance = SignalGroupInstance(group: SignalGroup, position: Option<nat>)

  /** Lengths are in bytes. A multiplexed PDU takes part in frame placement by its length only. */
  datatype Pdu =
    | StandardPdu(name: string, length: positive, signals: seq<SignalInstance>, groups: seq<SignalGroupInstance>)
    | MultiplexedPdu(name: string, length: positive)

  function SignalInstanceRange(si: SignalInstance): Option<Range> {
    if si.position.None? then None
    else Some(Range(si.signal.name, si.position.value, si.position.value + si.signal.bitLength))
  }

  function MaxEnd(signals: seq<SignalInstance>): nat {
    if signals == [] then 0
    else
      var rest, r := MaxEnd(signals[..|signals| - 1]), SignalInstanceRange(signals[|signals| - 1]);
      if r.Some? && r.value.end > rest then r.value.end else rest
  }

  /** The largest end bit of a group's placed signals, 0 when none is placed. */
  method SignalGroupFootprint(sg: SignalGroup) returns (maxEnd: nat)
    ensures maxEnd == MaxEnd(sg.signals)
  {
    maxEnd := 0;
    for i := 0 to |sg.signals|
      invariant maxEnd == MaxEnd(sg.signals[..i])
    {
      assert sg.signals[..i + 1][..i] == sg.signals[..i];
      var r := SignalInstanceRange(sg.signals[i]);
      if r.Some? && r.value.end > maxEnd {
        maxEnd := r.value.end;
      }
    }
    assert sg.signals[..|sg.signals|] == sg.signals;
  }

  /** No placed signal of a group ends beyond the footprint. */
  lemma {:induction false} FootprintCovers(signals: seq<SignalInstance>, i: nat)
    requires i < |signals| && signals[i].position.Some?
    ensures signals[i].position.value + signals[i].signal.bitLength <= MaxEnd(signals)
  {
    if i < |signals| - 1 {
      FootprintCovers(signals[..|signals| - 1], i);
    }
  }

  function SignalGroupInstanceRange(gi: SignalGroupInstance): Option<Range> {
    if gi.position.None? then None
    else
      var footprint := MaxEnd(gi.group.signals);
      if footprint <= 0 then None
      else Some(Range(gi.group.name, gi.position.value, gi.position.value + footprint))
  }

  function PlacedRanges(signals: seq<SignalInstance>, groups: seq<SignalGroupInstance>): seq<Range> {
    Collected(signals, SignalInstanceRange) + Collected(groups, SignalGroupInstanceRange)
  }

  predicate GroupIsValid(sg: SignalGroup) {
    Disjoint(Collected(sg.signals, SignalInstanceRange))
  }

  /** What pydantic has established of a PDU: its groups and then the PDU itself were validated. */
  predicate PduIsValid(p: Pdu) {
    p.StandardPdu? ==>
      && (forall i :: 0 <= i < |p.groups| ==> GroupIsValid(p.groups[i].group))
      && Within(PlacedRanges(p.signals, p.groups), p.length * 8)
      && Disjoint(PlacedRanges(p.signals, p.groups))
  }

  method ValidateSignalsNoOverlap(sg: SignalGroup) returns (ok: bool)
    ensures ok <==> GroupIsValid(sg)
  {
    var ranges := CollectBitRanges(sg.signals, SignalInstanceRange);
    ok := CheckBitRangesNoOverlap(ranges);
  }

  method ValidateSignalsFitInPdu(p: Pdu) returns (ok: bool)
    requires p.StandardPdu?
    ensures ok
            <==> Within(PlacedRanges(p.signals, p.groups), p.length * 8) && Disjoint(PlacedRanges(p.signals, p.groups))
  {
    var signals := CollectBitRanges(p.signals, SignalInstanceRange);
    var groups := CollectBitRanges(p.groups, SignalGroupInstanceRange);
    ok := CheckBitRangesWithin(signals + groups, p.length * 8);
    if ok {
      ok := CheckBitRangesNoOverlap(signals + groups);
    }
  }

  method ValidatePdu(p: Pdu) returns (ok: bool)
    ensures ok <==> PduIsValid(p)
  {
    if p.MultiplexedPdu? {
      return true;
    }
    for i := 0 to |p.groups|
      invariant forall k :: 0 <= k < i ==> GroupIsValid(p.groups[k].group)
    {
      var valid := ValidateSignalsNoOverlap(p.groups[i].group);
      if !valid {
        return false;
      }
    }
    ok := ValidateSignalsFitInPdu(p);
  }

  // ------------------------------------------------------------------ frames and channels

  datatype PduInstance = PduInstance(pduRef: string, position: Option<nat>)
  datatype Frame = Frame(name: string, length: nat, packed: seq<PduInstance>)
  datatype Bus = Bus(name: string, frames: seq<Frame>)
  datatype ChannelConfig = ChannelConfig(pdus: seq<Pdu>, canBuses: seq<Bus>, linBuses: seq<Bus>)

  type Registry = map<string, Pdu>

  /** `{p.name: p for p in pdus}`. */
  function RegistryOf(pdus: seq<Pdu>): Registry {
    if pdus == [] then map[] else RegistryOf(pdus[..|pdus| - 1])[pdus[|pdus| - 1].name := pdus[|pdus| - 1]]
  }

  lemma {:induction false} RegistryHoldsPdus(pdus: seq<Pdu>, name: string)
    requires name in RegistryOf(pdus)
    ensures RegistryOf(pdus)[name] in pdus && RegistryOf(pdus)[name].name == name
  {
    if pdus[|pdus| - 1].name != name {
      RegistryHoldsPdus(pdus[..|pdus| - 1], name);
    }
    assert pdus == pdus[..|pdus| - 1] + [pdus[|pdus| - 1]];
  }

  function PduInstanceRange(registry: Registry, pi: PduInstance): Option<Range> {
    if pi.position.None? || pi.pduRef !in registry then None
    else Some(Range(pi.pduRef, pi.position.value, pi.position.value + registry[pi.pduRef].length * 8))
  }

  function PackedRanges(registry: Registry, packed: seq<PduInstance>): seq<Range> {
    if packed == [] then []
    else
      var r := PduInstanceRange(registry, packed[|packed| - 1]);
      PackedRanges(registry, packed[..|packed| - 1]) + if r.Some? then [r.value] else []
  }

  predicate FrameIsValid(registry: Registry, f: Frame) {
    var ranges := PackedRanges(registry, f.packed);
    Within(ranges, f.length * 8) && Disjoint(ranges)
  }

  /** The placement check of one frame: collect the placed, known PDUs and check their ranges. */
  method ValidateFrame(registry: Registry, f: Frame) returns (ok: bool)
    ensures ok <==> FrameIsValid(registry, f)
  {
    var ranges: seq<Range> := [];
    for i := 0 to |f.packed|
      invariant ranges == PackedRanges(registry, f.packed[..i])
    {
      assert f.packed[..i + 1][..i] == f.packed[..i];
      var pi := f.packed[i];
      if pi.position.None? {
        continue;
      }
      if pi.pduRef !in registry {
        continue;
      }
      ranges := ranges + [Range(pi.pduRef, pi.position.value, pi.position.value + registry[pi.pduRef].length * 8)];
    }
    assert f.packed[..|f.packed|] == f.packed;
    ok := CheckBitRangesWithin(ranges, f.length * 8);
    if ok {
      ok := CheckBitRangesNoOverlap(ranges);
    }
  }

  predicate RefsAreKnown(registry: Registry, f: Frame) {
    forall i :: 0 <= i < |f.packed| ==> f.packed[i].pduRef in registry
  }

  /** The `pdu_ref` names of the frames that the registry does not have. */
  method CollectUnknownPduRefs(frames: seq<Frame>, registry: Registry) returns (unknown: set<string>)
    ensures forall name :: name in unknown <==>
              name !in registry
                && exists i, k :: 0 <= i < |frames| && 0 <= k < |frames[i].packed| && frames[i].packed[k].pduRef == name
  {
    unknown := {};
    for i := 0 to |frames|
      invariant forall name :: name in unknown <==>
                  name !in registry
                    && exists m, k :: 0 <= m < i && 0 <= k < |frames[m].packed| && frames[m].packed[k].pduRef == name
    {
      ghost var before := unknown;
      for k := 0 to |frames[i].packed|
        invariant forall name :: name in unknown <==>
                    name in before
                      || (name !in registry && exists n :: 0 <= n < k && frames[i].packed[n].pduRef == name)
      {
        if frames[i].packed[k].pduRef !in registry {
          unknown := unknown + {frames[i].packed[k].pduRef};
        }
      }
    }
  }

  predicate BusIsValid(registry: Registry, bus: Bus) {
    forall i :: 0 <= i < |bus.frames| ==> RefsAreKnown(registry, bus.frames[i]) && FrameIsValid(registry, bus.frames[i])
  }

  method ValidateBus(registry: Registry, bus: Bus) returns (ok: bool)
    ensures ok <==> BusIsValid(registry, bus)
  {
    var unknown := CollectUnknownPduRefs(bus.frames, registry);
    if unknown != {} {
      ghost var name :| name in unknown;
      return false;
    }
    for i := 0 to |bus.frames|
      invariant forall k :: 0 <= k < i ==> FrameIsValid(registry, bus.frames[k])
    {
      var valid := ValidateFrame(registry, bus.frames[i]);
      if !valid {
        return false;
      }
    }
    assert forall i, k :: 0 <= i < |bus.frames| && 0 <= k < |bus.frames[i].packed| ==>
      bus.frames[i].packed[k].pduRef in registry || bus.frames[i].packed[k].pduRef in unknown;
    return true;
  }

  /** What an accepted channel configuration satisfies. */
  predicate ConfigIsValid(c: ChannelConfig) {
    && (forall i :: 0 <= i < |c.pdus| ==> PduIsValid(c.pdus[i]))
    && (forall i :: 0 <= i < |c.canBuses| ==> BusIsValid(RegistryOf(c.pdus), c.canBuses[i]))
    && (forall i :: 0 <= i < |c.linBuses| ==> BusIsValid(RegistryOf(c.pdus), c.linBuses[i]))
  }

  /** PDUs are validated when they are built, then the references and placements of all buses. */
  method ValidateConfig(c: ChannelConfig) returns (ok: bool)
    ensures ok <==> ConfigIsValid(c)
  {
    var registry: Registry := map[];
    for i := 0 to |c.pdus|
      invariant registry == RegistryOf(c.pdus[..i])
      invariant forall k :: 0 <= k < i ==> PduIsValid(c.pdus[k])
    {
      assert c.pdus[..i + 1][..i] == c.pdus[..i];
      var valid := ValidatePdu(c.pdus[i]);
      if !valid {
        return false;
      }
      registry := registry[c.pdus[i].name := c.pdus[i]];
    }
    assert c.pdus[..|c.pdus|] == c.pdus;
    for i := 0 to |c.canBuses|
      invariant forall k :: 0 <= k < i ==> BusIsValid(registry, c.canBuses[k])
    {
      var valid := ValidateBus(registry, c.canBuses[i]);
      if !valid {
        return false;
      }
    }
    for i := 0 to |c.linBuses|
      invariant forall k :: 0 <= k < i ==> BusIsValid(registry, c.linBuses[k])
    {
      var valid := ValidateBus(registry, c.linBuses[i]);
      if !valid {
        return false;
      }
    }
    return true;
  }
}
