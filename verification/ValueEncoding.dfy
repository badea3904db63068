/**
 Bitmask flags and bitfield text tables: what their validators check of the masks, and that a raw value
 put together from any choice of flags or states decodes to exactly that choice.
 */
module ValueEncoding {
  import opened Bits
  import opened Graphs
  import opened Wrappers

  type positive = n: nat | n > 0 witness 1

  // ------------------------------------------------------------------ flags

  datatype Flag = Flag(mask: positive, text: string)

  function Masks(flags: seq<Flag>): (r: seq<nat>)
    ensures |r| == |flags|
    ensures forall i :: 0 <= i < |flags| ==> r[i] == flags[i].mask
  {
    seq(|flags|, i requires 0 <= i < |flags| => flags[i].mask)
  }

  function Labels(flags: seq<Flag>): (r: seq<string>)
    ensures |r| == |flags|
    ensures forall i :: 0 <= i < |flags| ==> r[i] == flags[i].text
  {
    seq(|flags|, i requires 0 <= i < |flags| => flags[i].text)
  }

  predicate FlagsAreValid(flags: seq<Flag>) {
    NoDuplicates(Labels(flags)) && DisjointMasks(Masks(flags))
  }

  lemma LabelsStep(labels: seq<string>, i: nat)
    requires i < |labels| && NoDuplicates(labels[..i])
    ensures NoDuplicates(labels[..i + 1]) <==> labels[i] !in labels[..i]
    ensures !NoDuplicates(labels[..i + 1]) ==> !NoDuplicates(labels)
    ensures Elements(labels[..i + 1]) == Elements(labels[..i]) + {labels[i]}
  {
    var prefix := labels[..i];
    assert labels[..i + 1] == prefix + [labels[i]];
    if labels[i] in prefix {
      var k :| 0 <= k < i && prefix[k] == labels[i];
      assert labels[k] == labels[..i + 1][k] == labels[..i + 1][i];
    }
  }

  lemma MasksStep(masks: seq<nat>, i: nat)
    requires i < |masks| && DisjointMasks(masks[..i])
    ensures DisjointMasks(masks[..i + 1]) <==> And(OrAll(masks[..i]), masks[i]) == 0
    ensures !DisjointMasks(masks[..i + 1]) ==> !DisjointMasks(masks)
    ensures OrAll(masks[..i + 1]) == Or(OrAll(masks[..i]), masks[i])
  {
    var prefix, longer := masks[..i], masks[..i + 1];
    assert longer[..i] == prefix;
    ClearOfAll(prefix, masks[i]);
    if DisjointMasks(longer) {
      forall k | 0 <= k < i ensures And(prefix[k], masks[i]) == 0 {
        assert And(longer[k], longer[i]) == 0;
      }
    } else {
      var k, m :| 0 <= k < m < i + 1 && And(longer[k], longer[m]) != 0;
      assert And(masks[k], masks[m]) != 0;
    }
    if And(OrAll(prefix), masks[i]) == 0 {
      forall k, m | 0 <= k < m < i + 1 ensures And(longer[k], longer[m]) == 0 {
        if m < i {
          assert And(prefix[k], prefix[m]) == 0;
        } else {
          assert And(prefix[k], masks[i]) == 0;
        }
      }
    }
  }

  /** The validator: labels seen so far, and all masks so far or-ed into one. */
  method ValidateFlags(flags: seq<Flag>) returns (error: Option<string>)
    ensures error.None? <==> FlagsAreValid(flags)
    ensures error == Some("133") ==> !NoDuplicates(Labels(flags))
    ensures error == Some("134") ==> !DisjointMasks(Masks(flags))
    ensures error.Some? ==> error.value in {"133", "134"}
  {
    var seen: set<string> := {};
    var accumulated: nat := 0;
    ghost var masks, labels := Masks(flags), Labels(flags);
    for i := 0 to |flags|
      invariant seen == Elements(labels[..i]) && NoDuplicates(labels[..i])
      invariant accumulated == OrAll(masks[..i]) && DisjointMasks(masks[..i])
    {
      LabelsStep(labels, i);
      if flags[i].text in seen {
        return Some("133");
      }
      seen := seen + {flags[i].text};
      MasksStep(masks, i);
      if And(accumulated, flags[i].mask) != 0 {
        return Some("134");
      }
      accumulated := Or(accumulated, flags[i].mask);
    }
    assert masks[..|flags|] == masks && labels[..|flags|] == labels;
    return None;
  }

  predicate MasksInRange(masks: seq<nat>, bitLength: positive) {
    forall i :: 0 <= i < |masks| ==> masks[i] < Pow2(bitLength)
  }

  /** The owning signal's check: no mask exceeds `(1 << bit_length) - 1`. */
  method CheckMasksInRange(masks: seq<nat>, bitLength: positive) returns (ok: bool)
    ensures ok <==> MasksInRange(masks, bitLength)
  {
    var maxMask := Pow2(bitLength) - 1;
    for i := 0 to |masks|
      invariant forall k :: 0 <= k < i ==> masks[k] < Pow2(bitLength)
    {
      if masks[i] > maxMask {
        return false;
      }
    }
    return true;
  }

  /** The documented rule: every bit of the mask is set. */
  predicate IsActive(raw: nat, f: Flag) {
    And(raw, f.mask) == f.mask
  }

  /** The raw value that sets exactly the chosen flags. */
  function RawOf(flags: seq<Flag>, chosen: set<string>): nat {
    OrAll(ChosenMasks(flags, chosen))
  }

  function ChosenMasks(flags: seq<Flag>, chosen: set<string>): (r: seq<nat>)
    ensures |r| == |flags|
    ensures forall i :: 0 <= i < |flags| ==> r[i] == if flags[i].text in chosen then flags[i].mask else 0
  {
    seq(|flags|, i requires 0 <= i < |flags| => if flags[i].text in chosen then flags[i].mask as nat else 0)
  }

  /** The set of labels of the active flags. */
  function Decode(flags: seq<Flag>, raw: nat): set<string> {
    set i | 0 <= i < |flags| && IsActive(raw, flags[i]) :: flags[i].text
  }

  /** Any set of flags has a raw value that fits the signal and decodes to exactly that set. */
  lemma FlagsRoundTrip(flags: seq<Flag>, bitLength: positive, chosen: set<string>)
    requires FlagsAreValid(flags) && MasksInRange(Masks(flags), bitLength)
    requires chosen <= Elements(Labels(flags))
    ensures RawOf(flags, chosen) < Pow2(bitLength)
    ensures Decode(flags, RawOf(flags, chosen)) == chosen
  {
    var raw, masks, values := RawOf(flags, chosen), Masks(flags), ChosenMasks(flags, chosen);
    forall i | 0 <= i < |flags|
      ensures values[i] < Pow2(bitLength)
      ensures IsActive(raw, flags[i]) <==> flags[i].text in chosen
    {
      forall k | 0 <= k < |masks| ensures Inside(values[k], masks[k]) {
        InsideItself(masks[k]);
      }
      MaskSelects(values, masks, i);
      assert masks[i] < Pow2(bitLength);
    }
    OrAllBelowPow2(values, bitLength);
    forall text | text in chosen ensures text in Decode(flags, raw) {
      var i :| 0 <= i < |Labels(flags)| && Labels(flags)[i] == text;
      assert IsActive(raw, flags[i]);
    }
  }

  /** Flags do not disturb each other: adding one changes no other flag's decoding. */
  lemma FlagsAreIndependent(flags: seq<Flag>, bitLength: positive, chosen: set<string>, text: string)
    requires FlagsAreValid(flags) && MasksInRange(Masks(flags), bitLength)
    requires chosen <= Elements(Labels(flags)) && text in Labels(flags)
    ensures Decode(flags, RawOf(flags, chosen + {text})) == Decode(flags, RawOf(flags, chosen)) + {text}
  {
    FlagsRoundTrip(flags, bitLength, chosen);
    FlagsRoundTrip(flags, bitLength, chosen + {text});
  }

  // ------------------------------------------------------------------ bitfield groups

  /** Both bounds are inclusive; a state's own validator has ordered them. */
  datatype State = State(text: string, from: nat, to: nat)

  predicate StateIsOrdered(s: State) {
    s.from <= s.to
  }

  datatype Group = Group(name: string, mask: positive, states: seq<State>)

  predicate StatesOverlap(a: State, b: State) {
    a.from < b.to + 1 && b.from < a.to + 1
  }

  predicate LabelsAreUnique(states: seq<State>) {
    forall i, j :: 0 <= i < j < |states| ==> states[i].text != states[j].text
  }

  predicate StatesAreDisjoint(states: seq<State>) {
    forall i, j :: 0 <= i < j < |states| ==> !StatesOverlap(states[i], states[j])
  }

  predicate GroupIsValid(g: Group) {
    && LabelsAreUnique(g.states)
    && (forall i :: 0 <= i < |g.states| ==> Inside(g.states[i].from, g.mask) && Inside(g.states[i].to, g.mask))
    && StatesAreDisjoint(g.states)
  }

  method ValidateStates(g: Group) returns (ok: bool)
    ensures ok <==> GroupIsValid(g)
  {
    var seen: set<string> := {};
    for i := 0 to |g.states|
      invariant forall l :: l in seen <==> exists k :: 0 <= k < i && g.states[k].text == l
      invariant LabelsAreUnique(g.states[..i])
      invariant forall k :: 0 <= k < i ==> Inside(g.states[k].from, g.mask) && Inside(g.states[k].to, g.mask)
    {
      var s := g.states[i];
      if s.text in seen {
        return false;
      }
      seen := seen + {s.text};
      AndNotIsZero(Or(s.from, s.to), g.mask);
      OrInside(s.from, s.to, g.mask);
      if AndNot(Or(s.from, s.to), g.mask) != 0 {
        return false;
      }
    }
    assert g.states[..|g.states|] == g.states;
    ok := CheckNoOverlap(g.states);
  }

  method CheckNoOverlap(states: seq<State>) returns (ok: bool)
    ensures ok <==> StatesAreDisjoint(states)
  {
    for i := 0 to |states|
      invariant forall k, j :: 0 <= k < i && k < j < |states| ==> !StatesOverlap(states[k], states[j])
    {
      for j := i + 1 to |states|
        invariant forall m :: i < m < j ==> !StatesOverlap(states[i], states[m])
      {
        if states[i].from < states[j].to + 1 && states[j].from < states[i].to + 1 {
          return false;
        }
      }
    }
    return true;
  }

  /** The documented matching rule. */
  predicate StateIsActive(raw: nat, g: Group, s: State) {
    s.from <= And(raw, g.mask) <= s.to
  }

  /** "Exactly one state is active per group at any time": never two ... */
  lemma AtMostOneState(g: Group, raw: nat, i: nat, j: nat)
    requires GroupIsValid(g) && i < |g.states| && j < |g.states|
    requires StateIsActive(raw, g, g.states[i]) && StateIsActive(raw, g, g.states[j])
    ensures i == j
  {
    if i < j {
      assert StatesOverlap(g.states[i], g.states[j]);
    } else if j < i {
      assert StatesOverlap(g.states[j], g.states[i]);
    }
  }

  predicate Covers(g: Group, v: nat) {
    exists i :: 0 <= i < |g.states| && g.states[i].from <= v <= g.states[i].to
  }

  lemma {:induction false} AndIsInside(raw: nat, mask: nat)
    ensures Inside(And(raw, mask), mask)
  {
    if raw != 0 && mask != 0 {
      AndParts(raw, mask);
      AndParts(And(raw, mask), mask);
      AndIsInside(raw / 2, mask / 2);
    }
  }

  predicate SomeStateIsActive(g: Group, raw: nat) {
    exists i :: 0 <= i < |g.states| && StateIsActive(raw, g, g.states[i])
  }

  /** ... and one for every raw value exactly when the states leave no value of the mask uncovered. */
  lemma SomeStateIff(g: Group)
    ensures (forall raw: nat :: SomeStateIsActive(g, raw)) <==> (forall v: nat :: Inside(v, g.mask) ==> Covers(g, v))
  {
    if forall raw: nat :: SomeStateIsActive(g, raw) {
      forall v: nat | Inside(v, g.mask) ensures Covers(g, v) {
        assert SomeStateIsActive(g, v);
        var i :| 0 <= i < |g.states| && StateIsActive(v, g, g.states[i]);
      }
    }
    if forall v: nat :: Inside(v, g.mask) ==> Covers(g, v) {
      forall raw: nat ensures SomeStateIsActive(g, raw) {
        AndIsInside(raw, g.mask);
        assert Covers(g, And(raw, g.mask));
        var i :| 0 <= i < |g.states| && g.states[i].from <= And(raw, g.mask) <= g.states[i].to;
        assert StateIsActive(raw, g, g.states[i]);
      }
    }
  }

  /** An accepted group of two bits with one state: raw value 1 has no active state. */
  lemma UncoveredGroup(g: Group)
    requires g == Group("Problem", 3, [State("None", 0, 0)])
    ensures GroupIsValid(g) && !SomeStateIsActive(g, 1)
  {
    assert And(0, 1) == 0 && And(1, 3) == 1;
  }

  // ------------------------------------------------------------------ bitfield text tables

  function AsFlags(groups: seq<Group>): (r: seq<Flag>)
    ensures |r| == |groups|
    ensures forall i :: 0 <= i < |groups| ==> r[i] == Flag(groups[i].mask, groups[i].name)
  {
    seq(|groups|, i requires 0 <= i < |groups| => Flag(groups[i].mask, groups[i].name))
  }

  function GroupMasks(groups: seq<Group>): (r: seq<nat>)
    ensures |r| == |groups|
    ensures forall i :: 0 <= i < |groups| ==> r[i] == groups[i].mask
  {
    Masks(AsFlags(groups))
  }

  function GroupNames(groups: seq<Group>): (r: seq<string>)
    ensures |r| == |groups|
    ensures forall i :: 0 <= i < |groups| ==> r[i] == groups[i].name
  {
    Labels(AsFlags(groups))
  }

  /** The groups are validated when they are built, then the table itself: the same loop as for flags. */
  predicate TableIsValid(groups: seq<Group>) {
    && (forall i :: 0 <= i < |groups| ==> GroupIsValid(groups[i]))
    && NoDuplicates(GroupNames(groups))
    && DisjointMasks(GroupMasks(groups))
  }

  method ValidateGroups(groups: seq<Group>) returns (ok: bool)
    ensures ok <==> TableIsValid(groups)
  {
    for i := 0 to |groups|
      invariant forall k :: 0 <= k < i ==> GroupIsValid(groups[k])
    {
      var valid := ValidateStates(groups[i]);
      if !valid {
        return false;
      }
    }
    var error := ValidateFlags(AsFlags(groups));
    ok := error.None?;
  }

  /** One state per group, each by a value of the group's mask within the state's range. */
  predicate IsChoice(groups: seq<Group>, states: seq<State>, values: seq<nat>) {
    && |states| == |groups| == |values|
    && forall i :: 0 <= i < |groups| ==>
      states[i] in groups[i].states && Inside(values[i], groups[i].mask) && states[i].from <= values[i] <= states[i].to
  }

  /**
   Any choice of one state in every group has a raw value that fits the signal, from which each group's
   mask reads its own value back, and in which exactly the chosen states are active.
   */
  lemma TableRoundTrip(groups: seq<Group>, bitLength: positive, states: seq<State>, values: seq<nat>)
    requires TableIsValid(groups) && MasksInRange(GroupMasks(groups), bitLength)
    requires IsChoice(groups, states, values)
    ensures OrAll(values) < Pow2(bitLength)
    ensures forall i :: 0 <= i < |groups| ==> And(OrAll(values), groups[i].mask) == values[i]
    ensures forall i, s :: 0 <= i < |groups| && s in groups[i].states ==>
              (StateIsActive(OrAll(values), groups[i], s) <==> s == states[i])
  {
    var masks, raw := GroupMasks(groups), OrAll(values);
    forall i | 0 <= i < |groups| ensures And(raw, groups[i].mask) == values[i] && values[i] < Pow2(bitLength) {
      MaskSelects(values, masks, i);
      InsideIsSmaller(values[i], masks[i]);
      assert masks[i] < Pow2(bitLength);
    }
    OrAllBelowPow2(values, bitLength);
    forall i, s | 0 <= i < |groups| && s in groups[i].states
      ensures StateIsActive(raw, groups[i], s) <==> s == states[i]
    {
      var k :| 0 <= k < |groups[i].states| && groups[i].states[k] == states[i];
      var m :| 0 <= m < |groups[i].states| && groups[i].states[m] == s;
      if StateIsActive(raw, groups[i], s) {
        AtMostOneState(groups[i], raw, k, m);
      }
    }
  }

  /** Every state of an accepted group can be chosen: its own lower bound is a value of the mask. */
  lemma StatesAreReachable(g: Group, s: State)
    requires GroupIsValid(g) && s in g.states && StateIsOrdered(s)
    ensures Inside(s.from, g.mask) && s.from <= s.from <= s.to
    ensures StateIsActive(s.from, g, s)
  {
    var k :| 0 <= k < |g.states| && g.states[k] == s;
  }
}
