/**
 What a status of `Mapped` means: one candidate, stronger than every other element of its types, whose
 required semantics all match. The conditions are exact.
 */
module MappingGuarantees {
  import opened ArxmlIndex
  import opened ArxmlResolution
  import opened Datatypes
  import opened DatatypeComparison
  import opened MappingRules
  import opened MappingStatus
  import opened Wrappers

  // ------------------------------------------------------------------ selection

  function Assessed(t: Tables, e: FlyncElement, spec: RuleSpec, c: Element): Assessment {
    Assess(t, e, OfTags(t.index, spec.tags), spec, c)
  }

  lemma {:induction false} CredibleMembers(assessments: seq<Assessment>)
    ensures forall a :: a in Credible(assessments) <==> a in assessments && a.Anchors() > 0
  {
    if assessments != [] {
      CredibleMembers(assessments[..|assessments| - 1]);
      assert assessments == assessments[..|assessments| - 1] + [assessments[|assessments| - 1]];
    }
  }

  predicate SameStrength(a: Assessment, b: Assessment) {
    a.Anchors() == b.Anchors() && a.Support() == b.Support()
  }

  lemma {:induction false} AsStrongMembers(assessments: seq<Assessment>, top: Assessment, c: Element)
    ensures c in AsStrong(assessments, top)
            <==> exists a :: a in assessments && a.candidate == c && SameStrength(a, top)
  {
    if assessments != [] {
      var n := |assessments| - 1;
      AsStrongMembers(assessments[..n], top, c);
      assert assessments == assessments[..n] + [assessments[n]];
      assert assessments[n] in assessments;
    }
  }

  lemma AssessmentsMembers(t: Tables, e: FlyncElement, spec: RuleSpec, a: Assessment)
    ensures a in Assessments(t, e, OfTags(t.index, spec.tags), spec) <==>
              a.candidate in OfTags(t.index, spec.tags) && a == Assessed(t, e, spec, a.candidate)
  {
    var available := OfTags(t.index, spec.tags);
    if a.candidate in available && a == Assessed(t, e, spec, a.candidate) {
      var i :| 0 <= i < |available| && available[i] == a.candidate;
      assert Assessments(t, e, available, spec)[i] == a;
    }
  }

  /** A candidate is selected exactly when it has an anchor and no element of its types is stronger. */
  ghost predicate IsBest(t: Tables, e: FlyncElement, spec: RuleSpec, c: Element) {
    && c in OfTags(t.index, spec.tags)
    && Assessed(t, e, spec, c).Anchors() > 0
    && forall d :: d in OfTags(t.index, spec.tags) ==> !Weaker(Assessed(t, e, spec, c), Assessed(t, e, spec, d))
  }

  /** Choosing the strongest of the credible assessments. */
  lemma StrongestAreBest(assessments: seq<Assessment>, c: Element)
    requires Credible(assessments) != []
    ensures c in AsStrong(Credible(assessments), Strongest(Credible(assessments))) <==>
              exists a ::
                  a in assessments && a.candidate == c && a.Anchors() > 0
                    && forall b :: b in assessments ==> !Weaker(a, b)
  {
    var credible := Credible(assessments);
    var top := Strongest(credible);
    CredibleMembers(assessments);
    AsStrongMembers(credible, top, c);
    forall b | b in assessments ensures !Weaker(top, b) {
      if b.Anchors() > 0 {
        assert b in credible;
      }
    }
  }

  lemma SelectedIffBest(t: Tables, e: FlyncElement, spec: RuleSpec, c: Element)
    ensures c in SelectCandidates(t, e, spec) <==> IsBest(t, e, spec, c)
  {
    var available := OfTags(t.index, spec.tags);
    var assessments := Assessments(t, e, available, spec);
    forall d | d in available ensures Assessed(t, e, spec, d) in assessments {
      AssessmentsMembers(t, e, spec, Assessed(t, e, spec, d));
    }
    forall a | a in assessments ensures a.candidate in available && a == Assessed(t, e, spec, a.candidate) {
      AssessmentsMembers(t, e, spec, a);
    }
    CredibleMembers(assessments);
    var credible := Credible(assessments);
    if credible != [] {
      StrongestAreBest(assessments, c);
      SortMembers(AsStrong(credible, Strongest(credible)), c);
      if IsBest(t, e, spec, c) {
        assert Assessed(t, e, spec, c) in assessments;
      }
    }
  }

  /** A single selected candidate is strictly stronger than every other element of its types. */
  lemma SingleIsStrictlyStrongest(t: Tables, e: FlyncElement, spec: RuleSpec, d: Element)
    requires |SelectCandidates(t, e, spec)| == 1
    ensures IsBest(t, e, spec, SelectCandidates(t, e, spec)[0])
    ensures d in OfTags(t.index, spec.tags) && d != SelectCandidates(t, e, spec)[0] ==>
              Weaker(Assessed(t, e, spec, d), Assessed(t, e, spec, SelectCandidates(t, e, spec)[0]))
  {
    var c := SelectCandidates(t, e, spec)[0];
    SelectedIffBest(t, e, spec, c);
    SelectedIffBest(t, e, spec, d);
    if d in OfTags(t.index, spec.tags) && !Weaker(Assessed(t, e, spec, d), Assessed(t, e, spec, c)) {
      EquallyStrongIsBest(t, e, spec, c, d);
    }
  }

  lemma EquallyStrongIsBest(t: Tables, e: FlyncElement, spec: RuleSpec, c: Element, d: Element)
    requires IsBest(t, e, spec, c) && d in OfTags(t.index, spec.tags)
    requires !Weaker(Assessed(t, e, spec, d), Assessed(t, e, spec, c))
    ensures IsBest(t, e, spec, d)
  {
    assert !Weaker(Assessed(t, e, spec, c), Assessed(t, e, spec, d));
  }

  // ------------------------------------------------------------------ evidence of one candidate

  predicate RuleMatches(t: Tables, expected: string, c: Element, rule: PropertyRule) {
    AnySame(t.scalars, expected, Values(c, rule.leaves))
  }

  predicate SocketMatches(t: Tables, e: FlyncElement, c: Element, rule: PropertyRule) {
    ContextValue(e.context, rule.key).Some? && RuleMatches(t, ContextValue(e.context, rule.key).value, c, rule)
  }

  /** A required value of a socket that the element has and the candidate does not match. */
  predicate SocketFails(t: Tables, e: FlyncElement, c: Element, rule: PropertyRule) {
    rule.required && ContextValue(e.context, rule.key).Some? && !SocketMatches(t, e, c, rule)
  }

  predicate Leads(t: Tables, c: Element, r: Reference, state: State) {
    Resolve(t.index, r.value, Some(c), r.dest).state == state
  }

  lemma ValuesOfOne(c: Element, leaves: seq<string>)
    ensures AllValues([c], leaves) == Values(c, leaves)
  {
    assert [c][..0] == [];
  }

  lemma {:induction false} PropertiesMean(t: Tables, e: FlyncElement, c: Element, rules: seq<PropertyRule>)
    ensures HasFailure(PropertyEvidence(t, e, [c], rules)) <==>
              exists r ::
                  r in rules && r.required && r.key in e.properties && !RuleMatches(t, e.properties[r.key], c, r)
    ensures HasStrong(PropertyEvidence(t, e, [c], rules)) <==>
              exists r ::
                  r in rules && r.key !in WEAK_KINDS && r.key in e.properties
                    && RuleMatches(t, e.properties[r.key], c, r)
    ensures !HasAmbiguity(PropertyEvidence(t, e, [c], rules))
  {
    if rules != [] {
      var n := |rules| - 1;
      var rest, rule := PropertyEvidence(t, e, [c], rules[..n]), rules[n];
      PropertiesMean(t, e, c, rules[..n]);
      assert rules == rules[..n] + [rule];
      ValuesOfOne(c, rule.leaves);
      if rule.key in e.properties {
        var one := Evidence(rule.key, ResultOf(t.scalars, e.properties[rule.key], Values(c, rule.leaves)),
            rule.required);
        ConcatFailure(rest, [one]);
        OneEvidence(one);
      }
    }
  }

  lemma OneEvidence(one: Evidence)
    ensures HasFailure([one]) <==> Fails(one)
    ensures HasStrong([one]) <==> IsStrong(one)
    ensures HasAmbiguity([one]) <==> one.result == Ambiguity
  {
    assert one in [one];
  }

  lemma OneSocketRule(t: Tables, e: FlyncElement, c: Element, rule: PropertyRule)
    requires ContextValue(e.context, rule.key).Some?
    ensures var one := Evidence("socket-" + rule.key,
        ResultOf(t.scalars, ContextValue(e.context, rule.key).value, AllValues([c], rule.leaves)), rule.required);
            && (HasFailure([one]) <==> SocketFails(t, e, c, rule))
            && (HasStrong([one]) <==> SocketMatches(t, e, c, rule))
            && !HasAmbiguity([one])
  {
    ValuesOfOne(c, rule.leaves);
    var one := Evidence("socket-" + rule.key,
        ResultOf(t.scalars, ContextValue(e.context, rule.key).value, Values(c, rule.leaves)), rule.required);
    OneEvidence(one);
    assert one.kind[1] == 'o';
  }

  lemma {:induction false} SocketMeans(t: Tables, e: FlyncElement, c: Element, rules: seq<PropertyRule>)
    ensures HasFailure(SocketEvidence(t, e, [c], rules)) <==> exists r :: r in rules && SocketFails(t, e, c, r)
    ensures HasStrong(SocketEvidence(t, e, [c], rules)) <==> exists r :: r in rules && SocketMatches(t, e, c, r)
    ensures !HasAmbiguity(SocketEvidence(t, e, [c], rules))
  {
    if rules != [] {
      var n := |rules| - 1;
      var rest, rule := SocketEvidence(t, e, [c], rules[..n]), rules[n];
      SocketMeans(t, e, c, rules[..n]);
      assert rules == rules[..n] + [rule];
      var expected := ContextValue(e.context, rule.key);
      if expected.Some? {
        OneSocketRule(t, e, c, rule);
        ConcatFailure(rest, [Evidence("socket-" + rule.key,
            ResultOf(t.scalars, expected.value, AllValues([c], rule.leaves)), rule.required)]);
      }
    }
  }

  lemma OneReference(kind: string, state: State)
    ensures var one := Evidence("reference:" + kind, ReferenceResult(state), false);
            && !HasFailure([one])
            && (HasStrong([one]) <==> state == Resolved)
            && (HasAmbiguity([one]) <==> state == Ambiguous)
  {
    var one := Evidence("reference:" + kind, ReferenceResult(state), false);
    OneEvidence(one);
    assert one.kind[0] == 'r';
  }

  lemma {:induction false} ReferencesMean(t: Tables, c: Element, references: seq<Reference>)
    ensures !HasFailure(ReferenceEvidence(t, c, references))
    ensures HasStrong(ReferenceEvidence(t, c, references)) <==> exists r :: r in references && Leads(t, c, r, Resolved)
    ensures HasAmbiguity(ReferenceEvidence(t, c, references))
            <==> exists r :: r in references && Leads(t, c, r, Ambiguous)
  {
    if references != [] {
      var n := |references| - 1;
      var rest, r := ReferenceEvidence(t, c, references[..n]), references[n];
      var state := Resolve(t.index, r.value, Some(c), r.dest).state;
      ReferencesMean(t, c, references[..n]);
      OneReference(r.kind, state);
      ConcatFailure(rest, [Evidence("reference:" + r.kind, ReferenceResult(state), false)]);
      assert forall s :: Leads(t, c, r, s) <==> state == s;
      AppendedReference(references, t, c, Resolved);
      AppendedReference(references, t, c, Ambiguous);
    }
  }

  lemma AppendedReference(references: seq<Reference>, t: Tables, c: Element, state: State)
    requires references != []
    ensures (exists r :: r in references && Leads(t, c, r, state)) <==>
              (exists r ::
                  r in references[..|references| - 1] && Leads(t, c, r, state))
                    || Leads(t, c, references[|references| - 1], state)
  {
    var n := |references| - 1;
    assert references == references[..n] + [references[n]];
  }

  // ------------------------------------------------------------------ mapped elements

  /** Every required property that the element has is matched by the candidate. */
  predicate PropertiesPreserved(t: Tables, e: FlyncElement, spec: RuleSpec, c: Element) {
    forall r ::
        r in spec.propertyMap && r.required && r.key in e.properties ==> RuleMatches(t, e.properties[r.key], c, r)
  }

  /** For a socket: so is its port, its protocol and its address. */
  predicate SocketPreserved(t: Tables, e: FlyncElement, c: Element) {
    e.category == "socket" ==>
      forall r :: r in SOCKET_RULES ==> !SocketFails(t, e, c, r)
  }

  predicate NoReferenceIsAmbiguous(t: Tables, c: Element) {
    forall r :: r in c.references ==> !Leads(t, c, r, Ambiguous)
  }

  /** Something beyond names and types matches: a property, a socket value or a reference that resolves. */
  predicate HasStrongMatch(t: Tables, e: FlyncElement, spec: RuleSpec, c: Element) {
    || (exists r ::
        r in spec.propertyMap && r.key !in WEAK_KINDS && r.key in e.properties
          && RuleMatches(t, e.properties[r.key], c, r))
    || (e.category == "socket" && exists r :: r in SOCKET_RULES && SocketMatches(t, e, c, r))
    || (exists r :: r in c.references && Leads(t, c, r, Resolved))
  }

  lemma SpecialMeans(t: Tables, e: FlyncElement, c: Element)
    ensures HasFailure(SpecialEvidence(t, e, [c])) <==> !SocketPreserved(t, e, c)
    ensures HasStrong(SpecialEvidence(t, e, [c])) <==>
              || (e.category == "socket" && exists r :: r in SOCKET_RULES && SocketMatches(t, e, c, r))
              || (exists r :: r in c.references && Leads(t, c, r, Resolved))
    ensures HasAmbiguity(SpecialEvidence(t, e, [c])) <==> !NoReferenceIsAmbiguous(t, c)
  {
    var socket := if e.category == "socket" then SocketEvidence(t, e, [c], SOCKET_RULES) else [];
    assert [c][..0] == [];
    assert AllReferences(t, [c]) == ReferenceEvidence(t, c, c.references);
    ConcatFailure(socket, AllReferences(t, [c]));
    ReferencesMean(t, c, c.references);
    SocketMeans(t, e, c, SOCKET_RULES);
  }

  lemma GeneralMeans(e: FlyncElement, candidates: seq<Element>)
    ensures HasAmbiguity(GeneralEvidence(e, candidates)) <==> |candidates| > 1
    ensures HasFailure(GeneralEvidence(e, candidates)) <==> |candidates| > 1
    ensures !HasStrong(GeneralEvidence(e, candidates))
  {
    var general := GeneralEvidence(e, candidates);
    if |candidates| > 1 {
      assert general[2] in general;
    }
  }

  /** Exactly when an element with a registered rule is mapped. */
  ghost predicate IsSoundlyMapped(t: Tables, e: FlyncElement, spec: RuleSpec, candidates: seq<Element>) {
    && |candidates| == 1
    && PropertiesPreserved(t, e, spec, candidates[0])
    && SocketPreserved(t, e, candidates[0])
    && NoReferenceIsAmbiguous(t, candidates[0])
    && HasStrongMatch(t, e, spec, candidates[0])
  }

  lemma MappedIff(t: Tables, e: FlyncElement, spec: RuleSpec, candidates: seq<Element>)
    ensures CalculateStatus(|candidates|, Gathered(t, e, spec, candidates)) == Mapped
            <==> IsSoundlyMapped(t, e, spec, candidates)
  {
    if candidates != [] {
      var general, properties, special :=
        GeneralEvidence(e, candidates), PropertyEvidence(t, e, candidates, spec.propertyMap),
            SpecialEvidence(t, e, candidates);
      GeneralMeans(e, candidates);
      ConcatFailure(general, properties);
      ConcatFailure(general + properties, special);
      if |candidates| == 1 {
        var c := candidates[0];
        assert candidates == [c];
        PropertiesMean(t, e, c, spec.propertyMap);
        SpecialMeans(t, e, c);
      }
    }
  }

  /** A mapped element has one candidate, with an anchor, strictly stronger than every other of its types. */
  lemma MappedIsUnique(t: Tables, e: FlyncElement, spec: RuleSpec, d: Element)
    requires CalculateStatus(|SelectCandidates(t, e, spec)|, Gathered(t, e, spec, SelectCandidates(t, e, spec))) ==
        Mapped
    ensures |SelectCandidates(t, e, spec)| == 1
    ensures var c := SelectCandidates(t, e, spec)[0];
            && Assessed(t, e, spec, c).Anchors() > 0
            && (d in OfTags(t.index, spec.tags) && d != c ==> Weaker(Assessed(t, e, spec, d), Assessed(t, e, spec, c)))
  {
    MappedIff(t, e, spec, SelectCandidates(t, e, spec));
    SingleIsStrictlyStrongest(t, e, spec, d);
  }

  // ------------------------------------------------------------------ mapped datatypes

  predicate RefEmbeds(t: Tables, e: FlyncElement, c: Element, r: Reference)
    requires KeyedIndex(t.index)
  {
    && TargetOf(t.index, c, r).Some?
    && (e.datatype_.Some? ==>
         AllMatched(Comparing(e.datatype_.value,
             Some(Normalize(TargetOf(t.index, c, r).value, t.index, {}, t.byLength)))))
  }

  lemma OneTypeMeans(t: Tables, e: FlyncElement, c: Element, r: Reference)
    requires KeyedIndex(t.index)
    ensures HasFailure(OneTypeEvidence(t, e, c, r)) <==> !RefEmbeds(t, e, c, r)
    ensures HasAmbiguity(OneTypeEvidence(t, e, c, r)) ==> !RefEmbeds(t, e, c, r)
    ensures RefEmbeds(t, e, c, r) ==> (HasStrong(OneTypeEvidence(t, e, c, r)) <==> e.datatype_.Some?)
  {
    var target, evidence := TargetOf(t.index, c, r), OneTypeEvidence(t, e, c, r);
    if target.None? {
      assert Fails(evidence[0]) && evidence[0] in evidence;
    } else if e.datatype_.Some? {
      ComparedIsRequired(e.datatype_.value, Some(Normalize(target.value, t.index, {}, t.byLength)), "root");
      assert evidence[0] in evidence;
      if !AllMatched(evidence) {
        var bad :| bad in evidence && bad.result != Matched;
        assert Fails(bad);
      }
    }
  }

  /** Appending the evidence of one more reference. */
  lemma TypesAppend(t: Tables, e: FlyncElement, c: Element, rest: seq<Evidence>, one: seq<Evidence>, restFits: bool,
                    restStrong: bool, r: Reference)
    requires KeyedIndex(t.index) && one == OneTypeEvidence(t, e, c, r)
    requires HasFailure(rest) <==> !restFits
    requires HasAmbiguity(rest) ==> !restFits
    requires restFits ==> (HasStrong(rest) <==> restStrong) && (restStrong ==> e.datatype_.Some?)
    ensures HasFailure(rest + one) <==> !(restFits && RefEmbeds(t, e, c, r))
    ensures HasAmbiguity(rest + one) ==> !(restFits && RefEmbeds(t, e, c, r))
    ensures restFits && RefEmbeds(t, e, c, r) ==> (HasStrong(rest + one) <==> e.datatype_.Some?)
  {
    OneTypeMeans(t, e, c, r);
    ConcatFailure(rest, one);
  }

  ghost predicate AllEmbed(t: Tables, e: FlyncElement, c: Element, refs: seq<Reference>)
    requires KeyedIndex(t.index)
  {
    forall r :: r in refs ==> RefEmbeds(t, e, c, r)
  }

  lemma AllEmbedAppend(t: Tables, e: FlyncElement, c: Element, refs: seq<Reference>)
    requires KeyedIndex(t.index) && refs != []
    ensures AllEmbed(t, e, c, refs) <==> AllEmbed(t, e, c, refs[..|refs| - 1]) && RefEmbeds(t, e, c, refs[|refs| - 1])
  {
    assert refs == refs[..|refs| - 1] + [refs[|refs| - 1]];
  }

  lemma {:induction false} TypesMean(t: Tables, e: FlyncElement, c: Element, refs: seq<Reference>)
    requires KeyedIndex(t.index)
    ensures HasFailure(TypeEvidence(t, e, c, refs)) <==> !AllEmbed(t, e, c, refs)
    ensures HasAmbiguity(TypeEvidence(t, e, c, refs)) ==> !AllEmbed(t, e, c, refs)
    ensures AllEmbed(t, e, c, refs) ==> (HasStrong(TypeEvidence(t, e, c, refs)) <==> e.datatype_.Some? && refs != [])
  {
    if refs != [] {
      var n := |refs| - 1;
      TypesMean(t, e, c, refs[..n]);
      AllEmbedAppend(t, e, c, refs);
      TypesAppend(t, e, c, TypeEvidence(t, e, c, refs[..n]), OneTypeEvidence(t, e, c, refs[n]),
          AllEmbed(t, e, c, refs[..n]),
                  e.datatype_.Some? && n > 0, refs[n]);
    }
  }

  /** The candidate's type references all lead to datatypes that the FLYNC datatype embeds in, and there is one. */
  ghost predicate IsSoundDatatype(t: Tables, e: FlyncElement, candidates: seq<Element>)
    requires KeyedIndex(t.index)
  {
    && |candidates| == 1
    && e.datatype_.Some?
    && TypeRefs(candidates[0].references) != []
    && forall r :: r in TypeRefs(candidates[0].references) ==>
         && TargetOf(t.index, candidates[0], r).Some?
         && Embeds(e.datatype_.value, Normalize(TargetOf(t.index, candidates[0], r).value, t.index, {}, t.byLength))
  }

  lemma RefEmbedsIff(t: Tables, e: FlyncElement, c: Element, r: Reference)
    requires KeyedIndex(t.index) && e.datatype_.Some?
    ensures RefEmbeds(t, e, c, r) <==>
              TargetOf(t.index, c, r).Some?
                && Embeds(e.datatype_.value, Normalize(TargetOf(t.index, c, r).value, t.index, {}, t.byLength))
  {
    if TargetOf(t.index, c, r).Some? {
      MatchesIffEmbeds(e.datatype_.value, Normalize(TargetOf(t.index, c, r).value, t.index, {}, t.byLength), "root");
    }
  }

  lemma DatatypeMappedIff(t: Tables, e: FlyncElement, candidates: seq<Element>)
    requires KeyedIndex(t.index)
    ensures CalculateStatus(|candidates|, DatatypeEvidence(t, e, candidates)) == Mapped
            <==> IsSoundDatatype(t, e, candidates)
  {
    if |candidates| > 1 {
      var evidence := DatatypeEvidence(t, e, candidates);
      assert evidence[0] in evidence && evidence[0].result == Ambiguity;
    } else if |candidates| == 1 {
      var c := candidates[0];
      assert candidates == [c] && [c][..0] == [];
      assert ParameterEvidence(t, e, [c]) == OneParameter(t, e, c);
      var refs := TypeRefs(c.references);
      if refs == [] {
        OneEvidence(Evidence("datatype-reference", Absent, true));
      } else {
        TypesMean(t, e, c, refs);
        if e.datatype_.Some? {
          forall r | r in refs
            ensures RefEmbeds(t, e, c, r) <==>
                      TargetOf(t.index, c, r).Some?
                        && Embeds(e.datatype_.value, Normalize(TargetOf(t.index, c, r).value, t.index, {}, t.byLength))
          {
            RefEmbedsIff(t, e, c, r);
          }
        }
      }
    }
  }

  // ------------------------------------------------------------------ every element

  /** Whatever the element: mapped means exactly one candidate and no failed, missing or ambiguous evidence. */
  lemma MappedMeansOneCandidate(t: Tables, rules: Rules, e: FlyncElement)
    requires KeyedIndex(t.index)
    requires CalculateStatus(|CandidatesOf(t, rules, e)|, EvidenceOf(t, rules, e)) == Mapped
    ensures |CandidatesOf(t, rules, e)| == 1
    ensures !HasFailure(EvidenceOf(t, rules, e)) && HasStrong(EvidenceOf(t, rules, e))
            && !HasAmbiguity(EvidenceOf(t, rules, e))
  {
    if e.category == "datatype" {
      DatatypeMappedIff(t, e, CandidatesOf(t, rules, e));
    } else if e.category in rules {
      MappedIff(t, e, rules[e.category], CandidatesOf(t, rules, e));
    }
  }
}
