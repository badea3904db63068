/**
 The evidence that is gathered for an element, whatever its category and however many candidates it has, said of the
 element, the candidates and the document.
 */
module EvidenceMeaning {
  import opened ArxmlIndex
  import opened ArxmlResolution
  import opened ArxmlMeaning
  import opened Datatypes
  import opened DatatypeComparison
  import opened MappingRules
  import opened MappingStatus
  import opened MappingMeaning
  import opened SelectionMeaning
  import opened MappedMeaning
  import opened Wrappers

  // ------------------------------------------------------------------ values

  ghost predicate HasSomeValue(candidates: seq<Element>, leaves: seq<string>) {
    exists c, leaf :: c in candidates && leaf in leaves && leaf in c.properties && c.properties[leaf] != []
  }

  ghost predicate SomeShares(scalars: Scalars, expected: string, candidates: seq<Element>, leaves: seq<string>) {
    exists c :: c in candidates && SharesValue(scalars, expected, c, leaves)
  }

  /** Matched if some candidate shares the value, mismatched if the candidates have other values only. */
  ghost predicate IsResult(scalars: Scalars, expected: string, candidates: seq<Element>, leaves: seq<string>,
                           r: MatchResult) {
    && (r == Matched <==> SomeShares(scalars, expected, candidates, leaves))
    && (r == Absent <==> !HasSomeValue(candidates, leaves))
    && (r in {Matched, Absent, Mismatched})
  }

  lemma {:induction false} AllValuesMembers(candidates: seq<Element>, leaves: seq<string>, v: string)
    ensures v in AllValues(candidates, leaves) <==> exists c :: c in candidates && v in Values(c, leaves)
  {
    if candidates != [] {
      var n := |candidates| - 1;
      AllValuesMembers(candidates[..n], leaves, v);
      assert v in AllValues(candidates, leaves) <==>
               v in AllValues(candidates[..n], leaves) || v in Values(candidates[n], leaves);
      assert forall c :: c in candidates <==> c in candidates[..n] || c == candidates[n];
    }
  }

  lemma SharesMeansSame(scalars: Scalars, expected: string, candidates: seq<Element>, leaves: seq<string>)
    ensures AnySame(scalars, expected, AllValues(candidates, leaves)) <==>
              SomeShares(scalars, expected, candidates, leaves)
  {
    hide AllValues, Values, SharesValue;
    forall c ensures SharesValue(scalars, expected, c, leaves)
                     <==> exists v :: v in Values(c, leaves) && scalars.same(expected, v) {
      SharesMeaning(scalars, expected, c, leaves);
    }
    forall v ensures v in AllValues(candidates, leaves) <==> exists c :: c in candidates && v in Values(c, leaves) {
      AllValuesMembers(candidates, leaves, v);
    }
  }

  lemma ValueMeansListed(candidates: seq<Element>, leaves: seq<string>)
    ensures AllValues(candidates, leaves) == [] <==> !HasSomeValue(candidates, leaves)
  {
    hide AllValues, Values;
    if AllValues(candidates, leaves) != [] {
      var v := AllValues(candidates, leaves)[0];
      assert v in AllValues(candidates, leaves);
      AllValuesMembers(candidates, leaves, v);
      var c :| c in candidates && v in Values(c, leaves);
      ValuesMembers(c, leaves, v);
    }
    if c, leaf :| c in candidates && leaf in leaves && leaf in c.properties && c.properties[leaf] != [] {
      var v := c.properties[leaf][0];
      assert v in c.properties[leaf];
      ValuesMembers(c, leaves, v);
      AllValuesMembers(candidates, leaves, v);
    }
  }

  lemma ResultMeaning(scalars: Scalars, expected: string, candidates: seq<Element>, leaves: seq<string>,
                      r: MatchResult)
    ensures r == ResultOf(scalars, expected, AllValues(candidates, leaves))
            <==> IsResult(scalars, expected, candidates, leaves, r)
  {
    hide AllValues, HasSomeValue, SomeShares;
    SharesMeansSame(scalars, expected, candidates, leaves);
    ValueMeansListed(candidates, leaves);
  }

  // ------------------------------------------------------------------ elements with a rule

  /** For a property of the element that a rule compares. */
  ghost predicate IsPropertyNote(t: Tables, e: FlyncElement, candidates: seq<Element>, rules: seq<PropertyRule>,
                                 x: Evidence) {
    exists rule ::
      && rule in rules && rule.key in e.properties && x.kind == rule.key && x.required == rule.required
      && IsResult(t.scalars, e.properties[rule.key], candidates, rule.leaves, x.result)
  }

  ghost predicate IsContextNote(t: Tables, e: FlyncElement, candidates: seq<Element>, key: string,
                                leaves: seq<string>, required: bool, x: Evidence) {
    && x.kind == "socket-" + key && x.required == required
    && exists v :: ContextGives(e.context, key, v) && IsResult(t.scalars, v, candidates, leaves, x.result)
  }

  /** For what the context of a socket gives. */
  ghost predicate IsSocketNote(t: Tables, e: FlyncElement, candidates: seq<Element>, x: Evidence) {
    && e.category == "socket"
    && (|| IsContextNote(t, e, candidates, "port", ["PORT-NUMBER"], true, x)
        || IsContextNote(t, e, candidates, "protocol", ["PROTOCOL", "TCP-UDP-CONFIG"], true, x)
        || IsContextNote(t, e, candidates, "ip", ["IPV-4-ADDRESS"], true, x)
        || IsContextNote(t, e, candidates, "vlan", ["VLAN-IDENTIFIER"], false, x))
  }

  /** For a reference of a candidate, by the number of elements it may mean. */
  ghost predicate IsReferenceNote(all: seq<Element>, c: Element, r: Reference, x: Evidence) {
    && x.kind == "reference:" + r.kind && !x.required
    && x.result == if !MeansSome(all, c, r) then Unresolved else if MeansSeveral(all, c, r) then Ambiguity else Matched
  }

  ghost predicate IsNamed(candidates: seq<Element>, name: string) {
    exists c :: c in candidates && c.shortName == Some(name)
  }

  /** For the names, the types and the number of the candidates. */
  ghost predicate IsGeneralNote(e: FlyncElement, candidates: seq<Element>, x: Evidence) {
    || x == Evidence("short-name", if IsNamed(candidates, e.name) then Supporting else Transformed, false)
    || x == Evidence("element-type", Supporting, false)
    || (|candidates| > 1 && x == Evidence("candidate-context", Ambiguity, true))
  }

  /** The missing candidate, and the hint at an element of the types that has the name. */
  ghost predicate IsNoteOfNothing(all: seq<Element>, e: FlyncElement, spec: RuleSpec, x: Evidence) {
    || x == Evidence("candidate", Absent, true)
    || (x == Evidence("short-name", Supporting, false)
        && exists c :: IsOfTags(all, c, spec.tags) && c.shortName == Some(e.name))
  }

  ghost predicate IsNote(t: Tables, all: seq<Element>, e: FlyncElement, spec: RuleSpec, candidates: seq<Element>,
                         x: Evidence) {
    if candidates == [] then IsNoteOfNothing(all, e, spec, x)
    else
      || IsGeneralNote(e, candidates, x)
      || IsPropertyNote(t, e, candidates, spec.propertyMap, x)
      || IsSocketNote(t, e, candidates, x)
      || exists c, r :: c in candidates && r in c.references && IsReferenceNote(all, c, r, x)
  }

  lemma {:induction false} PropertyNotes(t: Tables, e: FlyncElement, candidates: seq<Element>,
                                         rules: seq<PropertyRule>, x: Evidence)
    ensures x in PropertyEvidence(t, e, candidates, rules) <==> IsPropertyNote(t, e, candidates, rules, x)
  {
    if rules != [] {
      var n := |rules| - 1;
      var rule := rules[n];
      hide ResultOf, AllValues, IsResult;
      PropertyNotes(t, e, candidates, rules[..n], x);
      if rule.key in e.properties {
        ResultMeaning(t.scalars, e.properties[rule.key], candidates, rule.leaves, x.result);
      }
      assert rules == rules[..n] + [rule];
    }
  }

  lemma ContextNote(t: Tables, e: FlyncElement, candidates: seq<Element>, rule: PropertyRule, x: Evidence)
    ensures (&& ContextValue(e.context, rule.key).Some?
             && x == Evidence("socket-" + rule.key,
                              ResultOf(t.scalars, ContextValue(e.context, rule.key).value,
                                       AllValues(candidates, rule.leaves)), rule.required))
            <==> IsContextNote(t, e, candidates, rule.key, rule.leaves, rule.required, x)
  {
    hide ContextValue, ContextGives, ResultOf, AllValues, IsResult;
    ContextIsGiven(e.context, rule.key);
    if ContextValue(e.context, rule.key).Some? {
      ResultMeaning(t.scalars, ContextValue(e.context, rule.key).value, candidates, rule.leaves, x.result);
    }
  }

  lemma {:induction false} SocketNotes(t: Tables, e: FlyncElement, candidates: seq<Element>,
                                       rules: seq<PropertyRule>, x: Evidence)
    ensures x in SocketEvidence(t, e, candidates, rules) <==>
              exists rule :: rule in rules
                             && IsContextNote(t, e, candidates, rule.key, rule.leaves, rule.required, x)
  {
    if rules != [] {
      var n := |rules| - 1;
      hide ResultOf, AllValues, IsContextNote, ContextValue;
      SocketNotes(t, e, candidates, rules[..n], x);
      ContextNote(t, e, candidates, rules[n], x);
      assert rules == rules[..n] + [rules[n]];
    }
  }

  lemma SocketMeaning(t: Tables, e: FlyncElement, candidates: seq<Element>, x: Evidence)
    requires e.category == "socket"
    ensures x in SocketEvidence(t, e, candidates, SOCKET_RULES) <==> IsSocketNote(t, e, candidates, x)
  {
    var port := PropertyRule("port", ["PORT-NUMBER"], true);
    var protocol := PropertyRule("protocol", ["PROTOCOL", "TCP-UDP-CONFIG"], true);
    var ip := PropertyRule("ip", ["IPV-4-ADDRESS"], true);
    var vlan := PropertyRule("vlan", ["VLAN-IDENTIFIER"], false);
    forall r ensures r in SOCKET_RULES <==> r == port || r == protocol || r == ip || r == vlan {
      SocketRules(r);
    }
    hide SocketEvidence, IsContextNote;
    SocketNotes(t, e, candidates, SOCKET_RULES, x);
    assert port in SOCKET_RULES && protocol in SOCKET_RULES && ip in SOCKET_RULES && vlan in SOCKET_RULES;
  }

  lemma ReferenceNote(t: Tables, all: seq<Element>, c: Element, r: Reference, x: Evidence)
    requires IsIndexOf(t.index, all)
    ensures x == Evidence("reference:" + r.kind,
                          ReferenceResult(Resolve(t.index, r.value, Some(c), r.dest).state), false)
            <==> IsReferenceNote(all, c, r, x)
  {
    LeadsMeaning(t, all, c, r);
    hide IsIndexOf, Resolve, MeansSome, MeansSeveral;
  }

  lemma {:induction false} ReferenceNotes(t: Tables, all: seq<Element>, c: Element, references: seq<Reference>,
                                          x: Evidence)
    requires IsIndexOf(t.index, all)
    ensures x in ReferenceEvidence(t, c, references) <==>
              exists r :: r in references && IsReferenceNote(all, c, r, x)
  {
    if references != [] {
      var n := |references| - 1;
      hide IsIndexOf, IsReferenceNote;
      ReferenceNotes(t, all, c, references[..n], x);
      ReferenceNote(t, all, c, references[n], x);
      assert references == references[..n] + [references[n]];
    }
  }

  lemma ReferencesStep(t: Tables, candidates: seq<Element>)
    ensures candidates == [] ==> AllReferences(t, candidates) == []
    ensures candidates != [] ==>
              var c := candidates[|candidates| - 1];
              AllReferences(t, candidates) ==
              AllReferences(t, candidates[..|candidates| - 1]) + ReferenceEvidence(t, c, c.references)
  {
  }

  lemma {:induction false} AllReferenceNotes(t: Tables, all: seq<Element>, candidates: seq<Element>, x: Evidence)
    requires IsIndexOf(t.index, all)
    ensures x in AllReferences(t, candidates) <==>
              exists c, r :: c in candidates && r in c.references && IsReferenceNote(all, c, r, x)
  {
    hide IsIndexOf, AllReferences, ReferenceEvidence, IsReferenceNote;
    ReferencesStep(t, candidates);
    if candidates != [] {
      var n := |candidates| - 1;
      AllReferenceNotes(t, all, candidates[..n], x);
      ReferenceNotes(t, all, candidates[n], candidates[n].references, x);
      assert candidates == candidates[..n] + [candidates[n]];
    }
  }

  lemma NothingMeaning(t: Tables, all: seq<Element>, e: FlyncElement, spec: RuleSpec, x: Evidence)
    requires IsIndexOf(t.index, all) && "" !in spec.tags
    ensures x in NothingFound(t, e, spec) <==> IsNoteOfNothing(all, e, spec, x)
  {
    hide IsIndexOf, OfTags;
    OfTagsMembers(t.index, all, spec.tags);
  }

  lemma GeneralNotes(e: FlyncElement, candidates: seq<Element>, x: Evidence)
    ensures x in GeneralEvidence(e, candidates) <==> IsGeneralNote(e, candidates, x)
  {
    assert AnyNamed(candidates, e.name) <==> IsNamed(candidates, e.name);
    hide AnyNamed, IsNamed;
  }

  lemma SpecialNotes(t: Tables, all: seq<Element>, e: FlyncElement, candidates: seq<Element>, x: Evidence)
    requires IsIndexOf(t.index, all)
    ensures x in SpecialEvidence(t, e, candidates) <==>
              || IsSocketNote(t, e, candidates, x)
              || exists c, r :: c in candidates && r in c.references && IsReferenceNote(all, c, r, x)
  {
    assert e.category != "socket" ==> !IsSocketNote(t, e, candidates, x);
    hide IsIndexOf, SocketEvidence, IsSocketNote, AllReferences, IsReferenceNote;
    AllReferenceNotes(t, all, candidates, x);
    if e.category == "socket" {
      SocketMeaning(t, e, candidates, x);
    }
  }

  /** The evidence of an element with a rule consists of exactly these notes. */
  lemma GatheredMeaning(t: Tables, all: seq<Element>, e: FlyncElement, spec: RuleSpec, candidates: seq<Element>,
                        x: Evidence)
    requires IsIndexOf(t.index, all) && "" !in spec.tags
    ensures x in Gathered(t, e, spec, candidates) <==> IsNote(t, all, e, spec, candidates, x)
  {
    hide IsIndexOf, NothingFound, IsNoteOfNothing, PropertyEvidence, IsPropertyNote, GeneralEvidence, IsGeneralNote,
        SpecialEvidence, IsSocketNote, IsReferenceNote;
    if candidates == [] {
      NothingMeaning(t, all, e, spec, x);
    } else {
      GeneralNotes(e, candidates, x);
      PropertyNotes(t, e, candidates, spec.propertyMap, x);
      SpecialNotes(t, all, e, candidates, x);
    }
  }

  // ------------------------------------------------------------------ datatype elements

  /** For a reference to a type: where it does not mean one element, or what the comparison with that one notes. */
  ghost predicate IsTypeNote(t: Tables, all: seq<Element>, e: FlyncElement, c: Element, r: Reference, x: Evidence)
    requires KeyedIndex(t.index)
  {
    if !MeansSome(all, c, r) then x == Evidence("datatype-reference", Unresolved, true)
    else if MeansSeveral(all, c, r) then x == Evidence("datatype-reference", Ambiguity, true)
    else
      && e.datatype_.Some?
      && exists y, z: Element ::
        && IsTarget(all, y, r.value, Some(c), r.dest) && z.key == y.key && IsLastOfKey(all, z)
        && IsNoted(e.datatype_.value, Some(Normalize(z, t.index, {}, t.byLength)), "root", x)
  }

  ghost predicate IsParameterNote(t: Tables, all: seq<Element>, e: FlyncElement, c: Element, x: Evidence)
    requires KeyedIndex(t.index)
  {
    || ((forall r :: !IsTypeOf(c, r)) && x == Evidence("datatype-reference", Absent, true))
    || exists r :: IsTypeOf(c, r) && IsTypeNote(t, all, e, c, r, x)
  }

  ghost predicate IsDatatypeNote(t: Tables, all: seq<Element>, e: FlyncElement, candidates: seq<Element>, x: Evidence)
    requires KeyedIndex(t.index)
  {
    || (candidates == [] && x == Evidence("datatype-parameter", Absent, true))
    || (|candidates| > 1 && x == Evidence("datatype-parameter", Ambiguity, true))
    || exists c :: c in candidates && IsParameterNote(t, all, e, c, x)
  }

  lemma TypeNote(t: Tables, all: seq<Element>, e: FlyncElement, c: Element, r: Reference, x: Evidence)
    requires KeyedIndex(t.index) && IsIndexOf(t.index, all)
    ensures x in OneTypeEvidence(t, e, c, r) <==> IsTypeNote(t, all, e, c, r, x)
  {
    LeadsMeaning(t, all, c, r);
    hide IsIndexOf, IsTarget, Resolve, TargetOf, Compared, IsNoted, Normalize, IsLastOfKey, MeansSome, MeansSeveral;
    forall z
      ensures TargetOf(t.index, c, r).Some? <==> MeansSome(all, c, r) && !MeansSeveral(all, c, r)
      ensures TargetOf(t.index, c, r).Some? ==>
                (TargetOf(t.index, c, r) == Some(z) <==>
                   IsLastOfKey(all, z) && exists y :: IsTarget(all, y, r.value, Some(c), r.dest) && z.key == y.key)
    {
      MappedMeaning.TargetMeaning(t, all, c, r, z);
    }
    if TargetOf(t.index, c, r).Some? && e.datatype_.Some? {
      var z := TargetOf(t.index, c, r).value;
      assert TargetOf(t.index, c, r) == Some(z);
      ComparedMeaning(e.datatype_.value, Some(Normalize(z, t.index, {}, t.byLength)), "root", x);
    }
  }

  lemma TypeStep(t: Tables, e: FlyncElement, c: Element, refs: seq<Reference>)
    requires KeyedIndex(t.index)
    ensures refs == [] ==> TypeEvidence(t, e, c, refs) == []
    ensures refs != [] ==>
              TypeEvidence(t, e, c, refs) ==
              TypeEvidence(t, e, c, refs[..|refs| - 1]) + OneTypeEvidence(t, e, c, refs[|refs| - 1])
  {
  }

  lemma {:induction false} TypeNotes(t: Tables, all: seq<Element>, e: FlyncElement, c: Element, refs: seq<Reference>,
                                     x: Evidence)
    requires KeyedIndex(t.index) && IsIndexOf(t.index, all)
    ensures x in TypeEvidence(t, e, c, refs) <==> exists r :: r in refs && IsTypeNote(t, all, e, c, r, x)
  {
    hide IsIndexOf, TypeEvidence, OneTypeEvidence, IsTypeNote, KeyedIndex;
    TypeStep(t, e, c, refs);
    if refs != [] {
      var n := |refs| - 1;
      TypeNotes(t, all, e, c, refs[..n], x);
      TypeNote(t, all, e, c, refs[n], x);
      assert refs == refs[..n] + [refs[n]];
    }
  }

  lemma ParameterNote(t: Tables, all: seq<Element>, e: FlyncElement, c: Element, x: Evidence)
    requires KeyedIndex(t.index) && IsIndexOf(t.index, all)
    ensures x in OneParameter(t, e, c) <==> IsParameterNote(t, all, e, c, x)
  {
    var refs := TypeRefs(c.references);
    forall r ensures r in refs <==> IsTypeOf(c, r) {
      TypeRefMembers(c.references, r);
    }
    hide IsIndexOf, TypeEvidence, IsTypeNote, KeyedIndex, TypeRefs, IsTypeOf;
    TypeNotes(t, all, e, c, refs, x);
    if refs != [] {
      assert refs[0] in refs;
    }
  }

  lemma ParameterStep(t: Tables, e: FlyncElement, candidates: seq<Element>)
    requires KeyedIndex(t.index)
    ensures candidates == [] ==> ParameterEvidence(t, e, candidates) == []
    ensures candidates != [] ==>
              ParameterEvidence(t, e, candidates) ==
              ParameterEvidence(t, e, candidates[..|candidates| - 1]) + OneParameter(t, e, candidates[|candidates| - 1])
  {
  }

  lemma {:induction false} ParameterNotes(t: Tables, all: seq<Element>, e: FlyncElement, candidates: seq<Element>,
                                          x: Evidence)
    requires KeyedIndex(t.index) && IsIndexOf(t.index, all)
    ensures x in ParameterEvidence(t, e, candidates) <==>
              exists c :: c in candidates && IsParameterNote(t, all, e, c, x)
  {
    hide IsIndexOf, ParameterEvidence, OneParameter, IsParameterNote, KeyedIndex;
    ParameterStep(t, e, candidates);
    if candidates != [] {
      var n := |candidates| - 1;
      ParameterNotes(t, all, e, candidates[..n], x);
      ParameterNote(t, all, e, candidates[n], x);
      assert candidates == candidates[..n] + [candidates[n]];
    }
  }

  /** The evidence of a datatype element consists of exactly these notes. */
  lemma DatatypeEvidenceMeaning(t: Tables, all: seq<Element>, e: FlyncElement, candidates: seq<Element>, x: Evidence)
    requires KeyedIndex(t.index) && IsIndexOf(t.index, all)
    ensures x in DatatypeEvidence(t, e, candidates) <==> IsDatatypeNote(t, all, e, candidates, x)
  {
    hide IsIndexOf, ParameterEvidence, IsParameterNote, KeyedIndex;
    ParameterNotes(t, all, e, candidates, x);
  }

  // ------------------------------------------------------------------ any element

  /** Datatypes have their parameters, whatever the rules say; elements without a rule have no candidate. */
  ghost predicate IsCandidate(t: Tables, all: seq<Element>, rules: Rules, e: FlyncElement, c: Element) {
    if e.category == "datatype" then
      || IsPrototype(all, c, "ARGUMENT-DATA-PROTOTYPE", e.name)
      || (IsPrototype(all, c, "VARIABLE-DATA-PROTOTYPE", e.name)
          && forall d :: !IsPrototype(all, d, "ARGUMENT-DATA-PROTOTYPE", e.name))
    else e.category in rules && IsStrongest(t, all, e, rules[e.category], c)
  }

  /** What is resolved for an element: its candidates, and the notes about them. */
  lemma ElementMeaning(t: Tables, all: seq<Element>, rules: Rules, e: FlyncElement, c: Element, x: Evidence)
    requires KeyedIndex(t.index) && IsIndexOf(t.index, all)
    requires forall category :: category in rules ==> "" !in rules[category].tags
    ensures c in CandidatesOf(t, rules, e) <==> IsCandidate(t, all, rules, e, c)
    ensures x in EvidenceOf(t, rules, e) <==>
              if e.category == "datatype" then IsDatatypeNote(t, all, e, CandidatesOf(t, rules, e), x)
              else if e.category in rules then IsNote(t, all, e, rules[e.category], CandidatesOf(t, rules, e), x)
              else x == Evidence("supported-category", Absent, true)
  {
    hide KeyedIndex, IsIndexOf, IsDatatypeNote, IsNote, IsPrototype, IsStrongest, Parameters, SelectCandidates,
        DatatypeEvidence, Gathered;
    if e.category == "datatype" {
      ParametersMeaning(t, all, e.name, c);
      DatatypeEvidenceMeaning(t, all, e, CandidatesOf(t, rules, e), x);
    } else if e.category in rules {
      SelectedMeaning(t, all, e, rules[e.category], c);
      GatheredMeaning(t, all, e, rules[e.category], CandidatesOf(t, rules, e), x);
    }
  }

  /** When an element is mapped, by its category. */
  lemma ElementMappedMeans(t: Tables, all: seq<Element>, rules: Rules, e: FlyncElement)
    requires KeyedIndex(t.index) && IsIndexOf(t.index, all)
    ensures var candidates := CandidatesOf(t, rules, e);
            CalculateStatus(|candidates|, EvidenceOf(t, rules, e)) == Mapped
            <==> if e.category == "datatype" then IsMappedDatatype(t, all, e, candidates)
                 else e.category in rules && IsMapped(t, all, e, rules[e.category], candidates)
  {
    hide KeyedIndex, IsIndexOf, IsMappedDatatype, IsMapped, Parameters, SelectCandidates, DatatypeEvidence, Gathered;
    if e.category == "datatype" {
      DatatypeMappedMeans(t, all, e, CandidatesOf(t, rules, e));
    } else if e.category in rules {
      MappedMeans(t, all, e, rules[e.category], CandidatesOf(t, rules, e));
    }
  }
}
