/**
 How strong a candidate is, counted: anchors first, then support. The candidates that are selected are those that
 no other element of their types is stronger than.
 */
module SelectionMeaning {
  import opened ArxmlIndex
  import opened ArxmlResolution
  import opened ArxmlMeaning
  import opened DatatypeKinds
  import opened MappingRules
  import opened MappingGuarantees
  import opened MappingMeaning
  import opened Wrappers

  // ------------------------------------------------------------------ what counts

  ghost predicate PropertyShared(t: Tables, e: FlyncElement, c: Element, rule: PropertyRule) {
    rule.key in e.properties && SharesValue(t.scalars, e.properties[rule.key], c, rule.leaves)
  }

  /** Ports, and numbers that more than one element of the types has, are too common to identify anything. */
  ghost predicate IsCommon(t: Tables, all: seq<Element>, e: FlyncElement, spec: RuleSpec, rule: PropertyRule) {
    || rule.key == "port" || rule.key == "port_no"
    || (rule.key in e.properties && t.scalars.isNumber(e.properties[rule.key])
        && IsSharedByTwo(t.scalars, all, spec.tags, e.properties[rule.key], rule.leaves))
  }

  /** A name of the context stands in the hierarchy around the candidate. */
  predicate IsAround(entry: (string, Option<string>), c: Element) {
    entry.1.Some? && entry.1.value in c.hierarchy
  }

  /** Some reference of the candidate leads to an element that has the address of the socket. */
  ghost predicate LeadsToAddress(t: Tables, all: seq<Element>, e: FlyncElement, c: Element) {
    && e.category == "socket" && "endpoint_address" in e.properties
    && exists r, y: Element, x: Element ::
         && r in c.references && IsTarget(all, y, r.value, Some(c), r.dest)
         && x.key == y.key && IsLastOfKey(all, x)
         && SharesValue(t.scalars, e.properties["endpoint_address"], x, ["IPV-4-ADDRESS"])
  }

  ghost function AnchorKeys(t: Tables, all: seq<Element>, e: FlyncElement, spec: RuleSpec, c: Element): set<string> {
    set rule | rule in spec.propertyMap && PropertyShared(t, e, c, rule) && !IsCommon(t, all, e, spec, rule) :: rule.key
  }

  ghost function SupportKeys(t: Tables, all: seq<Element>, e: FlyncElement, spec: RuleSpec, c: Element): set<string> {
    set rule | rule in spec.propertyMap && PropertyShared(t, e, c, rule) && IsCommon(t, all, e, spec, rule) :: rule.key
  }

  /** The name, every context entry around the candidate, every identifying property it shares, and the address. */
  ghost function AnchorCount(t: Tables, all: seq<Element>, e: FlyncElement, spec: RuleSpec, c: Element): nat {
    (if c.shortName == Some(e.name) then 1 else 0)
    + |set i: nat | i < |e.context| && IsAround(e.context[i], c)|
    + |AnchorKeys(t, all, e, spec, c)|
    + (if LeadsToAddress(t, all, e, c) then 1 else 0)
  }

  /** A name that holds the element's name, and every common property it shares. */
  ghost function SupportCount(t: Tables, all: seq<Element>, e: FlyncElement, spec: RuleSpec, c: Element): nat {
    (if c.shortName.Some? && (c.shortName.value == e.name
                              || (c.shortName.value != "" && Occurs(c.shortName.value, e.name))) then 1 else 0)
    + |SupportKeys(t, all, e, spec, c)|
  }

  // ------------------------------------------------------------------ the assessment counts it

  lemma {:induction false} ContextCount(context: seq<(string, Option<string>)>, c: Element)
    ensures |ContextAnchors(context, c)| == |set i: nat | i < |context| && IsAround(context[i], c)|
  {
    var places := set i: nat | i < |context| && IsAround(context[i], c);
    if context == [] {
      assert places == {};
    } else {
      var n := |context| - 1;
      var before := set i: nat | i < n && IsAround(context[..n][i], c);
      ContextCount(context[..n], c);
      assert before == set i: nat | i < n && IsAround(context[i], c);
      assert places == before + if IsAround(context[n], c) then {n} else {};
    }
  }

  lemma {:induction false} PrefixedCount(keys: set<string>)
    ensures |set k | k in keys :: "property:" + k| == |keys|
  {
    var prefixed := set k | k in keys :: "property:" + k;
    if keys == {} {
      assert prefixed == {};
    } else {
      var k :| k in keys;
      var rest := keys - {k};
      PrefixedCount(rest);
      assert prefixed == (set x | x in rest :: "property:" + x) + {"property:" + k};
      forall x | x in rest ensures "property:" + x != "property:" + k {
        assert ("property:" + x)[9..] == x && ("property:" + k)[9..] == k;
      }
    }
  }

  lemma CommonMeaning(t: Tables, all: seq<Element>, e: FlyncElement, spec: RuleSpec, rule: PropertyRule)
    requires IsIndexOf(t.index, all) && "" !in spec.tags && rule.key in e.properties
    ensures OnlySupports(t, e, OfTags(t.index, spec.tags), rule) <==> IsCommon(t, all, e, spec, rule)
  {
    hide IsIndexOf, OfTags, Sharing, IsSharedByTwo;
    SharedMeaning(t, all, spec.tags, rule, e.properties[rule.key]);
  }

  lemma MatchMeaning(t: Tables, e: FlyncElement, c: Element, rule: PropertyRule)
    ensures PropertyMatches(t, e, c, rule) <==> PropertyShared(t, e, c, rule)
  {
    if rule.key in e.properties {
      SharesMeaning(t.scalars, e.properties[rule.key], c, rule.leaves);
    }
  }

  /** A key of an answer is that of a target, and what the index holds under it is the last element of the key. */
  lemma AnswerMeaning(t: Tables, all: seq<Element>, c: Element, r: Reference, key: string, x: Element)
    requires IsIndexOf(t.index, all)
    ensures key in Resolve(t.index, r.value, Some(c), r.dest).candidates && key in t.index.byKey
            && t.index.byKey[key] == x
            <==> (exists y :: IsTarget(all, y, r.value, Some(c), r.dest) && x.key == y.key) && x.key == key
                 && IsLastOfKey(all, x)
  {
    hide Resolve, IsTarget, IsLastOfKey;
    ResolveMeaning(t.index, all, r.value, Some(c), r.dest);
    if key in Resolve(t.index, r.value, Some(c), r.dest).candidates {
      AnswersAreIndexed(t.index, all, r.value, Some(c), r.dest, key);
    }
    ByKeyMeaning(t.index, all, x);
  }

  lemma AddressMeaning(t: Tables, all: seq<Element>, e: FlyncElement, c: Element)
    requires IsIndexOf(t.index, all)
    ensures HasEndpointIp(t, e, c) <==> LeadsToAddress(t, all, e, c)
  {
    hide IsIndexOf, Resolve, IsTarget, IsLastOfKey, Values, SharesValue, AnySame;
    if e.category == "socket" && "endpoint_address" in e.properties {
      var expected := e.properties["endpoint_address"];
      if HasEndpointIp(t, e, c) {
        var r, key :|
          && r in c.references
          && key in Resolve(t.index, r.value, Some(c), r.dest).candidates
          && key in t.index.byKey
          && AnySame(t.scalars, expected, Values(t.index.byKey[key], ["IPV-4-ADDRESS"]));
        var x := t.index.byKey[key];
        AnswerMeaning(t, all, c, r, key, x);
        SharesMeaning(t.scalars, expected, x, ["IPV-4-ADDRESS"]);
      }
      if LeadsToAddress(t, all, e, c) {
        var r, y: Element, x: Element :|
          && r in c.references && IsTarget(all, y, r.value, Some(c), r.dest)
          && x.key == y.key && IsLastOfKey(all, x)
          && SharesValue(t.scalars, expected, x, ["IPV-4-ADDRESS"]);
        AnswerMeaning(t, all, c, r, x.key, x);
        SharesMeaning(t.scalars, expected, x, ["IPV-4-ADDRESS"]);
      }
    }
  }

  /** The names of the identifying properties that are shared, as the assessment writes them. */
  function IdentifyingNames(t: Tables, e: FlyncElement, c: Element, available: seq<Element>,
                            rules: seq<PropertyRule>): set<string> {
    set rule | rule in rules && PropertyMatches(t, e, c, rule) && !OnlySupports(t, e, available, rule)
      :: "property:" + rule.key
  }

  lemma IdentifyingCount(t: Tables, all: seq<Element>, e: FlyncElement, spec: RuleSpec, c: Element)
    requires IsIndexOf(t.index, all) && "" !in spec.tags
    ensures |IdentifyingNames(t, e, c, OfTags(t.index, spec.tags), spec.propertyMap)|
         == |AnchorKeys(t, all, e, spec, c)|
  {
    var keys := AnchorKeys(t, all, e, spec, c);
    var available := OfTags(t.index, spec.tags);
    forall rule | rule in spec.propertyMap
      ensures PropertyMatches(t, e, c, rule) <==> PropertyShared(t, e, c, rule)
      ensures rule.key in e.properties ==>
                (OnlySupports(t, e, available, rule) <==> IsCommon(t, all, e, spec, rule))
    {
      MatchMeaning(t, e, c, rule);
      if rule.key in e.properties {
        CommonMeaning(t, all, e, spec, rule);
      }
    }
    hide IsIndexOf, OfTags, OnlySupports, IsCommon;
    PrefixedCount(keys);
    assert (set k | k in keys :: "property:" + k)
        == IdentifyingNames(t, e, c, available, spec.propertyMap);
  }

  lemma NoAddressName(t: Tables, e: FlyncElement, c: Element, available: seq<Element>, rules: seq<PropertyRule>)
    ensures "resolved-endpoint-ip" !in IdentifyingNames(t, e, c, available, rules)
  {
    hide PropertyMatches, OnlySupports;
    forall name | name in IdentifyingNames(t, e, c, available, rules) ensures name != "resolved-endpoint-ip" {
      assert name[0] == 'p';
    }
  }

  lemma PropertyAnchorCount(t: Tables, all: seq<Element>, e: FlyncElement, spec: RuleSpec, c: Element)
    requires IsIndexOf(t.index, all) && "" !in spec.tags
    ensures |PropertyAnchors(t, e, c, OfTags(t.index, spec.tags), spec.propertyMap)|
         == |AnchorKeys(t, all, e, spec, c)| + if LeadsToAddress(t, all, e, c) then 1 else 0
  {
    var available := OfTags(t.index, spec.tags);
    var names := IdentifyingNames(t, e, c, available, spec.propertyMap);
    AddressMeaning(t, all, e, c);
    IdentifyingCount(t, all, e, spec, c);
    NoAddressName(t, e, c, available, spec.propertyMap);
    hide IsIndexOf, OfTags, OnlySupports, PropertyMatches, HasEndpointIp, LeadsToAddress, AnchorKeys;
    var anchors := PropertyAnchors(t, e, c, available, spec.propertyMap);
    assert anchors == names + if HasEndpointIp(t, e, c) then {"resolved-endpoint-ip"} else {};
  }

  lemma PropertySupportCount(t: Tables, all: seq<Element>, e: FlyncElement, spec: RuleSpec, c: Element)
    requires IsIndexOf(t.index, all) && "" !in spec.tags
    ensures |PropertySupport(t, e, c, OfTags(t.index, spec.tags), spec.propertyMap)|
         == |SupportKeys(t, all, e, spec, c)|
  {
    var keys := SupportKeys(t, all, e, spec, c);
    var available := OfTags(t.index, spec.tags);
    forall rule | rule in spec.propertyMap
      ensures PropertyMatches(t, e, c, rule) <==> PropertyShared(t, e, c, rule)
      ensures rule.key in e.properties ==>
                (OnlySupports(t, e, available, rule) <==> IsCommon(t, all, e, spec, rule))
    {
      MatchMeaning(t, e, c, rule);
      if rule.key in e.properties {
        CommonMeaning(t, all, e, spec, rule);
      }
    }
    hide IsIndexOf, OfTags, OnlySupports, IsCommon;
    PrefixedCount(keys);
    assert (set k | k in keys :: "property:" + k)
        == set rule | rule in spec.propertyMap && PropertyMatches(t, e, c, rule)
                      && OnlySupports(t, e, available, rule) :: "property:" + rule.key;
  }

  /** The anchors and the support of an assessment are those counted here. */
  lemma StrengthMeaning(t: Tables, all: seq<Element>, e: FlyncElement, spec: RuleSpec, c: Element)
    requires IsIndexOf(t.index, all) && "" !in spec.tags
    ensures Assessed(t, e, spec, c).Anchors() == AnchorCount(t, all, e, spec, c)
    ensures Assessed(t, e, spec, c).Support() == SupportCount(t, all, e, spec, c)
  {
    hide IsIndexOf, OfTags, LeadsToAddress, AnchorKeys, SupportKeys, PropertyAnchors, PropertySupport, Occurs,
        ContextAnchors;
    ContextCount(e.context, c);
    PropertyAnchorCount(t, all, e, spec, c);
    PropertySupportCount(t, all, e, spec, c);
    if c.shortName.Some? {
      ContainsMeaning(c.shortName.value, e.name);
    }
  }

  // ------------------------------------------------------------------ the selection

  /** More anchors, or as many and more support. */
  ghost predicate IsStronger(t: Tables, all: seq<Element>, e: FlyncElement, spec: RuleSpec, d: Element, c: Element) {
    || AnchorCount(t, all, e, spec, d) > AnchorCount(t, all, e, spec, c)
    || (AnchorCount(t, all, e, spec, d) == AnchorCount(t, all, e, spec, c)
        && SupportCount(t, all, e, spec, d) > SupportCount(t, all, e, spec, c))
  }

  ghost predicate IsStrongest(t: Tables, all: seq<Element>, e: FlyncElement, spec: RuleSpec, c: Element) {
    && c in all && c.tag in spec.tags && AnchorCount(t, all, e, spec, c) > 0
    && forall d :: d in all && d.tag in spec.tags ==> !IsStronger(t, all, e, spec, d, c)
  }

  /** Selected are the elements of the types that have an anchor and that no other one is stronger than. */
  lemma SelectedMeaning(t: Tables, all: seq<Element>, e: FlyncElement, spec: RuleSpec, c: Element)
    requires IsIndexOf(t.index, all) && "" !in spec.tags
    ensures c in SelectCandidates(t, e, spec) <==> IsStrongest(t, all, e, spec, c)
  {
    hide IsIndexOf, OfTags, SelectCandidates, AnchorCount, SupportCount, Assessed;
    SelectedIffBest(t, e, spec, c);
    OfTagsMembers(t.index, all, spec.tags);
    forall d ensures Assessed(t, e, spec, d).Anchors() == AnchorCount(t, all, e, spec, d)
                     && Assessed(t, e, spec, d).Support() == SupportCount(t, all, e, spec, d) {
      StrengthMeaning(t, all, e, spec, d);
    }
  }

  // ------------------------------------------------------------------ how often

  /** The candidates of the assessments that are as strong as `top`. */
  lemma {:induction false} AsStrongCount(found: seq<Assessment>, xs: seq<Element>, top: Assessment, c: Element,
                                         assessed: Element -> Assessment)
    requires top.Anchors() > 0 && |found| == |xs|
    requires forall i :: 0 <= i < |xs| ==> found[i] == assessed(xs[i]) && found[i].candidate == xs[i]
    ensures multiset(AsStrong(Credible(found), top))[c]
         == if SameStrength(assessed(c), top) then multiset(xs)[c] else 0
  {
    if xs != [] {
      var n := |xs| - 1;
      AsStrongCount(found[..n], xs[..n], top, c, assessed);
      WithoutLast(xs);
      AsStrongStep(found, top);
    }
  }

  lemma AsStrongStep(found: seq<Assessment>, top: Assessment)
    requires top.Anchors() > 0 && found != []
    ensures AsStrong(Credible(found), top)
         == AsStrong(Credible(found[..|found| - 1]), top)
            + if SameStrength(found[|found| - 1], top) then [found[|found| - 1].candidate] else []
  {
    var before, last := Credible(found[..|found| - 1]), found[|found| - 1];
    if last.Anchors() > 0 {
      assert Credible(found) == before + [last] && (before + [last])[..|before|] == before;
    } else {
      assert Credible(found) == before;
      assert AsStrong(before, top) + [] == AsStrong(before, top);
    }
  }

  /** An element is available as often as it was discovered, for each mention of its tag. */
  function TimesAvailable(all: seq<Element>, tags: seq<string>, c: Element): nat {
    multiset(all)[c] * multiset(tags)[c.tag]
  }

  lemma SelectedIsAsStrong(t: Tables, e: FlyncElement, spec: RuleSpec, c: Element, available: seq<Element>,
                           found: seq<Assessment>)
    requires available == OfTags(t.index, spec.tags) && found == Assessments(t, e, available, spec)
    requires c in SelectCandidates(t, e, spec)
    ensures Credible(found) != [] && SameStrength(Assess(t, e, available, spec, c), Strongest(Credible(found)))
    ensures SelectCandidates(t, e, spec) == SortByKey(AsStrong(Credible(found), Strongest(Credible(found))))
    ensures Strongest(Credible(found)).Anchors() > 0
  {
    hide Assess, OfTags, SameStrength;
    var credible := Credible(found);
    var top := Strongest(credible);
    CredibleMembers(found);
    SortMembers(AsStrong(credible, top), c);
    AsStrongMembers(credible, top, c);
    var a :| a in credible && a.candidate == c && SameStrength(a, top);
    AssessmentsMembers(t, e, spec, a);
  }

  /** A selected element is listed as often as it is available, and the list is in key order. */
  lemma SelectedCount(t: Tables, all: seq<Element>, e: FlyncElement, spec: RuleSpec, c: Element)
    requires IsIndexOf(t.index, all) && "" !in spec.tags
    requires c in SelectCandidates(t, e, spec)
    ensures multiset(SelectCandidates(t, e, spec))[c] == TimesAvailable(all, spec.tags, c)
    ensures SortedByKey(SelectCandidates(t, e, spec))
  {
    var available := OfTags(t.index, spec.tags);
    var found := Assessments(t, e, available, spec);
    var assessed := (x: Element) => Assess(t, e, available, spec, x);
    assert forall i :: 0 <= i < |available| ==>
      found[i] == assessed(available[i]) && found[i].candidate == available[i];
    hide IsIndexOf, OfTags, Assess, Credible, AsStrong, SameStrength, SelectCandidates;
    SelectedIsAsStrong(t, e, spec, c, available, found);
    var top := Strongest(Credible(found));
    AsStrongCount(found, available, top, c, assessed);
    SortHolds(AsStrong(Credible(found), top));
    SortSorts(AsStrong(Credible(found), top));
    OfTagsCount(t.index, all, spec.tags, c);
  }
}
