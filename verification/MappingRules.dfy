/**
 Selecting ARXML candidates for a FLYNC element and gathering evidence about them. Property values are
 given in their textual form; how two values compare after normalization is a parameter.
 */
module MappingRules {
  import opened ArxmlIndex
  import opened ArxmlResolution
  import opened Datatypes
  import opened DatatypeComparison
  import opened MappingStatus
  import opened Wrappers

  datatype PropertyRule = PropertyRule(key: string, leaves: seq<string>, required: bool)
  datatype RuleSpec = RuleSpec(category: string, tags: seq<string>, propertyMap: seq<PropertyRule>)

  datatype FlyncElement = FlyncElement(
    category: string,
    name: string,
    context: seq<(string, Option<string>)>,
    properties: map<string, string>,
    datatype_: Option<DatatypeNode>)

  /** `same(expected, actual)`: equal after normalization. `isNumber(expected)`: normalizes to an integer. */
  datatype Scalars = Scalars(same: (string, string) -> bool, isNumber: string -> bool)

  /** What the rules look at: the index, the scalar comparison and the order of primitive names. */
  datatype Tables = Tables(index: Index, scalars: Scalars, byLength: seq<string>)

  // ------------------------------------------------------------------ values

  function Values(c: Element, leaves: seq<string>): seq<string> {
    if leaves == [] then []
    else
      var leaf := leaves[|leaves| - 1];
      Values(c, leaves[..|leaves| - 1]) + if leaf in c.properties then c.properties[leaf] else []
  }

  predicate AnySame(scalars: Scalars, expected: string, actual: seq<string>) {
    exists v :: v in actual && scalars.same(expected, v)
  }

  function ContextValue(context: seq<(string, Option<string>)>, key: string): Option<string> {
    if context == [] then None
    else if context[0].0 == key then context[0].1 else ContextValue(context[1..], key)
  }

  // ------------------------------------------------------------------ candidates

  /** Anchors from the context are listed; those from properties form a set. */
  datatype Assessment = Assessment(
    candidate: Element,
    contextAnchors: seq<string>,
    propertyAnchors: set<string>,
    contextSupport: seq<string>,
    propertySupport: set<string>)
  {
    function Anchors(): nat {
      |contextAnchors| + |propertyAnchors|
    }

    function Support(): nat {
      |contextSupport| + |propertySupport|
    }
  }

  function ContextAnchors(context: seq<(string, Option<string>)>, c: Element): seq<string> {
    if context == [] then []
    else
      var (key, value) := context[|context| - 1];
      ContextAnchors(context[..|context| - 1], c)
      + if value.Some? && value.value in c.hierarchy then ["context:" + key] else []
  }

  function NameAnchors(name: string, c: Element): seq<string> {
    if c.shortName == Some(name) then ["compatible-concept-type"] else []
  }

  function NameSupport(name: string, c: Element): seq<string> {
    if c.shortName == Some(name) then ["exact-name"]
    else if c.shortName.Some? && c.shortName.value != "" && Contains(c.shortName.value, name) then ["similar-name"]
    else []
  }

  /** How many of the available elements have the expected value. */
  function Sharing(scalars: Scalars, available: seq<Element>, rule: PropertyRule, expected: string): nat {
    if available == [] then 0
    else
      Sharing(scalars, available[..|available| - 1], rule, expected)
      + if AnySame(scalars, expected, Values(available[|available| - 1], rule.leaves)) then 1 else 0
  }

  predicate PropertyMatches(t: Tables, e: FlyncElement, c: Element, rule: PropertyRule) {
    rule.key in e.properties && AnySame(t.scalars, e.properties[rule.key], Values(c, rule.leaves))
  }

  /** Ports, and numbers that several elements share, only support. */
  predicate OnlySupports(t: Tables, e: FlyncElement, available: seq<Element>, rule: PropertyRule)
    requires rule.key in e.properties
  {
    var expected := e.properties[rule.key];
    rule.key in {"port", "port_no"}
      || (t.scalars.isNumber(expected) && Sharing(t.scalars, available, rule, expected) > 1)
  }

  predicate HasEndpointIp(t: Tables, e: FlyncElement, c: Element) {
    && e.category == "socket"
    && "endpoint_address" in e.properties
    && exists r, key ::
      && r in c.references
      && key in Resolve(t.index, r.value, Some(c), r.dest).candidates
      && key in t.index.byKey
      && AnySame(t.scalars, e.properties["endpoint_address"], Values(t.index.byKey[key], ["IPV-4-ADDRESS"]))
  }

  function PropertyAnchors(t: Tables, e: FlyncElement, c: Element, available: seq<Element>,
                           rules: seq<PropertyRule>): set<string> {
    (set rule | rule in rules && PropertyMatches(t, e, c, rule)
      && !OnlySupports(t, e, available, rule) :: "property:" + rule.key)
    + if HasEndpointIp(t, e, c) then {"resolved-endpoint-ip"} else {}
  }

  function PropertySupport(t: Tables, e: FlyncElement, c: Element, available: seq<Element>,
                           rules: seq<PropertyRule>): set<string> {
    set rule | rule in rules && PropertyMatches(t, e, c, rule)
      && OnlySupports(t, e, available, rule) :: "property:" + rule.key
  }

  function Assess(t: Tables, e: FlyncElement, available: seq<Element>, spec: RuleSpec, c: Element): Assessment {
    Assessment(c,
               NameAnchors(e.name, c) + ContextAnchors(e.context, c),
               PropertyAnchors(t, e, c, available, spec.propertyMap),
               NameSupport(e.name, c),
               PropertySupport(t, e, c, available, spec.propertyMap))
  }

  /** The lexicographic order of (anchors, supporting). */
  predicate Weaker(a: Assessment, b: Assessment) {
    a.Anchors() < b.Anchors() || (a.Anchors() == b.Anchors() && a.Support() < b.Support())
  }

  function Credible(assessments: seq<Assessment>): seq<Assessment> {
    if assessments == [] then []
    else
      var last := assessments[|assessments| - 1];
      Credible(assessments[..|assessments| - 1]) + if last.Anchors() > 0 then [last] else []
  }

  function Strongest(assessments: seq<Assessment>): (r: Assessment)
    requires assessments != []
    ensures r in assessments && forall a :: a in assessments ==> !Weaker(r, a)
  {
    if |assessments| == 1 then assessments[0]
    else
      var n := |assessments| - 1;
      var r := Strongest(assessments[..n]);
      assert assessments == assessments[..n] + [assessments[n]];
      if Weaker(r, assessments[n]) then assessments[n] else r
  }

  /** The candidates that are as strong as `top`. */
  function AsStrong(assessments: seq<Assessment>, top: Assessment): seq<Element> {
    if assessments == [] then []
    else
      var last := assessments[|assessments| - 1];
      AsStrong(assessments[..|assessments| - 1], top)
      + if last.Anchors() == top.Anchors() && last.Support() == top.Support() then [last.candidate] else []
  }

  function Assessments(t: Tables, e: FlyncElement, available: seq<Element>, spec: RuleSpec): (r: seq<Assessment>)
    ensures |r| == |available|
    ensures forall i :: 0 <= i < |r| ==> r[i] == Assess(t, e, available, spec, available[i])
  {
    seq(|available|, i requires 0 <= i < |available| => Assess(t, e, available, spec, available[i]))
  }

  function SelectCandidates(t: Tables, e: FlyncElement, spec: RuleSpec): seq<Element> {
    var available := OfTags(t.index, spec.tags);
    var credible := Credible(Assessments(t, e, available, spec));
    if credible == [] then [] else SortByKey(AsStrong(credible, Strongest(credible)))
  }

  // ------------------------------------------------------------------ evidence

  /** The values of all candidates at some leaves. */
  function AllValues(candidates: seq<Element>, leaves: seq<string>): seq<string> {
    if candidates == [] then []
        else AllValues(candidates[..|candidates| - 1], leaves) + Values(candidates[|candidates| - 1], leaves)
  }

  function ResultOf(scalars: Scalars, expected: string, actual: seq<string>): MatchResult {
    if actual == [] then Absent else if AnySame(scalars, expected, actual) then Matched else Mismatched
  }

  function PropertyEvidence(t: Tables, e: FlyncElement, candidates: seq<Element>,
                            rules: seq<PropertyRule>): seq<Evidence> {
    if rules == [] then []
    else
      var rule := rules[|rules| - 1];
      PropertyEvidence(t, e, candidates, rules[..|rules| - 1])
      + if rule.key in e.properties
        then [Evidence(rule.key, ResultOf(t.scalars, e.properties[rule.key], AllValues(candidates, rule.leaves)),
            rule.required)]
        else []
  }

  const SOCKET_RULES: seq<PropertyRule> := [
    PropertyRule("port", ["PORT-NUMBER"], true),
    PropertyRule("protocol", ["PROTOCOL", "TCP-UDP-CONFIG"], true),
    PropertyRule("ip", ["IPV-4-ADDRESS"], true),
    PropertyRule("vlan", ["VLAN-IDENTIFIER"], false)
  ]

  function SocketEvidence(t: Tables, e: FlyncElement, candidates: seq<Element>,
                          rules: seq<PropertyRule>): seq<Evidence> {
    if rules == [] then []
    else
      var rule := rules[|rules| - 1];
      var expected := ContextValue(e.context, rule.key);
      SocketEvidence(t, e, candidates, rules[..|rules| - 1])
      + if expected.Some?
        then [Evidence("socket-" + rule.key, ResultOf(t.scalars, expected.value, AllValues(candidates, rule.leaves)),
            rule.required)]
        else []
  }

  function ReferenceResult(s: State): MatchResult {
    match s case Resolved => Matched case Ambiguous => Ambiguity case Missing => Unresolved
  }

  function ReferenceEvidence(t: Tables, c: Element, references: seq<Reference>): seq<Evidence> {
    if references == [] then []
    else
      var r := references[|references| - 1];
      ReferenceEvidence(t, c, references[..|references| - 1])
      + [Evidence("reference:" + r.kind, ReferenceResult(Resolve(t.index, r.value, Some(c), r.dest).state), false)]
  }

  function AllReferences(t: Tables, candidates: seq<Element>): seq<Evidence> {
    if candidates == [] then []
    else
      var c := candidates[|candidates| - 1];
      AllReferences(t, candidates[..|candidates| - 1]) + ReferenceEvidence(t, c, c.references)
  }

  function SpecialEvidence(t: Tables, e: FlyncElement, candidates: seq<Element>): seq<Evidence> {
    (if e.category == "socket" then SocketEvidence(t, e, candidates, SOCKET_RULES) else []) + AllReferences(t,
        candidates)
  }

  predicate AnyNamed(candidates: seq<Element>, name: string) {
    exists c :: c in candidates && c.shortName == Some(name)
  }

  /** Evidence from names, types and the number of candidates. */
  function GeneralEvidence(e: FlyncElement, candidates: seq<Element>): seq<Evidence> {
    [Evidence("short-name", if AnyNamed(candidates, e.name) then Supporting else Transformed, false),
     Evidence("element-type", Supporting, false)]
    + if |candidates| > 1 then [Evidence("candidate-context", Ambiguity, true)] else []
  }

  /** What is said when nothing was selected: a name hint if there is one, and the missing candidate. */
  function NothingFound(t: Tables, e: FlyncElement, spec: RuleSpec): seq<Evidence> {
    (if AnyNamed(OfTags(t.index, spec.tags), e.name) then [Evidence("short-name", Supporting, false)] else [])
    + [Evidence("candidate", Absent, true)]
  }

  function Gathered(t: Tables, e: FlyncElement, spec: RuleSpec, candidates: seq<Element>): seq<Evidence> {
    if candidates == [] then NothingFound(t, e, spec)
    else GeneralEvidence(e, candidates) + PropertyEvidence(t, e, candidates, spec.propertyMap) + SpecialEvidence(t, e,
        candidates)
  }

  method GatherProperties(t: Tables, e: FlyncElement, candidates: seq<Element>,
                          rules: seq<PropertyRule>) returns (evidence: seq<Evidence>)
    ensures evidence == PropertyEvidence(t, e, candidates, rules)
  {
    evidence := [];
    for i := 0 to |rules|
      invariant evidence == PropertyEvidence(t, e, candidates, rules[..i])
    {
      assert rules[..i + 1][..i] == rules[..i];
      if rules[i].key !in e.properties {
        continue;
      }
      var expected, actual := e.properties[rules[i].key], AllValues(candidates, rules[i].leaves);
      var result := if actual == [] then Absent else if AnySame(t.scalars, expected, actual) then Matched
          else Mismatched;
      evidence := evidence + [Evidence(rules[i].key, result, rules[i].required)];
    }
    assert rules[..|rules|] == rules;
  }

  method GatherSocket(t: Tables, e: FlyncElement, candidates: seq<Element>,
                      rules: seq<PropertyRule>) returns (evidence: seq<Evidence>)
    ensures evidence == SocketEvidence(t, e, candidates, rules)
  {
    evidence := [];
    for i := 0 to |rules|
      invariant evidence == SocketEvidence(t, e, candidates, rules[..i])
    {
      assert rules[..i + 1][..i] == rules[..i];
      var expected := ContextValue(e.context, rules[i].key);
      if expected.None? {
        continue;
      }
      var actual := AllValues(candidates, rules[i].leaves);
      var result := if AnySame(t.scalars, expected.value, actual) then Matched else if actual == [] then Absent
          else Mismatched;
      evidence := evidence + [Evidence("socket-" + rules[i].key, result, rules[i].required)];
    }
    assert rules[..|rules|] == rules;
  }

  method GatherReferences(t: Tables, candidates: seq<Element>) returns (evidence: seq<Evidence>)
    ensures evidence == AllReferences(t, candidates)
  {
    evidence := [];
    for i := 0 to |candidates|
      invariant evidence == AllReferences(t, candidates[..i])
    {
      assert candidates[..i + 1][..i] == candidates[..i];
      var c := candidates[i];
      ghost var start := evidence;
      for k := 0 to |c.references|
        invariant evidence == start + ReferenceEvidence(t, c, c.references[..k])
      {
        assert c.references[..k + 1][..k] == c.references[..k];
        var r := c.references[k];
        var resolution := Resolve(t.index, r.value, Some(c), r.dest);
        evidence := evidence + [Evidence("reference:" + r.kind, ReferenceResult(resolution.state), false)];
      }
      assert c.references[..|c.references|] == c.references;
    }
    assert candidates[..|candidates|] == candidates;
  }

  /** An element with a registered rule. */
  method ResolveWithRule(t: Tables, e: FlyncElement, spec: RuleSpec) returns (candidates: seq<Element>,
                         evidence: seq<Evidence>)
    ensures candidates == SelectCandidates(t, e, spec)
    ensures evidence == Gathered(t, e, spec, candidates)
  {
    candidates := SelectCandidates(t, e, spec);
    if candidates == [] {
      evidence := NothingFound(t, e, spec);
      return;
    }
    var properties := GatherProperties(t, e, candidates, spec.propertyMap);
    var special: seq<Evidence> := [];
    if e.category == "socket" {
      special := GatherSocket(t, e, candidates, SOCKET_RULES);
    }
    var references := GatherReferences(t, candidates);
    evidence := GeneralEvidence(e, candidates) + properties + (special + references);
  }

  // ------------------------------------------------------------------ datatypes

  function NamedLike(xs: seq<Element>, name: string): seq<Element> {
    Kept(xs, (c: Element) => c.shortName == Some(name))
  }

  /** Parameter prototypes of this name; variable prototypes only where there is no argument prototype. */
  function Parameters(t: Tables, name: string): seq<Element> {
    var arguments := NamedLike(LookUp(t.index.byTag, "ARGUMENT-DATA-PROTOTYPE"), name);
    SortByKey(if arguments != [] then arguments else NamedLike(LookUp(t.index.byTag, "VARIABLE-DATA-PROTOTYPE"), name))
  }

  function TypeEvidence(t: Tables, e: FlyncElement, c: Element, refs: seq<Reference>): seq<Evidence>
    requires KeyedIndex(t.index)
  {
    if refs == [] then []
    else
      var last := refs[|refs| - 1];
      TypeEvidence(t, e, c, refs[..|refs| - 1]) + OneTypeEvidence(t, e, c, last)
  }

  function OneTypeEvidence(t: Tables, e: FlyncElement, c: Element, r: Reference): seq<Evidence>
    requires KeyedIndex(t.index)
  {
    var target := TargetOf(t.index, c, r);
    if target.None? then
      var state := Resolve(t.index, r.value, Some(c), r.dest).state;
      [Evidence("datatype-reference", if state == Ambiguous then Ambiguity else Unresolved, true)]
    else if e.datatype_.None? then []
    else Comparing(e.datatype_.value, Some(Normalize(target.value, t.index, {}, t.byLength)))
  }

  /** The evidence of one parameter prototype. */
  function OneParameter(t: Tables, e: FlyncElement, c: Element): seq<Evidence>
    requires KeyedIndex(t.index)
  {
    if TypeRefs(c.references) == [] then [Evidence("datatype-reference", Absent, true)]
    else TypeEvidence(t, e, c, TypeRefs(c.references))
  }

  function ParameterEvidence(t: Tables, e: FlyncElement, candidates: seq<Element>): seq<Evidence>
    requires KeyedIndex(t.index)
  {
    if candidates == [] then []
    else
      var c := candidates[|candidates| - 1];
      ParameterEvidence(t, e, candidates[..|candidates| - 1]) + OneParameter(t, e, c)
  }

  function DatatypeEvidence(t: Tables, e: FlyncElement, candidates: seq<Element>): seq<Evidence>
    requires KeyedIndex(t.index)
  {
    if candidates == [] then [Evidence("datatype-parameter", Absent, true)]
    else
      (if |candidates| > 1 then [Evidence("datatype-parameter", Ambiguity, true)] else [])
      + ParameterEvidence(t, e, candidates)
  }

  method GatherTypes(t: Tables, e: FlyncElement, c: Element, refs: seq<Reference>) returns (evidence: seq<Evidence>)
    requires KeyedIndex(t.index)
    ensures evidence == TypeEvidence(t, e, c, refs)
  {
    evidence := [];
    for i := 0 to |refs|
      invariant evidence == TypeEvidence(t, e, c, refs[..i])
    {
      assert refs[..i + 1][..i] == refs[..i];
      var r := refs[i];
      var target := TargetOf(t.index, c, r);
      if target.None? {
        var result := if Resolve(t.index, r.value, Some(c), r.dest).state == Ambiguous then Ambiguity else Unresolved;
        evidence := evidence + [Evidence("datatype-reference", result, true)];
        continue;
      }
      if e.datatype_.Some? {
        var compared := CompareDatatypes(e.datatype_.value, Some(Normalize(target.value, t.index, {}, t.byLength)));
        evidence := evidence + compared;
      }
    }
    assert refs[..|refs|] == refs;
  }

  method GatherParameter(t: Tables, e: FlyncElement, c: Element) returns (evidence: seq<Evidence>)
    requires KeyedIndex(t.index)
    ensures evidence == OneParameter(t, e, c)
  {
    var refs := TypeRefs(c.references);
    if refs == [] {
      return [Evidence("datatype-reference", Absent, true)];
    }
    evidence := GatherTypes(t, e, c, refs);
  }

  method GatherParameters(t: Tables, e: FlyncElement, candidates: seq<Element>) returns (evidence: seq<Evidence>)
    requires KeyedIndex(t.index)
    ensures evidence == ParameterEvidence(t, e, candidates)
  {
    evidence := [];
    for i := 0 to |candidates|
      invariant evidence == ParameterEvidence(t, e, candidates[..i])
    {
      assert candidates[..i + 1][..i] == candidates[..i];
      var one := GatherParameter(t, e, candidates[i]);
      evidence := evidence + one;
    }
    assert candidates[..|candidates|] == candidates;
  }

  method ResolveDatatype(t: Tables, e: FlyncElement) returns (candidates: seq<Element>, evidence: seq<Evidence>)
    requires KeyedIndex(t.index)
    ensures candidates == Parameters(t, e.name)
    ensures evidence == DatatypeEvidence(t, e, candidates)
  {
    candidates := Parameters(t, e.name);
    if candidates == [] {
      evidence := [Evidence("datatype-parameter", Absent, true)];
      return;
    }
    var ambiguity := if |candidates| > 1 then [Evidence("datatype-parameter", Ambiguity, true)] else [];
    var parameters := GatherParameters(t, e, candidates);
    evidence := ambiguity + parameters;
  }

  // ------------------------------------------------------------------ the entry point

  type Rules = map<string, RuleSpec>

  function CandidatesOf(t: Tables, rules: Rules, e: FlyncElement): seq<Element> {
    if e.category == "datatype" then Parameters(t, e.name)
    else if e.category in rules then SelectCandidates(t, e, rules[e.category])
    else []
  }

  function EvidenceOf(t: Tables, rules: Rules, e: FlyncElement): seq<Evidence>
    requires KeyedIndex(t.index)
  {
    if e.category == "datatype" then DatatypeEvidence(t, e, CandidatesOf(t, rules, e))
    else if e.category in rules then Gathered(t, e, rules[e.category], CandidatesOf(t, rules, e))
    else [Evidence("supported-category", Absent, true)]
  }

  method ResolveElement(t: Tables, rules: Rules, e: FlyncElement) returns (candidates: seq<Element>,
                        evidence: seq<Evidence>)
    requires KeyedIndex(t.index)
    ensures candidates == CandidatesOf(t, rules, e)
    ensures evidence == EvidenceOf(t, rules, e)
  {
    if e.category == "datatype" {
      candidates, evidence := ResolveDatatype(t, e);
    } else if e.category in rules {
      candidates, evidence := ResolveWithRule(t, e, rules[e.category]);
    } else {
      candidates, evidence := [], [Evidence("supported-category", Absent, true)];
    }
  }
}
