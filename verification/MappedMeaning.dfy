/**
 When an element is mapped, said of its candidate: the values they share, the context of a socket, and what the
 candidate's references lead to.
 */
module MappedMeaning {
  import opened ArxmlIndex
  import opened ArxmlResolution
  import opened ArxmlMeaning
  import opened Datatypes
  import opened DatatypeKinds
  import opened DatatypeComparison
  import opened MappingRules
  import opened MappingStatus
  import opened MappingGuarantees
  import opened MappingMeaning
  import opened Wrappers

  // ------------------------------------------------------------------ what references lead to

  /** Two elements may be meant, or one that was discovered twice. */
  ghost predicate MeansSeveral(all: seq<Element>, c: Element, r: Reference) {
    exists x, y ::
      && IsTarget(all, x, r.value, Some(c), r.dest) && IsTarget(all, y, r.value, Some(c), r.dest)
      && (x != y || multiset(all)[x] > 1)
  }

  ghost predicate MeansSome(all: seq<Element>, c: Element, r: Reference) {
    exists x :: IsTarget(all, x, r.value, Some(c), r.dest)
  }

  lemma LeadsMeaning(t: Tables, all: seq<Element>, c: Element, r: Reference)
    requires IsIndexOf(t.index, all)
    ensures Leads(t, c, r, Ambiguous) <==> MeansSeveral(all, c, r)
    ensures Leads(t, c, r, Missing) <==> !MeansSome(all, c, r)
    ensures Leads(t, c, r, Resolved) <==> MeansSome(all, c, r) && !MeansSeveral(all, c, r)
  {
    hide IsIndexOf, IsTarget, Resolve;
    ResolveMeaning(t.index, all, r.value, Some(c), r.dest);
    if MeansSeveral(all, c, r) {
      var x, y :|
        && IsTarget(all, x, r.value, Some(c), r.dest) && IsTarget(all, y, r.value, Some(c), r.dest)
        && (x != y || multiset(all)[x] > 1);
      assert MeansSome(all, c, r);
    }
  }

  // ------------------------------------------------------------------ elements with a rule

  /** Every required property of the element has a value that the candidate shares. */
  ghost predicate SharesRequired(t: Tables, e: FlyncElement, spec: RuleSpec, c: Element) {
    forall rule :: rule in spec.propertyMap && rule.required && rule.key in e.properties ==>
      SharesValue(t.scalars, e.properties[rule.key], c, rule.leaves)
  }

  /** What the context gives for the key, if anything, is a value that the candidate shares. */
  ghost predicate SharesContext(t: Tables, e: FlyncElement, c: Element, key: string, leaves: seq<string>) {
    forall v :: ContextGives(e.context, key, v) ==> SharesValue(t.scalars, v, c, leaves)
  }

  ghost predicate HasSharedContext(t: Tables, e: FlyncElement, c: Element, key: string, leaves: seq<string>) {
    exists v :: ContextGives(e.context, key, v) && SharesValue(t.scalars, v, c, leaves)
  }

  /** The port, the protocol and the address of a socket. */
  ghost predicate SharesSocket(t: Tables, e: FlyncElement, c: Element) {
    e.category == "socket" ==>
      && SharesContext(t, e, c, "port", ["PORT-NUMBER"])
      && SharesContext(t, e, c, "protocol", ["PROTOCOL", "TCP-UDP-CONFIG"])
      && SharesContext(t, e, c, "ip", ["IPV-4-ADDRESS"])
  }

  /** Something beyond names and types is shared. */
  ghost predicate SharesSomething(t: Tables, all: seq<Element>, e: FlyncElement, spec: RuleSpec, c: Element) {
    || (exists rule ::
          && rule in spec.propertyMap && rule.key in e.properties
          && rule.key != "short-name" && rule.key != "element-type" && rule.key != "candidate-context"
          && SharesValue(t.scalars, e.properties[rule.key], c, rule.leaves))
    || (e.category == "socket"
        && (|| HasSharedContext(t, e, c, "port", ["PORT-NUMBER"])
            || HasSharedContext(t, e, c, "protocol", ["PROTOCOL", "TCP-UDP-CONFIG"])
            || HasSharedContext(t, e, c, "ip", ["IPV-4-ADDRESS"])
            || HasSharedContext(t, e, c, "vlan", ["VLAN-IDENTIFIER"])))
    || (exists r :: r in c.references && MeansSome(all, c, r) && !MeansSeveral(all, c, r))
  }

  ghost predicate IsMapped(t: Tables, all: seq<Element>, e: FlyncElement, spec: RuleSpec, candidates: seq<Element>) {
    && |candidates| == 1
    && SharesRequired(t, e, spec, candidates[0])
    && SharesSocket(t, e, candidates[0])
    && (forall r :: r in candidates[0].references ==> !MeansSeveral(all, candidates[0], r))
    && SharesSomething(t, all, e, spec, candidates[0])
  }

  lemma MatchesMeaning(t: Tables, expected: string, c: Element, rule: PropertyRule)
    ensures RuleMatches(t, expected, c, rule) <==> SharesValue(t.scalars, expected, c, rule.leaves)
  {
    SharesMeaning(t.scalars, expected, c, rule.leaves);
  }

  lemma ContextIsGiven(context: seq<(string, Option<string>)>, key: string)
    ensures ContextValue(context, key).Some? ==> ContextGives(context, key, ContextValue(context, key).value)
    ensures forall v :: ContextGives(context, key, v) ==> ContextValue(context, key) == Some(v)
  {
    forall v ensures ContextValue(context, key) == Some(v) <==> ContextGives(context, key, v) {
      ContextMeaning(context, key, v);
    }
  }

  lemma SocketRuleMeaning(t: Tables, e: FlyncElement, c: Element, rule: PropertyRule)
    ensures SocketMatches(t, e, c, rule) <==> HasSharedContext(t, e, c, rule.key, rule.leaves)
    ensures SocketFails(t, e, c, rule) <==> rule.required && !SharesContext(t, e, c, rule.key, rule.leaves)
  {
    hide ContextValue, ContextGives, RuleMatches, SharesValue;
    ContextIsGiven(e.context, rule.key);
    if ContextValue(e.context, rule.key).Some? {
      MatchesMeaning(t, ContextValue(e.context, rule.key).value, c, rule);
    }
  }

  lemma SocketRules(rule: PropertyRule)
    ensures rule in SOCKET_RULES <==>
              || rule == PropertyRule("port", ["PORT-NUMBER"], true)
              || rule == PropertyRule("protocol", ["PROTOCOL", "TCP-UDP-CONFIG"], true)
              || rule == PropertyRule("ip", ["IPV-4-ADDRESS"], true)
              || rule == PropertyRule("vlan", ["VLAN-IDENTIFIER"], false)
  {
  }

  lemma SocketMeaning(t: Tables, e: FlyncElement, c: Element)
    ensures SocketPreserved(t, e, c) <==> SharesSocket(t, e, c)
    ensures (exists r :: r in SOCKET_RULES && SocketMatches(t, e, c, r)) <==>
              || HasSharedContext(t, e, c, "port", ["PORT-NUMBER"])
              || HasSharedContext(t, e, c, "protocol", ["PROTOCOL", "TCP-UDP-CONFIG"])
              || HasSharedContext(t, e, c, "ip", ["IPV-4-ADDRESS"])
              || HasSharedContext(t, e, c, "vlan", ["VLAN-IDENTIFIER"])
  {
    var port := PropertyRule("port", ["PORT-NUMBER"], true);
    var protocol := PropertyRule("protocol", ["PROTOCOL", "TCP-UDP-CONFIG"], true);
    var ip := PropertyRule("ip", ["IPV-4-ADDRESS"], true);
    var vlan := PropertyRule("vlan", ["VLAN-IDENTIFIER"], false);
    forall r ensures r in SOCKET_RULES <==> r == port || r == protocol || r == ip || r == vlan {
      SocketRules(r);
    }
    SocketRuleMeaning(t, e, c, port);
    SocketRuleMeaning(t, e, c, protocol);
    SocketRuleMeaning(t, e, c, ip);
    SocketRuleMeaning(t, e, c, vlan);
    hide SocketMatches, SocketFails, HasSharedContext, SharesContext;
    assert port in SOCKET_RULES && protocol in SOCKET_RULES && ip in SOCKET_RULES && vlan in SOCKET_RULES;
  }

  lemma RequiredMeaning(t: Tables, e: FlyncElement, spec: RuleSpec, c: Element)
    ensures PropertiesPreserved(t, e, spec, c) <==> SharesRequired(t, e, spec, c)
  {
    hide RuleMatches, SharesValue;
    forall rule: PropertyRule | rule.key in e.properties
      ensures RuleMatches(t, e.properties[rule.key], c, rule)
              <==> SharesValue(t.scalars, e.properties[rule.key], c, rule.leaves)
    {
      MatchesMeaning(t, e.properties[rule.key], c, rule);
    }
  }

  lemma StrongMeaning(t: Tables, all: seq<Element>, e: FlyncElement, spec: RuleSpec, c: Element)
    requires IsIndexOf(t.index, all)
    ensures HasStrongMatch(t, e, spec, c) <==> SharesSomething(t, all, e, spec, c)
  {
    hide RuleMatches, SharesValue, Leads, MeansSome, MeansSeveral, SocketMatches, HasSharedContext, IsIndexOf;
    forall rule: PropertyRule | rule.key in e.properties
      ensures RuleMatches(t, e.properties[rule.key], c, rule)
              <==> SharesValue(t.scalars, e.properties[rule.key], c, rule.leaves)
    {
      MatchesMeaning(t, e.properties[rule.key], c, rule);
    }
    forall r ensures Leads(t, c, r, Resolved) <==> MeansSome(all, c, r) && !MeansSeveral(all, c, r) {
      LeadsMeaning(t, all, c, r);
    }
    SocketMeaning(t, e, c);
  }

  /** An element with a rule is mapped exactly under these conditions on its candidate. */
  lemma MappedMeans(t: Tables, all: seq<Element>, e: FlyncElement, spec: RuleSpec, candidates: seq<Element>)
    requires IsIndexOf(t.index, all)
    ensures CalculateStatus(|candidates|, Gathered(t, e, spec, candidates)) == Mapped
            <==> IsMapped(t, all, e, spec, candidates)
  {
    hide Gathered, CalculateStatus, IsIndexOf, Leads, MeansSeveral, PropertiesPreserved, SharesRequired,
        SocketPreserved, SharesSocket, HasStrongMatch, SharesSomething;
    MappedIff(t, e, spec, candidates);
    if |candidates| == 1 {
      var c := candidates[0];
      RequiredMeaning(t, e, spec, c);
      SocketMeaning(t, e, c);
      StrongMeaning(t, all, e, spec, c);
      forall r ensures Leads(t, c, r, Ambiguous) <==> MeansSeveral(all, c, r) {
        LeadsMeaning(t, all, c, r);
      }
    }
  }

  /** Without a candidate an element is not mapped; with one, and not mapped, it is partial. */
  lemma StatusMeaning(count: nat, evidence: seq<Evidence>)
    ensures CalculateStatus(count, evidence) == NotMapped <==> count == 0
    ensures CalculateStatus(count, evidence) == Mapped <==>
              && count > 0
              && (forall x :: x in evidence ==> (x.required ==> x.result == Matched) && x.result != Ambiguity)
              && exists x :: x in evidence && x.result == Matched
                             && x.kind != "short-name" && x.kind != "element-type" && x.kind != "candidate-context"
  {
  }

  // ------------------------------------------------------------------ datatype elements

  ghost predicate IsPrototype(all: seq<Element>, c: Element, tag: string, name: string) {
    c in all && c.tag == tag && c.shortName == Some(name)
  }

  lemma PrototypesNamed(t: Tables, all: seq<Element>, tag: string, name: string, c: Element)
    requires IsIndexOf(t.index, all) && tag != ""
    ensures c in NamedLike(LookUp(t.index.byTag, tag), name) <==> IsPrototype(all, c, tag, name)
    ensures c in NamedLike(LookUp(t.index.byTag, tag), name) ==>
              multiset(NamedLike(LookUp(t.index.byTag, tag), name))[c] == multiset(all)[c]
  {
    var named := (x: Element) => x.shortName == Some(name);
    var found := LookUp(t.index.byTag, tag);
    LookUpIsScan(t.index, all, tag, c);
    LookUpTagCount(t.index, all, tag, c);
    hide IsIndexOf, LookUp;
    KeptMembers(found, named);
    KeptCount(found, named, c);
  }

  /** Argument prototypes of the name; variable prototypes where there is no argument prototype. */
  lemma ParametersMeaning(t: Tables, all: seq<Element>, name: string, c: Element)
    requires IsIndexOf(t.index, all)
    ensures c in Parameters(t, name) <==>
              || IsPrototype(all, c, "ARGUMENT-DATA-PROTOTYPE", name)
              || (IsPrototype(all, c, "VARIABLE-DATA-PROTOTYPE", name)
                  && forall d :: !IsPrototype(all, d, "ARGUMENT-DATA-PROTOTYPE", name))
    ensures c in Parameters(t, name) ==> multiset(Parameters(t, name))[c] == multiset(all)[c]
    ensures SortedByKey(Parameters(t, name))
  {
    hide IsIndexOf, LookUp, NamedLike, IsPrototype;
    var arguments := NamedLike(LookUp(t.index.byTag, "ARGUMENT-DATA-PROTOTYPE"), name);
    var variables := NamedLike(LookUp(t.index.byTag, "VARIABLE-DATA-PROTOTYPE"), name);
    forall d ensures d in arguments <==> IsPrototype(all, d, "ARGUMENT-DATA-PROTOTYPE", name) {
      PrototypesNamed(t, all, "ARGUMENT-DATA-PROTOTYPE", name, d);
    }
    PrototypesNamed(t, all, "ARGUMENT-DATA-PROTOTYPE", name, c);
    PrototypesNamed(t, all, "VARIABLE-DATA-PROTOTYPE", name, c);
    var kept := if arguments != [] then arguments else variables;
    assert Parameters(t, name) == SortByKey(kept);
    SortMembers(kept, c);
    SortHolds(kept);
    SortSorts(kept);
    if arguments != [] {
      assert arguments[0] in arguments;
    }
  }

  /** The reference means one element, and the datatype embeds in the expansion of what stands under its key. */
  ghost predicate LeadsToEmbedding(t: Tables, all: seq<Element>, datatype_: DatatypeNode, c: Element, r: Reference)
    requires KeyedIndex(t.index)
  {
    && MeansSome(all, c, r) && !MeansSeveral(all, c, r)
    && forall y, x: Element :: IsTarget(all, y, r.value, Some(c), r.dest) && x.key == y.key && IsLastOfKey(all, x) ==>
         Embeds(datatype_, Normalize(x, t.index, {}, t.byLength))
  }

  ghost predicate IsTypeOf(c: Element, r: Reference) {
    r in c.references && Occurs(r.kind, "TYPE")
  }

  ghost predicate IsMappedDatatype(t: Tables, all: seq<Element>, e: FlyncElement, candidates: seq<Element>)
    requires KeyedIndex(t.index)
  {
    && |candidates| == 1 && e.datatype_.Some?
    && (exists r :: IsTypeOf(candidates[0], r))
    && forall r :: IsTypeOf(candidates[0], r) ==> LeadsToEmbedding(t, all, e.datatype_.value, candidates[0], r)
  }

  lemma TypeRefMembers(references: seq<Reference>, r: Reference)
    ensures r in TypeRefs(references) <==> r in references && Occurs(r.kind, "TYPE")
  {
    var at := TypeRefsMeaning(references);
    if r in TypeRefs(references) {
      var i :| 0 <= i < |TypeRefs(references)| && TypeRefs(references)[i] == r;
      assert at[i] in at;
    }
    if r in references && Occurs(r.kind, "TYPE") {
      var k :| 0 <= k < |references| && references[k] == r;
      assert k in at;
      var i :| 0 <= i < |at| && at[i] == k;
      assert TypeRefs(references)[i] == r;
    }
  }

  /** The target of a reference that resolves: the last element of the key of the one that is meant. */
  lemma TargetMeaning(t: Tables, all: seq<Element>, c: Element, r: Reference, x: Element)
    requires IsIndexOf(t.index, all)
    ensures TargetOf(t.index, c, r).Some? <==> MeansSome(all, c, r) && !MeansSeveral(all, c, r)
    ensures TargetOf(t.index, c, r).Some? ==>
              (TargetOf(t.index, c, r) == Some(x) <==>
                 IsLastOfKey(all, x) && exists y :: IsTarget(all, y, r.value, Some(c), r.dest) && x.key == y.key)
  {
    hide IsIndexOf, IsTarget, Resolve, IsLastOfKey, MeansSome, MeansSeveral;
    LeadsMeaning(t, all, c, r);
    ResolvedHasTarget(t.index, all, c, r);
    ResolveMeaning(t.index, all, r.value, Some(c), r.dest);
    if TargetOf(t.index, c, r).Some? {
      var resolution := Resolve(t.index, r.value, Some(c), r.dest);
      var key := resolution.candidates[0];
      assert key in resolution.candidates;
      assert forall k :: k in resolution.candidates ==> k == key;
      ByKeyMeaning(t.index, all, x);
      if TargetOf(t.index, c, r) == Some(x) {
        AnswersAreIndexed(t.index, all, r.value, Some(c), r.dest, key);
      }
    }
  }

  lemma EmbeddingMeaning(t: Tables, all: seq<Element>, datatype_: DatatypeNode, c: Element, r: Reference)
    requires KeyedIndex(t.index) && IsIndexOf(t.index, all)
    ensures TargetOf(t.index, c, r).Some?
              && Embeds(datatype_, Normalize(TargetOf(t.index, c, r).value, t.index, {}, t.byLength))
            <==> LeadsToEmbedding(t, all, datatype_, c, r)
  {
    hide IsIndexOf, IsTarget, TargetOf, Embeds, Normalize, IsLastOfKey, MeansSome, MeansSeveral;
    forall x
      ensures TargetOf(t.index, c, r).Some? <==> MeansSome(all, c, r) && !MeansSeveral(all, c, r)
      ensures TargetOf(t.index, c, r).Some? ==>
                (TargetOf(t.index, c, r) == Some(x) <==>
                   IsLastOfKey(all, x) && exists y :: IsTarget(all, y, r.value, Some(c), r.dest) && x.key == y.key)
    {
      TargetMeaning(t, all, c, r, x);
    }
    if TargetOf(t.index, c, r).Some? {
      assert TargetOf(t.index, c, r) == Some(TargetOf(t.index, c, r).value);
    }
  }

  /** A datatype element is mapped exactly under these conditions on its parameter. */
  lemma DatatypeMappedMeans(t: Tables, all: seq<Element>, e: FlyncElement, candidates: seq<Element>)
    requires KeyedIndex(t.index) && IsIndexOf(t.index, all)
    ensures CalculateStatus(|candidates|, DatatypeEvidence(t, e, candidates)) == Mapped
            <==> IsMappedDatatype(t, all, e, candidates)
  {
    hide IsIndexOf, DatatypeEvidence, CalculateStatus, TypeRefs, LeadsToEmbedding, Embeds, Normalize, TargetOf,
        KeyedIndex, Occurs;
    DatatypeMappedIff(t, e, candidates);
    if |candidates| == 1 && e.datatype_.Some? {
      var c := candidates[0];
      forall r ensures r in TypeRefs(c.references) <==> IsTypeOf(c, r) {
        TypeRefMembers(c.references, r);
      }
      assert TypeRefs(c.references) != [] <==> exists r :: IsTypeOf(c, r) by {
        if TypeRefs(c.references) != [] {
          assert TypeRefs(c.references)[0] in TypeRefs(c.references);
        }
      }
      forall r ensures TargetOf(t.index, c, r).Some?
                         && Embeds(e.datatype_.value,
                                   Normalize(TargetOf(t.index, c, r).value, t.index, {}, t.byLength))
                       <==> LeadsToEmbedding(t, all, e.datatype_.value, c, r) {
        EmbeddingMeaning(t, all, e.datatype_.value, c, r);
      }
    }
  }

  // ------------------------------------------------------------------ the evidence of a comparison

  /** What the comparison notes at position `q` of the FLYNC tree, whose node at the top is called `path`. */
  ghost predicate IsNoteAt(left: DatatypeNode, right: Option<DatatypeNode>, path: string, q: seq<nat>, x: Evidence)
    decreases q
  {
    if q != [] then
      && right.Some? && right.value.kind != "missing" && right.value.kind != "ambiguous"
      && right.value.kind != "unresolved" && q[0] < |left.children|
      && IsNoteAt(left.children[q[0]].1,
                  if q[0] < |right.value.children| then Some(right.value.children[q[0]].1) else None,
                  path + "." + left.children[q[0]].0, q[1..], x)
    else if right.None? then x == Evidence("datatype:" + path, Absent, true)
    else if right.value.kind == "ambiguous" then x == Evidence("datatype:" + path, Ambiguity, true)
    else if right.value.kind == "missing" || right.value.kind == "unresolved" then
      x == Evidence("datatype:" + path, Unresolved, true)
    else if left.kind == right.value.kind || (left.kind in PRIMITIVES && right.value.kind == "primitive") then
      x == Evidence("datatype:" + path + ":kind", Matched, true)
    else x == Evidence("datatype:" + path + ":kind", Mismatched, true)
  }

  ghost predicate IsNoted(left: DatatypeNode, right: Option<DatatypeNode>, path: string, x: Evidence) {
    exists q :: IsNoteAt(left, right, path, q, x)
  }

  /** What is noted at child `i` or below it. */
  ghost predicate IsNotedBelow(left: DatatypeNode, right: seq<(string, DatatypeNode)>, path: string, i: nat,
                               x: Evidence)
    requires i < |left.children|
  {
    IsNoted(left.children[i].1, if i < |right| then Some(right[i].1) else None, path + "." + left.children[i].0, x)
  }

  lemma NoteHere(left: DatatypeNode, right: Option<DatatypeNode>, path: string, x: Evidence)
    requires right.None? || right.value.kind in UNUSABLE_KINDS
    ensures x in Compared(left, right, path) <==> IsNoted(left, right, path, x)
  {
    assert x in Compared(left, right, path) <==> IsNoteAt(left, right, path, [], x);
    assert forall q :: q != [] ==> !IsNoteAt(left, right, path, q, x);
  }

  lemma NoteBelow(left: DatatypeNode, right: DatatypeNode, path: string, x: Evidence)
    requires right.kind !in UNUSABLE_KINDS
    ensures IsNoted(left, Some(right), path, x) <==>
              || IsNoteAt(left, Some(right), path, [], x)
              || exists i :: 0 <= i < |left.children| && IsNotedBelow(left, right.children, path, i, x)
  {
    if q :| q != [] && IsNoteAt(left, Some(right), path, q, x) {
      var other := if q[0] < |right.children| then Some(right.children[q[0]].1) else None;
      assert IsNoteAt(left.children[q[0]].1, other, path + "." + left.children[q[0]].0, q[1..], x);
      assert IsNotedBelow(left, right.children, path, q[0], x);
    }
    if i :| 0 <= i < |left.children| && IsNotedBelow(left, right.children, path, i, x) {
      NoteDown(left, right, path, i, x);
    }
  }

  lemma NoteDown(left: DatatypeNode, right: DatatypeNode, path: string, i: nat, x: Evidence)
    requires right.kind !in UNUSABLE_KINDS && i < |left.children| && IsNotedBelow(left, right.children, path, i, x)
    ensures IsNoted(left, Some(right), path, x)
  {
    var other := if i < |right.children| then Some(right.children[i].1) else None;
    var q :| IsNoteAt(left.children[i].1, other, path + "." + left.children[i].0, q, x);
    assert ([i] + q)[1..] == q && ([i] + q)[0] == i;
    assert IsNoteAt(left, Some(right), path, [i] + q, x);
  }

  /** The evidence of a comparison is what is noted at the positions of the FLYNC tree. */
  lemma {:induction false} ComparedMeaning(left: DatatypeNode, right: Option<DatatypeNode>, path: string, x: Evidence)
    ensures x in Compared(left, right, path) <==> IsNoted(left, right, path, x)
    decreases left, |left.children| + 1
  {
    if right.None? || right.value.kind in UNUSABLE_KINDS {
      NoteHere(left, right, path, x);
    } else {
      hide IsNoted, IsNotedBelow;
      ChildrenCompared(left, |left.children|, right.value.children, path, x);
      NoteBelow(left, right.value, path, x);
    }
  }

  /** A comparison starts at the top, called "root"; without an ARXML datatype it notes that one is missing. */
  lemma ComparingMeaning(left: DatatypeNode, right: Option<DatatypeNode>, x: Evidence)
    ensures x in Comparing(left, right)
            <==> if right.None? then x == Evidence("datatype", Absent, true) else IsNoted(left, right, "root", x)
  {
    hide IsNoted;
    ComparedMeaning(left, right, "root", x);
  }

  lemma {:induction false} ChildrenCompared(left: DatatypeNode, n: nat, right: seq<(string, DatatypeNode)>,
                                            path: string, x: Evidence)
    requires n <= |left.children|
    ensures x in ComparedChildren(left, n, right, path)
            <==> exists i :: 0 <= i < n && IsNotedBelow(left, right, path, i, x)
    decreases left, n
  {
    if n > 0 {
      var (text, child) := left.children[n - 1];
      hide Compared;
      ChildrenCompared(left, n - 1, right, path, x);
      ComparedMeaning(child, ChildAt(right, n - 1), path + "." + text, x);
      assert IsNotedBelow(left, right, path, n - 1, x) <==> IsNoted(child, ChildAt(right, n - 1), path + "." + text, x);
    }
  }
}
