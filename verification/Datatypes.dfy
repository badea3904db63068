/**
 AUTOSAR datatypes as trees: a type reference is expanded in place until it leads back to an element that
 is being expanded. FLYNC datatype trees are compared with them position by position.
 */
module Datatypes {
  import opened ArxmlIndex
  import opened ArxmlResolution
  import opened Wrappers

  datatype DatatypeNode = DatatypeNode(kind: string, name: Option<string>, children: seq<(string, DatatypeNode)>)

  const PRIMITIVES: set<string> := {
    "boolean", "uint8", "uint16", "uint32", "uint64", "int8", "int16", "int32", "int64", "float32", "float64"
  }

  // ------------------------------------------------------------------ the kind of an element

  predicate Contains(text: string, part: string) {
    exists i :: 0 <= i <= |text| && OccursAt(text, part, i)
  }

  predicate OccursAt(text: string, part: string, i: nat) {
    i + |part| <= |text| && text[i..i + |part|] == part
  }

  predicate HasCategory(e: Element, category: string) {
    "CATEGORY" in e.properties && category in e.properties["CATEGORY"]
  }

  /**
   `byLength` lists the primitives with longer names first; among names of one length the source leaves the
   order open.
   */
  function PrimitiveFromName(name: Option<string>, byLength: seq<string>): string {
    FirstContained(byLength, WithoutUnderscores(Lower(if name.Some? then name.value else "")))
  }

  function FirstContained(parts: seq<string>, text: string): string {
    if parts == [] then "primitive"
    else if Contains(text, parts[0]) then parts[0] else FirstContained(parts[1..], text)
  }

  function Lower(s: string): string {
    if s == [] then [] else [if 'A' <= s[0] <= 'Z' then s[0] - 'A' + 'a' else s[0]] + Lower(s[1..])
  }

  function WithoutUnderscores(s: string): string {
    if s == [] then [] else (if s[0] == '_' then [] else [s[0]]) + WithoutUnderscores(s[1..])
  }

  function KindOf(e: Element, byLength: seq<string>): string {
    if Contains(e.tag, "PRIMITIVE") then PrimitiveFromName(e.shortName, byLength)
    else if Contains(e.tag, "RECORD") || HasCategory(e, "STRUCTURE") then "struct"
    else if Contains(e.tag, "ARRAY") || HasCategory(e, "ARRAY") then "array"
    else if Contains(e.tag, "TYPEDEF") then "typedef"
    else if Contains(e.tag, "UNION") then "union"
    else if Contains(e.tag, "STRING") then "string"
    else if e.tag == "IMPLEMENTATION-DATA-TYPE" then PrimitiveFromName(e.shortName, byLength)
    else "unknown"
  }

  // ------------------------------------------------------------------ expansion

  /** The references that are followed, in order. */
  function TypeRefs(references: seq<Reference>): seq<Reference> {
    if references == [] then []
    else
      var last := references[|references| - 1];
      TypeRefs(references[..|references| - 1]) + if Contains(last.kind, "TYPE") then [last] else []
  }

  /** `by_key` of an index: every element is stored under its own key. */
  ghost predicate KeyedIndex(index: Index) {
    forall k :: k in index.byKey ==> index.byKey[k].key == k
  }

  lemma BuiltIndexIsKeyed(index: Index, discovered: seq<Element>)
    requires IsIndexOf(index, discovered)
    ensures KeyedIndex(index)
  {
    ByKeyHolds(index.elements);
  }

  /** The element that a reference of `owner` resolves to, if it resolves. */
  function TargetOf(index: Index, owner: Element, r: Reference): Option<Element> {
    var resolution := Resolve(index, r.value, Some(owner), r.dest);
    if resolution.state == Resolved && |resolution.candidates| == 1 && resolution.candidates[0] in index.byKey
    then Some(index.byKey[resolution.candidates[0]]) else None
  }

  /** The indexing `by_key[candidates[0]]` never fails: a resolved reference has exactly one, indexed, candidate. */
  lemma ResolvedHasTarget(index: Index, all: seq<Element>, owner: Element, r: Reference)
    requires IsIndexOf(index, all)
    ensures TargetOf(index, owner, r).Some? <==> Resolve(index, r.value, Some(owner), r.dest).state == Resolved
  {
    ResolveCountsTargets(index, r.value, Some(owner), r.dest);
    if Resolve(index, r.value, Some(owner), r.dest).state == Resolved {
      var key := Resolve(index, r.value, Some(owner), r.dest).candidates[0];
      AnswersAreIndexed(index, all, r.value, Some(owner), r.dest, key);
    }
  }

  function StateName(s: State): string {
    match s case Resolved => "resolved" case Ambiguous => "ambiguous" case Missing => "missing"
  }

  /** How many indexed elements can still be entered; an element outside the index counts once more. */
  ghost function Remaining(index: Index, e: Element, visited: set<string>): nat {
    |index.byKey.Keys - visited| + if e.key in index.byKey then 0 else 1
  }

  lemma EnteringShrinks(index: Index, e: Element, visited: set<string>, target: Element)
    requires e.key !in visited && target.key in index.byKey
    ensures Remaining(index, target, visited + {e.key}) < Remaining(index, e, visited)
  {
    var open := index.byKey.Keys - visited;
    assert open - {e.key} == index.byKey.Keys - (visited + {e.key});
    if e.key in open {
      assert open == (open - {e.key}) + {e.key};
    } else {
      assert open - {e.key} == open;
    }
  }

  function Normalize(e: Element, index: Index, visited: set<string>, byLength: seq<string>): DatatypeNode
    requires KeyedIndex(index)
    decreases Remaining(index, e, visited), 2
  {
    if e.key in visited then DatatypeNode("cycle", e.shortName, [])
    else DatatypeNode(KindOf(e, byLength), e.shortName, Expanded(TypeRefs(e.references), e, index, visited, byLength))
  }

  function Expanded(refs: seq<Reference>, e: Element, index: Index, visited: set<string>, byLength: seq<string>)
    : (r: seq<(string, DatatypeNode)>)
    requires KeyedIndex(index) && e.key !in visited
    ensures |r| == |refs|
    decreases Remaining(index, e, visited), 1, refs
  {
    if refs == [] then []
    else
      var last := refs[|refs| - 1];
      Expanded(refs[..|refs| - 1], e, index, visited, byLength)
      + [(Lower(last.kind), ChildOf(last, e, index, visited, byLength))]
  }

  function ChildOf(r: Reference, e: Element, index: Index, visited: set<string>, byLength: seq<string>): DatatypeNode
    requires KeyedIndex(index) && e.key !in visited
    decreases Remaining(index, e, visited), 0
  {
    var target := TargetOf(index, e, r);
    if target.None? then
      DatatypeNode(StateName(Resolve(index, r.value, Some(e), r.dest).state), Some(r.value), [])
    else
      EnteringShrinks(index, e, visited, target.value);
      Normalize(target.value, index, visited + {e.key}, byLength)
  }

  lemma {:induction false} ExpandedAt(refs: seq<Reference>, e: Element, index: Index, visited: set<string>,
                                      byLength: seq<string>, i: nat)
    requires KeyedIndex(index) && e.key !in visited && i < |refs|
    ensures Expanded(refs, e, index, visited, byLength)[i].1 == ChildOf(refs[i], e, index, visited, byLength)
  {
    if i < |refs| - 1 {
      ExpandedAt(refs[..|refs| - 1], e, index, visited, byLength, i);
    }
  }

  // ------------------------------------------------------------------ what the expansion contains

  /** The node at a position: the child indices to follow from the top. */
  function NodeAt(n: DatatypeNode, path: seq<nat>): Option<DatatypeNode>
    decreases path
  {
    if path == [] then Some(n)
    else if path[0] < |n.children| then NodeAt(n.children[path[0]].1, path[1..])
    else None
  }

  /** The elements met when `path` is followed from `e`, ending with the last one, if every step resolves. */
  function Trail(index: Index, e: Element, path: seq<nat>): Option<seq<Element>>
    decreases path
  {
    if path == [] then Some([e])
    else
      var refs := TypeRefs(e.references);
      if path[0] >= |refs| || TargetOf(index, e, refs[path[0]]).None? then None
      else
        var rest := Trail(index, TargetOf(index, e, refs[path[0]]).value, path[1..]);
        if rest.None? then None else Some([e] + rest.value)
  }

  lemma {:induction false} TrailLength(index: Index, e: Element, path: seq<nat>)
    requires Trail(index, e, path).Some?
    ensures |Trail(index, e, path).value| == |path| + 1 && Trail(index, e, path).value[0] == e
    decreases |path|
  {
    if path != [] {
      TrailLength(index, TargetOf(index, e, TypeRefs(e.references)[path[0]]).value, path[1..]);
    }
  }

  function Keys(es: seq<Element>): set<string> {
    set e | e in es :: e.key
  }

  /** No element before the last repeats an earlier one, or is in `visited`. */
  ghost predicate IsFresh(trail: seq<Element>, visited: set<string>) {
    forall i :: 0 <= i < |trail| - 1 ==> trail[i].key !in visited + Keys(trail[..i])
  }

  lemma FreshStep(e: Element, rest: seq<Element>, visited: set<string>)
    requires rest != []
    ensures IsFresh([e] + rest, visited) <==> e.key !in visited && IsFresh(rest, visited + {e.key})
  {
    var trail := [e] + rest;
    assert trail[..0] == [];
    forall i | 0 <= i < |rest| - 1
      ensures trail[i + 1] == rest[i] && Keys(trail[..i + 1]) == Keys(rest[..i]) + {e.key}
    {
      assert trail[..i + 1] == [e] + rest[..i];
    }
    if IsFresh(trail, visited) {
      forall i | 0 <= i < |rest| - 1 ensures rest[i].key !in visited + {e.key} + Keys(rest[..i]) {
        assert trail[i + 1].key !in visited + Keys(trail[..i + 1]);
      }
      assert trail[0].key !in visited + Keys(trail[..0]);
    }
    if e.key !in visited && IsFresh(rest, visited + {e.key}) {
      forall i | 0 <= i < |trail| - 1 ensures trail[i].key !in visited + Keys(trail[..i]) {
        if i > 0 {
          assert rest[i - 1].key !in visited + {e.key} + Keys(rest[..i - 1]);
          assert Keys(trail[..i]) == Keys(rest[..i - 1]) + {e.key};
        }
      }
    }
  }

  /** One step down the tree follows one reference. */
  lemma NodeStep(e: Element, index: Index, visited: set<string>, byLength: seq<string>, path: seq<nat>, target: Element)
    requires KeyedIndex(index) && e.key !in visited && path != [] && path[0] < |TypeRefs(e.references)|
    requires TargetOf(index, e, TypeRefs(e.references)[path[0]]) == Some(target)
    ensures NodeAt(Normalize(e, index, visited, byLength), path) ==
              NodeAt(Normalize(target, index, visited + {e.key}, byLength), path[1..])
  {
    ExpandedAt(TypeRefs(e.references), e, index, visited, byLength, path[0]);
  }

  lemma KeysStep(e: Element, rest: seq<Element>, visited: set<string>, n: nat)
    requires n <= |rest|
    ensures visited + Keys(([e] + rest)[..n + 1]) == (visited + {e.key}) + Keys(rest[..n])
  {
    assert ([e] + rest)[..n + 1] == [e] + rest[..n];
  }

  /**
   The tree of `e` along a trail of resolving references: it goes exactly as far as no element repeats, and
   the node there is its element's own expansion with the elements of the trail entered.
   */
  lemma {:induction false} ExpansionFollowsTrail(e: Element, index: Index, visited: set<string>, byLength: seq<string>,
                                                 path: seq<nat>, trail: seq<Element>)
    requires KeyedIndex(index) && Trail(index, e, path) == Some(trail)
    ensures |trail| == |path| + 1
    ensures NodeAt(Normalize(e, index, visited, byLength), path) ==
              if IsFresh(trail, visited)
                  then Some(Normalize(trail[|path|], index, visited + Keys(trail[..|path|]), byLength)) else None
    decreases |path|
  {
    TrailLength(index, e, path);
    if path == [] {
      assert visited + Keys(trail[..0]) == visited;
    } else {
      var target := TargetOf(index, e, TypeRefs(e.references)[path[0]]).value;
      var rest := Trail(index, target, path[1..]).value;
      TrailLength(index, target, path[1..]);
      FreshStep(e, rest, visited);
      if e.key !in visited {
        NodeStep(e, index, visited, byLength, path, target);
        ExpansionFollowsTrail(target, index, visited + {e.key}, byLength, path[1..], rest);
        KeysStep(e, rest, visited, |path| - 1);
      } else {
        assert Normalize(e, index, visited, byLength).children == [];
      }
    }
  }

  lemma {:induction false} KindIsNeverCycle(e: Element, byLength: seq<string>)
    requires "cycle" !in byLength
    ensures KindOf(e, byLength) != "cycle"
  {
    FirstContainedIsListed(byLength, WithoutUnderscores(Lower(if e.shortName.Some? then e.shortName.value else "")));
  }

  lemma {:induction false} FirstContainedIsListed(parts: seq<string>, text: string)
    ensures FirstContained(parts, text) == "primitive" || FirstContained(parts, text) in parts
  {
    if parts != [] && !Contains(text, parts[0]) {
      FirstContainedIsListed(parts[1..], text);
    }
  }

  lemma CycleIffVisited(e: Element, index: Index, visited: set<string>, byLength: seq<string>)
    requires KeyedIndex(index) && "cycle" !in byLength
    ensures Normalize(e, index, visited, byLength).kind == "cycle" <==> e.key in visited
  {
    KindIsNeverCycle(e, byLength);
  }

  /** A cycle node stands exactly where a resolved target is already on the path to it. */
  lemma CycleMarksRepeat(e: Element, index: Index, byLength: seq<string>, path: seq<nat>, trail: seq<Element>)
    requires KeyedIndex(index) && Trail(index, e, path) == Some(trail) && "cycle" !in byLength
    requires NodeAt(Normalize(e, index, {}, byLength), path).Some?
    ensures |trail| == |path| + 1
    ensures NodeAt(Normalize(e, index, {}, byLength), path).value.kind == "cycle"
            <==> trail[|path|].key in Keys(trail[..|path|])
  {
    ExpansionFollowsTrail(e, index, {}, byLength, path, trail);
    CycleIffVisited(trail[|path|], index, {} + Keys(trail[..|path|]), byLength);
  }

  /**
   The expansion of any element, however cyclic its references, is at most one level deeper than the index is
   large.
   */
  lemma {:induction false} DepthIsBounded(e: Element, index: Index, visited: set<string>, byLength: seq<string>,
                                          path: seq<nat>)
    requires KeyedIndex(index) && NodeAt(Normalize(e, index, visited, byLength), path).Some?
    ensures |path| <= Remaining(index, e, visited) + 1
    decreases |path|
  {
    if path != [] {
      var refs := TypeRefs(e.references);
      ExpandedAt(refs, e, index, visited, byLength, path[0]);
      var target := TargetOf(index, e, refs[path[0]]);
      if target.Some? {
        EnteringShrinks(index, e, visited, target.value);
        DepthIsBounded(target.value, index, visited + {e.key}, byLength, path[1..]);
      }
    }
  }
}
