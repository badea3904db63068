/**
 What the expansion of a datatype writes at each node: the kind by tag, category and name, and one child for each
 reference to a type.
 */
module DatatypeKinds {
  import opened ArxmlIndex
  import opened ArxmlResolution
  import opened Datatypes
  import opened Wrappers

  // ------------------------------------------------------------------ names of primitives

  /** `part` stands somewhere in `text`. */
  ghost predicate Occurs(text: string, part: string) {
    exists a, b :: text == a + part + b
  }

  lemma ContainsMeaning(text: string, part: string)
    ensures Contains(text, part) <==> Occurs(text, part)
  {
    if i :| 0 <= i <= |text| && OccursAt(text, part, i) {
      assert text == text[..i] + part + text[i + |part|..];
    }
    if a, b :| text == a + part + b {
      assert OccursAt(text, part, |a|);
    }
  }

  /** Capital ASCII letters become small, everything else stays. */
  predicate IsLowered(s: string, r: string) {
    |r| == |s| && forall i :: 0 <= i < |s| ==>
      if 'A' <= s[i] <= 'Z' then r[i] as int == s[i] as int + 32 else r[i] == s[i]
  }

  lemma {:induction false} LowerMeaning(s: string)
    ensures IsLowered(s, Lower(s))
  {
    if s != [] {
      LowerMeaning(s[1..]);
      assert Lower(s)[1..] == Lower(s[1..]);
      forall i | 0 <= i < |s|
        ensures if 'A' <= s[i] <= 'Z' then Lower(s)[i] as int == s[i] as int + 32 else Lower(s)[i] == s[i]
      {
        if i > 0 {
          assert s[i] == s[1..][i - 1] && Lower(s)[i] == Lower(s[1..])[i - 1];
        }
      }
    }
  }

  /** `r` is `s` without its underscores: character by character, from the end. */
  predicate IsWithout(s: string, r: string) {
    if s == [] then r == []
    else if s[|s| - 1] == '_' then IsWithout(s[..|s| - 1], r)
    else r != [] && r[|r| - 1] == s[|s| - 1] && IsWithout(s[..|s| - 1], r[..|r| - 1])
  }

  lemma {:induction false} WithoutAppend(s: string, c: char)
    ensures WithoutUnderscores(s + [c]) == WithoutUnderscores(s) + if c == '_' then [] else [c]
  {
    if s == [] {
      assert [c][1..] == [];
    } else {
      assert (s + [c])[1..] == s[1..] + [c];
      WithoutAppend(s[1..], c);
    }
  }

  lemma {:induction false} WithoutMeaning(s: string)
    ensures IsWithout(s, WithoutUnderscores(s))
  {
    if s != [] {
      var n := |s| - 1;
      WithoutMeaning(s[..n]);
      var rest := WithoutUnderscores(s[..n]);
      WithoutAppend(s[..n], s[n]);
      assert s == s[..n] + [s[n]];
      assert rest + [] == rest && (rest + [s[n]])[..|rest|] == rest;
    }
  }

  /** The name of an element in the form in which it is searched for primitives. */
  function Plain(e: Element): string {
    WithoutUnderscores(Lower(if e.shortName.Some? then e.shortName.value else ""))
  }

  /** All primitives, longer names first. */
  ghost predicate IsByLength(byLength: seq<string>) {
    && (forall p :: p in byLength <==> p in PRIMITIVES)
    && forall i, j :: 0 <= i < j < |byLength| ==> |byLength[i]| >= |byLength[j]|
  }

  lemma {:induction false} FirstContainedMeaning(parts: seq<string>, text: string)
    ensures var r := FirstContained(parts, text);
            || (r == "primitive" && forall p :: p in parts ==> !Occurs(text, p))
            || exists i :: 0 <= i < |parts| && parts[i] == r && Occurs(text, r)
                           && forall j :: 0 <= j < i ==> !Occurs(text, parts[j])
  {
    if parts != [] {
      ContainsMeaning(text, parts[0]);
      if !Contains(text, parts[0]) {
        var rest, r := parts[1..], FirstContained(parts, text);
        FirstContainedMeaning(rest, text);
        assert parts == [parts[0]] + rest;
        if i :| 0 <= i < |rest| && rest[i] == r && Occurs(text, r)
                && forall j :: 0 <= j < i ==> !Occurs(text, rest[j]) {
          assert parts[i + 1] == r;
          forall j | 0 <= j < i + 1 ensures !Occurs(text, parts[j]) {
            if j > 0 {
              assert parts[j] == rest[j - 1];
            }
          }
        }
      }
    }
  }

  /** What a name is taken for: a primitive that occurs in it, where none that is longer occurs. */
  ghost predicate NamesKind(text: string, kind: string) {
    if exists p :: p in PRIMITIVES && Occurs(text, p) then
      && kind in PRIMITIVES && Occurs(text, kind)
      && forall p :: p in PRIMITIVES && Occurs(text, p) ==> |p| <= |kind|
    else kind == "primitive"
  }

  lemma LongestIsNamed(byLength: seq<string>, text: string)
    requires IsByLength(byLength)
    ensures NamesKind(text, FirstContained(byLength, text))
  {
    var r := FirstContained(byLength, text);
    FirstContainedMeaning(byLength, text);
    if i :| 0 <= i < |byLength| && byLength[i] == r && Occurs(text, r)
            && forall j :: 0 <= j < i ==> !Occurs(text, byLength[j]) {
      forall p | p in PRIMITIVES && Occurs(text, p) ensures |p| <= |r| {
        var k :| 0 <= k < |byLength| && byLength[k] == p;
      }
    }
  }

  // ------------------------------------------------------------------ the kind of an element

  predicate IsOfCategory(e: Element, category: string) {
    "CATEGORY" in e.properties
      && exists i :: 0 <= i < |e.properties["CATEGORY"]| && e.properties["CATEGORY"][i] == category
  }

  /** The kind of an element: what its tag says, with the category beside it for records and arrays, in this order. */
  ghost predicate HasKind(e: Element, kind: string) {
    if Occurs(e.tag, "PRIMITIVE") then NamesKind(Plain(e), kind)
    else if Occurs(e.tag, "RECORD") || IsOfCategory(e, "STRUCTURE") then kind == "struct"
    else if Occurs(e.tag, "ARRAY") || IsOfCategory(e, "ARRAY") then kind == "array"
    else if Occurs(e.tag, "TYPEDEF") then kind == "typedef"
    else if Occurs(e.tag, "UNION") then kind == "union"
    else if Occurs(e.tag, "STRING") then kind == "string"
    else if e.tag == "IMPLEMENTATION-DATA-TYPE" then NamesKind(Plain(e), kind)
    else kind == "unknown"
  }

  lemma PrimitiveMeaning(e: Element, byLength: seq<string>)
    requires IsByLength(byLength)
    ensures NamesKind(Plain(e), PrimitiveFromName(e.shortName, byLength))
  {
    hide NamesKind, FirstContained, WithoutUnderscores, Lower;
    LongestIsNamed(byLength, Plain(e));
  }

  lemma CategoryMeaning(e: Element, category: string)
    ensures HasCategory(e, category) <==> IsOfCategory(e, category)
  {
  }

  lemma KindMeaning(e: Element, byLength: seq<string>)
    requires IsByLength(byLength)
    ensures HasKind(e, KindOf(e, byLength))
  {
    hide Contains, Occurs, NamesKind, PrimitiveFromName, Plain, HasCategory, IsOfCategory, IsByLength;
    PrimitiveMeaning(e, byLength);
    CategoryMeaning(e, "STRUCTURE");
    CategoryMeaning(e, "ARRAY");
    ContainsMeaning(e.tag, "PRIMITIVE");
    ContainsMeaning(e.tag, "RECORD");
    ContainsMeaning(e.tag, "ARRAY");
    ContainsMeaning(e.tag, "TYPEDEF");
    ContainsMeaning(e.tag, "UNION");
    ContainsMeaning(e.tag, "STRING");
  }

  // ------------------------------------------------------------------ one node

  /** `at` are, in order, the places of the references to types among all references. */
  ghost predicate ArePlacesOfTypes(references: seq<Reference>, at: seq<nat>) {
    && (forall i, j :: 0 <= i < j < |at| ==> at[i] < at[j])
    && (forall k: nat :: k in at <==> k < |references| && Occurs(references[k].kind, "TYPE"))
  }

  lemma {:induction false} TypeRefsMeaning(references: seq<Reference>) returns (at: seq<nat>)
    ensures ArePlacesOfTypes(references, at) && |TypeRefs(references)| == |at|
    ensures forall i :: 0 <= i < |at| ==> at[i] < |references| && TypeRefs(references)[i] == references[at[i]]
  {
    if references == [] {
      at := [];
    } else {
      var n := |references| - 1;
      var before := TypeRefsMeaning(references[..n]);
      ContainsMeaning(references[n].kind, "TYPE");
      at := before + if Occurs(references[n].kind, "TYPE") then [n] else [];
      forall k | k in before ensures k < n {
      }
      assert forall i :: 0 <= i < |before| ==> before[i] in before;
      forall k: nat ensures k in at <==> k < |references| && Occurs(references[k].kind, "TYPE") {
        if k < n {
          assert references[..n][k] == references[k];
        }
      }
    }
  }

  /** The child for a reference: the expansion of its target, or a note of the reference that does not resolve. */
  ghost predicate IsChildFor(child: (string, DatatypeNode), r: Reference, e: Element, index: Index,
                             visited: set<string>, byLength: seq<string>)
    requires KeyedIndex(index)
  {
    var resolution := Resolve(index, r.value, Some(e), r.dest);
    && IsLowered(r.kind, child.0)
    && match resolution.state
       case Resolved =>
         && |resolution.candidates| == 1 && resolution.candidates[0] in index.byKey
         && child.1 == Normalize(index.byKey[resolution.candidates[0]], index, visited + {e.key}, byLength)
       case Ambiguous => child.1 == DatatypeNode("ambiguous", Some(r.value), [])
       case Missing => child.1 == DatatypeNode("missing", Some(r.value), [])
  }

  lemma {:induction false} ExpandedLabels(refs: seq<Reference>, e: Element, index: Index, visited: set<string>,
                                          byLength: seq<string>, i: nat)
    requires KeyedIndex(index) && e.key !in visited && i < |refs|
    ensures Expanded(refs, e, index, visited, byLength)[i].0 == Lower(refs[i].kind)
  {
    if i < |refs| - 1 {
      ExpandedLabels(refs[..|refs| - 1], e, index, visited, byLength, i);
    }
  }

  lemma ChildMeaning(all: seq<Element>, r: Reference, e: Element, index: Index, visited: set<string>,
                     byLength: seq<string>)
    requires KeyedIndex(index) && IsIndexOf(index, all) && e.key !in visited
    ensures IsChildFor((Lower(r.kind), ChildOf(r, e, index, visited, byLength)), r, e, index, visited, byLength)
  {
    LowerMeaning(r.kind);
    ResolvedHasTarget(index, all, e, r);
  }

  /**
   The node of an element that is not being expanded already: its kind, its name, and in order one child for each
   of its references to types.
   */
  lemma NodeMeaning(all: seq<Element>, e: Element, index: Index, visited: set<string>, byLength: seq<string>)
    returns (at: seq<nat>)
    requires KeyedIndex(index) && IsIndexOf(index, all) && IsByLength(byLength) && e.key !in visited
    ensures var node := Normalize(e, index, visited, byLength);
            && HasKind(e, node.kind) && node.name == e.shortName
            && ArePlacesOfTypes(e.references, at) && |node.children| == |at|
            && (forall i :: 0 <= i < |at| ==> at[i] < |e.references|)
            && (forall i :: 0 <= i < |at| ==>
                  IsChildFor(node.children[i], e.references[at[i]], e, index, visited, byLength))
  {
    KindMeaning(e, byLength);
    at := TypeRefsMeaning(e.references);
    var refs := TypeRefs(e.references);
    hide KindOf, HasKind, ChildOf, IsChildFor, ArePlacesOfTypes, IsIndexOf;
    forall i | 0 <= i < |at|
      ensures IsChildFor(Normalize(e, index, visited, byLength).children[i], e.references[at[i]], e, index, visited,
                         byLength)
    {
      ExpandedAt(refs, e, index, visited, byLength, i);
      ExpandedLabels(refs, e, index, visited, byLength, i);
      ChildMeaning(all, refs[i], e, index, visited, byLength);
    }
  }

  /** The node of an element that is being expanded already says so, and has no children. */
  lemma RepeatedNode(e: Element, index: Index, visited: set<string>, byLength: seq<string>)
    requires KeyedIndex(index) && e.key in visited
    ensures Normalize(e, index, visited, byLength) == DatatypeNode("cycle", e.shortName, [])
  {
  }

  // ------------------------------------------------------------------ trails

  /** From `e`, each step of the path takes the reference to a type at that position to what it leads to. */
  ghost predicate IsTrail(index: Index, e: Element, path: seq<nat>, trail: seq<Element>) {
    && |trail| == |path| + 1 && trail[0] == e
    && forall i :: 0 <= i < |path| ==>
         && path[i] < |TypeRefs(trail[i].references)|
         && TargetOf(index, trail[i], TypeRefs(trail[i].references)[path[i]]) == Some(trail[i + 1])
  }

  lemma TrailGoesOn(index: Index, e: Element, path: seq<nat>, trail: seq<Element>)
    requires path != [] && trail != []
    ensures IsTrail(index, e, path, trail) <==>
              && trail[0] == e && path[0] < |TypeRefs(e.references)|
              && TargetOf(index, e, TypeRefs(e.references)[path[0]]).Some?
              && IsTrail(index, TargetOf(index, e, TypeRefs(e.references)[path[0]]).value, path[1..], trail[1..])
  {
    hide TypeRefs, TargetOf;
    if IsTrail(index, e, path, trail) {
      forall i | 0 <= i < |path| - 1
        ensures && path[1..][i] < |TypeRefs(trail[1..][i].references)|
                && TargetOf(index, trail[1..][i], TypeRefs(trail[1..][i].references)[path[1..][i]])
                   == Some(trail[1..][i + 1]) {
        assert path[1..][i] == path[i + 1] && trail[1..][i] == trail[i + 1] && trail[1..][i + 1] == trail[i + 2];
      }
    }
    if trail[0] == e && path[0] < |TypeRefs(e.references)|
       && TargetOf(index, e, TypeRefs(e.references)[path[0]]).Some?
       && IsTrail(index, TargetOf(index, e, TypeRefs(e.references)[path[0]]).value, path[1..], trail[1..]) {
      forall i | 0 < i < |path|
        ensures && path[i] < |TypeRefs(trail[i].references)|
                && TargetOf(index, trail[i], TypeRefs(trail[i].references)[path[i]]) == Some(trail[i + 1]) {
        assert path[1..][i - 1] == path[i] && trail[1..][i - 1] == trail[i] && trail[1..][i] == trail[i + 1];
      }
    }
  }

  lemma TrailStep(index: Index, e: Element, path: seq<nat>, trail: seq<Element>)
    requires path != [] && trail != []
    ensures Trail(index, e, path) == Some(trail) <==>
              && trail[0] == e && path[0] < |TypeRefs(e.references)|
              && TargetOf(index, e, TypeRefs(e.references)[path[0]]).Some?
              && Trail(index, TargetOf(index, e, TypeRefs(e.references)[path[0]]).value, path[1..]) == Some(trail[1..])
  {
    assert trail == [trail[0]] + trail[1..];
  }

  lemma {:induction false} TrailMeaning(index: Index, e: Element, path: seq<nat>, trail: seq<Element>)
    ensures Trail(index, e, path) == Some(trail) <==> IsTrail(index, e, path, trail)
    decreases |path|
  {
    if path == [] {
      assert |trail| == 1 ==> trail == [trail[0]];
    } else if trail == [] {
      if Trail(index, e, path).Some? {
        TrailLength(index, e, path);
      }
    } else {
      TrailGoesOn(index, e, path, trail);
      TrailStep(index, e, path, trail);
      hide Trail, IsTrail, TargetOf, TypeRefs;
      var refs := TypeRefs(e.references);
      if path[0] < |refs| && TargetOf(index, e, refs[path[0]]).Some? {
        TrailMeaning(index, TargetOf(index, e, refs[path[0]]).value, path[1..], trail[1..]);
      }
    }
  }
}
