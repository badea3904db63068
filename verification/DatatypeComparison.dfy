/** The recursive comparison of a FLYNC datatype tree with an ARXML one, and the embedding it decides. */
module DatatypeComparison {
  import opened Datatypes
  import opened MappingStatus
  import opened Wrappers

  const UNUSABLE_KINDS: set<string> := {"missing", "ambiguous", "unresolved"}

  predicate KindsMatch(left: string, right: string) {
    left == right || (left in PRIMITIVES && right == "primitive")
  }

  // ------------------------------------------------------------------ the comparison

  /** The evidence for one node and everything below it, in the order in which it is appended. */
  function Compared(left: DatatypeNode, right: Option<DatatypeNode>, path: string): seq<Evidence>
    decreases left, |left.children| + 1
  {
    if right.None? then [Evidence("datatype:" + path, Absent, true)]
    else if right.value.kind in UNUSABLE_KINDS then
      [Evidence("datatype:" + path, if right.value.kind == "ambiguous" then Ambiguity else Unresolved, true)]
    else
      [Evidence("datatype:" + path + ":kind", if KindsMatch(left.kind, right.value.kind) then Matched else Mismatched,
          true)]
      + ComparedChildren(left, |left.children|, right.value.children, path)
  }

  /** The evidence for the first `n` children. */
  function ComparedChildren(left: DatatypeNode, n: nat, right: seq<(string, DatatypeNode)>, path: string): seq<Evidence>
    requires n <= |left.children|
    decreases left, n
  {
    if n == 0 then []
    else
      var (text, child) := left.children[n - 1];
      ComparedChildren(left, n - 1, right, path) + Compared(child, ChildAt(right, n - 1), path + "." + text)
  }

  function ChildAt(children: seq<(string, DatatypeNode)>, i: nat): Option<DatatypeNode> {
    if i < |children| then Some(children[i].1) else None
  }

  /** The walk with its shared evidence list. */
  class Comparison {
    var evidence: seq<Evidence>

    constructor ()
      ensures evidence == []
    {
      evidence := [];
    }

    method Walk(left: DatatypeNode, right: Option<DatatypeNode>, path: string)
      modifies this
      ensures evidence == old(evidence) + Compared(left, right, path)
      decreases left
    {
      if right.None? {
        evidence := evidence + [Evidence("datatype:" + path, Absent, true)];
        return;
      }
      if right.value.kind in UNUSABLE_KINDS {
        var result := if right.value.kind == "ambiguous" then Ambiguity else Unresolved;
        evidence := evidence + [Evidence("datatype:" + path, result, true)];
        return;
      }
      var result := if KindsMatch(left.kind, right.value.kind) then Matched else Mismatched;
      evidence := evidence + [Evidence("datatype:" + path + ":kind", result, true)];
      ghost var start := evidence;
      for i := 0 to |left.children|
        invariant evidence == start + ComparedChildren(left, i, right.value.children, path)
      {
        var counterpart := if i < |right.value.children| then Some(right.value.children[i].1) else None;
        Walk(left.children[i].1, counterpart, path + "." + left.children[i].0);
      }
    }
  }

  function Comparing(flync: DatatypeNode, arxml: Option<DatatypeNode>): seq<Evidence> {
    if arxml.None? then [Evidence("datatype", Absent, true)] else Compared(flync, arxml, "root")
  }

  method CompareDatatypes(flync: DatatypeNode, arxml: Option<DatatypeNode>) returns (evidence: seq<Evidence>)
    ensures evidence == Comparing(flync, arxml)
  {
    if arxml.None? {
      return [Evidence("datatype", Absent, true)];
    }
    var c := new Comparison();
    c.Walk(flync, arxml, "root");
    evidence := c.evidence;
  }

  // ------------------------------------------------------------------ what it decides

  predicate AllMatched(evidence: seq<Evidence>) {
    forall e :: e in evidence ==> e.result == Matched
  }

  predicate Fits(left: DatatypeNode, right: DatatypeNode) {
    right.kind !in UNUSABLE_KINDS && KindsMatch(left.kind, right.kind)
  }

  /** Every position of the left tree exists in the right tree, with a usable and matching kind. */
  ghost predicate Embeds(left: DatatypeNode, right: DatatypeNode) {
    forall path :: NodeAt(left, path).Some? ==>
      NodeAt(right, path).Some? && Fits(NodeAt(left, path).value, NodeAt(right, path).value)
  }

  lemma EmbedsChild(left: DatatypeNode, right: DatatypeNode, i: nat)
    requires Embeds(left, right) && i < |left.children|
    ensures i < |right.children| && Embeds(left.children[i].1, right.children[i].1)
  {
    assert NodeAt(left, [i]) == NodeAt(left.children[i].1, [i][1..]);
    assert NodeAt(right, [i]).Some?;
    forall path | NodeAt(left.children[i].1, path).Some?
      ensures NodeAt(right.children[i].1, path).Some?
      ensures Fits(NodeAt(left.children[i].1, path).value, NodeAt(right.children[i].1, path).value)
    {
      assert ([i] + path)[1..] == path;
      assert NodeAt(left, [i] + path) == NodeAt(left.children[i].1, path);
    }
  }

  lemma EmbedsFromChildren(left: DatatypeNode, right: DatatypeNode)
    requires Fits(left, right) && forall i :: 0 <= i < |left.children| ==> ChildEmbeds(left, right.children, i)
    ensures Embeds(left, right)
  {
    forall path | NodeAt(left, path).Some?
      ensures NodeAt(right, path).Some? && Fits(NodeAt(left, path).value, NodeAt(right, path).value)
    {
      if path != [] {
        assert ChildEmbeds(left, right.children, path[0]);
        assert NodeAt(left.children[path[0]].1, path[1..]).Some?;
      }
    }
  }

  /** All evidence is a match if and only if the FLYNC tree embeds in the ARXML tree. */
  lemma {:induction false} MatchesIffEmbeds(left: DatatypeNode, right: DatatypeNode, path: string)
    ensures AllMatched(Compared(left, Some(right), path)) <==> Embeds(left, right)
    decreases left, |left.children| + 1
  {
    if !Fits(left, right) {
      assert NodeAt(left, []) == Some(left) && NodeAt(right, []) == Some(right);
      assert Compared(left, Some(right), path)[0].result != Matched;
      assert Compared(left, Some(right), path)[0] in Compared(left, Some(right), path);
    } else {
      ChildrenMatchIff(left, |left.children|, right.children, path);
      if Embeds(left, right) {
        forall i | 0 <= i < |left.children| ensures ChildEmbeds(left, right.children, i) {
          EmbedsChild(left, right, i);
        }
      } else if forall i :: 0 <= i < |left.children| ==> ChildEmbeds(left, right.children, i) {
        EmbedsFromChildren(left, right);
        assert false;
      }
    }
  }

  lemma AllMatchedConcat(a: seq<Evidence>, b: seq<Evidence>)
    ensures AllMatched(a + b) <==> AllMatched(a) && AllMatched(b)
  {
  }

  ghost predicate ChildEmbeds(left: DatatypeNode, right: seq<(string, DatatypeNode)>, i: nat)
    requires i < |left.children|
  {
    i < |right| && Embeds(left.children[i].1, right[i].1)
  }

  lemma {:induction false} ChildrenMatchIff(left: DatatypeNode, n: nat, right: seq<(string, DatatypeNode)>,
                                            path: string)
    requires n <= |left.children|
    ensures AllMatched(ComparedChildren(left, n, right, path))
            <==> forall i :: 0 <= i < n ==> ChildEmbeds(left, right, i)
    decreases left, n
  {
    if n > 0 {
      var (text, child) := left.children[n - 1];
      var last := Compared(child, ChildAt(right, n - 1), path + "." + text);
      ChildrenMatchIff(left, n - 1, right, path);
      AllMatchedConcat(ComparedChildren(left, n - 1, right, path), last);
      if n - 1 < |right| {
        MatchesIffEmbeds(child, right[n - 1].1, path + "." + text);
      } else {
        assert last[0] in last;
      }
      assert AllMatched(last) <==> ChildEmbeds(left, right, n - 1);
    }
  }

  /** Every piece of evidence is required, and its kind counts as strong. */
  lemma {:induction false} ComparedIsRequired(left: DatatypeNode, right: Option<DatatypeNode>, path: string)
    ensures Compared(left, right, path) != []
    ensures forall e :: e in Compared(left, right, path) ==> e.required && e.kind !in WEAK_KINDS
    decreases left, |left.children| + 1
  {
    if right.Some? {
      ChildrenAreRequired(left, |left.children|, right.value.children, path);
    }
    forall e | e in Compared(left, right, path) ensures e.required && e.kind !in WEAK_KINDS {
      if right.None? || right.value.kind in UNUSABLE_KINDS || e == Compared(left, right, path)[0] {
        assert e.kind[0] == 'd';
      }
    }
  }

  lemma {:induction false} ChildrenAreRequired(left: DatatypeNode, n: nat, right: seq<(string, DatatypeNode)>,
                                               path: string)
    requires n <= |left.children|
    ensures forall e :: e in ComparedChildren(left, n, right, path) ==> e.required && e.kind !in WEAK_KINDS
    decreases left, n
  {
    if n > 0 {
      var (text, child) := left.children[n - 1];
      ChildrenAreRequired(left, n - 1, right, path);
      ComparedIsRequired(child, ChildAt(right, n - 1), path + "." + text);
    }
  }
}
