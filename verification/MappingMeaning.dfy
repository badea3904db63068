/**
 Candidate selection and the status of a mapping, said of the elements themselves: the values that a candidate
 shares with a FLYNC element, the names around it, the addresses that its references lead to.
 */
module MappingMeaning {
  import opened ArxmlIndex
  import opened ArxmlResolution
  import opened ArxmlMeaning
  import opened Datatypes
  import opened DatatypeKinds
  import opened DatatypeComparison
  import opened MappingRules
  import opened MappingStatus
  import opened MappingGuarantees
  import opened Wrappers
  import opened Graphs

  // ------------------------------------------------------------------ shared values

  /** The candidate has, at one of the leaves, a value that is the same as the expected one. */
  ghost predicate SharesValue(scalars: Scalars, expected: string, c: Element, leaves: seq<string>) {
    exists leaf, v ::
      leaf in leaves && leaf in c.properties && v in c.properties[leaf] && scalars.same(expected, v)
  }

  lemma {:induction false} ValuesMembers(c: Element, leaves: seq<string>, v: string)
    ensures v in Values(c, leaves)
            <==> exists leaf :: leaf in leaves && leaf in c.properties && v in c.properties[leaf]
  {
    if leaves != [] {
      var n := |leaves| - 1;
      ValuesMembers(c, leaves[..n], v);
      assert leaves == leaves[..n] + [leaves[n]];
    }
  }

  lemma SharesMeaning(scalars: Scalars, expected: string, c: Element, leaves: seq<string>)
    ensures AnySame(scalars, expected, Values(c, leaves)) <==> SharesValue(scalars, expected, c, leaves)
  {
    forall v ensures v in Values(c, leaves)
      <==> exists leaf :: leaf in leaves && leaf in c.properties && v in c.properties[leaf] {
      ValuesMembers(c, leaves, v);
    }
    if leaf, v :| leaf in leaves && leaf in c.properties && v in c.properties[leaf] && scalars.same(expected, v) {
      assert v in Values(c, leaves);
    }
  }

  /** The value that the context gives for a key: that of the first entry of the key. */
  ghost predicate ContextGives(context: seq<(string, Option<string>)>, key: string, v: string) {
    exists i :: 0 <= i < |context| && context[i] == (key, Some(v)) && forall j :: 0 <= j < i ==> context[j].0 != key
  }

  lemma {:induction false} ContextMeaning(context: seq<(string, Option<string>)>, key: string, v: string)
    ensures ContextValue(context, key) == Some(v) <==> ContextGives(context, key, v)
  {
    if context != [] {
      var rest := context[1..];
      ContextMeaning(rest, key, v);
      assert forall j :: 0 < j < |context| ==> context[j] == rest[j - 1];
      if context[0].0 != key {
        if i :| 0 <= i < |rest| && rest[i] == (key, Some(v)) && forall j :: 0 <= j < i ==> rest[j].0 != key {
          assert context[i + 1] == (key, Some(v));
          assert forall j :: 0 <= j < i + 1 ==> context[j].0 != key;
        }
        if i :| 0 <= i < |context| && context[i] == (key, Some(v)) && forall j :: 0 <= j < i ==> context[j].0 != key {
          assert rest[i - 1] == (key, Some(v));
          forall j | 0 <= j < i - 1 ensures rest[j].0 != key {
            assert rest[j] == context[j + 1];
          }
        }
      } else if context[0].1 == Some(v) {
        assert context[0] == (key, Some(v));
      }
    }
  }

  // ------------------------------------------------------------------ numbers that several elements share

  ghost predicate IsOfTags(all: seq<Element>, x: Element, tags: seq<string>) {
    x in all && x.tag in tags
  }

  /** Some value is shared by two elements of the tags, or by one that is listed twice. */
  ghost predicate IsSharedByTwo(scalars: Scalars, all: seq<Element>, tags: seq<string>, expected: string,
                                leaves: seq<string>) {
    exists x, y ::
      && IsOfTags(all, x, tags) && SharesValue(scalars, expected, x, leaves)
      && IsOfTags(all, y, tags) && SharesValue(scalars, expected, y, leaves)
      && (x != y || multiset(all)[x] * multiset(tags)[x.tag] > 1)
  }

  lemma OfTagsStep(index: Index, tags: seq<string>)
    ensures tags == [] ==> OfTags(index, tags) == []
    ensures tags != [] ==>
              OfTags(index, tags) == OfTags(index, tags[..|tags| - 1]) + LookUp(index.byTag, tags[|tags| - 1])
  {
  }

  lemma LookUpTagCount(index: Index, all: seq<Element>, tag: string, e: Element)
    requires IsIndexOf(index, all) && tag != ""
    ensures multiset(LookUp(index.byTag, tag))[e] == if e in all && e.tag == tag then multiset(all)[e] else 0
  {
    SortHolds(all);
    LookUpCount(index.byTag, index.elements, TagOf, tag, e);
    LookUpIsScan(index, all, tag, e);
    assert e in LookUp(index.byTag, tag) <==> e in multiset(LookUp(index.byTag, tag));
  }

  lemma Distributes(a: nat, b: nat, once: bool)
    ensures a * (b + if once then 1 else 0) == a * b + if once then a else 0
  {
  }

  lemma CountLast(tags: seq<string>, tag: string)
    requires tags != []
    ensures multiset(tags)[tag]
         == multiset(tags[..|tags| - 1])[tag] + if tags[|tags| - 1] == tag then 1 else 0
  {
    assert tags == tags[..|tags| - 1] + [tags[|tags| - 1]];
  }

  /** An element of the tags is available as often as it was discovered, for each mention of its tag. */
  lemma {:induction false} OfTagsCount(index: Index, all: seq<Element>, tags: seq<string>, e: Element)
    requires IsIndexOf(index, all) && "" !in tags
    ensures multiset(OfTags(index, tags))[e] == multiset(all)[e] * multiset(tags)[e.tag]
  {
    hide IsIndexOf, LookUp, OfTags;
    OfTagsStep(index, tags);
    if tags != [] {
      var n := |tags| - 1;
      OfTagsCount(index, all, tags[..n], e);
      LookUpTagCount(index, all, tags[n], e);
      CountLast(tags, e.tag);
      Distributes(multiset(all)[e], multiset(tags[..n])[e.tag], tags[n] == e.tag);
      assert e !in all ==> multiset(all)[e] == 0;
    }
  }

  lemma SharingStep(scalars: Scalars, available: seq<Element>, rule: PropertyRule, expected: string)
    requires available != []
    ensures Sharing(scalars, available, rule, expected) ==
              Sharing(scalars, available[..|available| - 1], rule, expected)
              + if SharesValue(scalars, expected, available[|available| - 1], rule.leaves) then 1 else 0
  {
    SharesMeaning(scalars, expected, available[|available| - 1], rule.leaves);
    hide SharesValue;
  }

  ghost predicate SharesAt(scalars: Scalars, available: seq<Element>, rule: PropertyRule, expected: string, i: nat) {
    i < |available| && SharesValue(scalars, expected, available[i], rule.leaves)
  }

  lemma {:induction false} SharingCounts(scalars: Scalars, available: seq<Element>, rule: PropertyRule,
                                         expected: string)
    ensures Sharing(scalars, available, rule, expected) > 0
            <==> exists i :: SharesAt(scalars, available, rule, expected, i)
    ensures Sharing(scalars, available, rule, expected) > 1
            <==> exists i: nat, j: nat :: i < j && SharesAt(scalars, available, rule, expected, i)
                                           && SharesAt(scalars, available, rule, expected, j)
  {
    if available != [] {
      var n := |available| - 1;
      SharingCounts(scalars, available[..n], rule, expected);
      SharingStep(scalars, available, rule, expected);
      forall i: nat
        ensures SharesAt(scalars, available, rule, expected, i)
                <==> if i == n then SharesValue(scalars, expected, available[n], rule.leaves)
                     else SharesAt(scalars, available[..n], rule, expected, i) {
      }
      assert !SharesAt(scalars, available[..n], rule, expected, n);
      hide Sharing, SharesValue, SharesAt;
    }
  }

  /** Two places of a list hold such elements exactly if two different ones do, or one that is there twice. */
  lemma TwoPlaces(xs: seq<Element>, holds: Element -> bool)
    ensures (exists i, j :: 0 <= i < j < |xs| && holds(xs[i]) && holds(xs[j])) <==>
              exists x, y :: x in xs && y in xs && holds(x) && holds(y) && (x != y || multiset(xs)[x] > 1)
  {
    if i, j :| 0 <= i < j < |xs| && holds(xs[i]) && holds(xs[j]) {
      if xs[i] == xs[j] {
        CountOfTwo(xs, i, j);
      }
      assert xs[i] in xs && xs[j] in xs;
    }
    if x, y :| x in xs && y in xs && holds(x) && holds(y) && (x != y || multiset(xs)[x] > 1) {
      if x != y {
        var i :| 0 <= i < |xs| && xs[i] == x;
        var j :| 0 <= j < |xs| && xs[j] == y;
        assert (i < j && holds(xs[i]) && holds(xs[j])) || (j < i && holds(xs[j]) && holds(xs[i]));
      } else {
        var i, j := TwicePlaces(xs, x);
        assert holds(xs[i]) && holds(xs[j]);
      }
    }
  }

  lemma TwicePlaces(xs: seq<Element>, x: Element) returns (i: nat, j: nat)
    requires multiset(xs)[x] > 1
    ensures i < j < |xs| && xs[i] == x && xs[j] == x
  {
    assert x in multiset(xs);
    i :| 0 <= i < |xs| && xs[i] == x;
    var front, rest := xs[..i], xs[i + 1..];
    assert xs == front + [x] + rest;
    assert multiset(xs)[x] == multiset(front)[x] + 1 + multiset(rest)[x];
    if multiset(rest)[x] > 0 {
      assert x in multiset(rest);
      var k :| 0 <= k < |rest| && rest[k] == x;
      j := i + 1 + k;
    } else {
      assert x in multiset(front);
      var k :| 0 <= k < |front| && front[k] == x;
      j := i;
      i := k;
    }
  }

  lemma SharedByPlaces(scalars: Scalars, all: seq<Element>, tags: seq<string>, expected: string, leaves: seq<string>,
                       xs: seq<Element>, holds: Element -> bool)
    requires forall x :: holds(x) <==> SharesValue(scalars, expected, x, leaves)
    requires forall x :: x in xs <==> IsOfTags(all, x, tags)
    requires forall x :: multiset(xs)[x] == multiset(all)[x] * multiset(tags)[x.tag]
    ensures (exists x, y :: x in xs && y in xs && holds(x) && holds(y) && (x != y || multiset(xs)[x] > 1))
            <==> IsSharedByTwo(scalars, all, tags, expected, leaves)
  {
    hide SharesValue, IsOfTags;
    if x, y :| x in xs && y in xs && holds(x) && holds(y) && (x != y || multiset(xs)[x] > 1) {
      assert IsOfTags(all, x, tags) && IsOfTags(all, y, tags);
    }
    if IsSharedByTwo(scalars, all, tags, expected, leaves) {
      var x, y :|
        && IsOfTags(all, x, tags) && SharesValue(scalars, expected, x, leaves)
        && IsOfTags(all, y, tags) && SharesValue(scalars, expected, y, leaves)
        && (x != y || multiset(all)[x] * multiset(tags)[x.tag] > 1);
      assert x in xs && y in xs && holds(x) && holds(y);
    }
  }

  lemma SharedMeaning(t: Tables, all: seq<Element>, tags: seq<string>, rule: PropertyRule, expected: string)
    requires IsIndexOf(t.index, all) && "" !in tags
    ensures Sharing(t.scalars, OfTags(t.index, tags), rule, expected) > 1
            <==> IsSharedByTwo(t.scalars, all, tags, expected, rule.leaves)
  {
    hide OfTags, IsIndexOf, AnySame, Values, Sharing, SharesValue, SharesAt, IsSharedByTwo;
    var xs := OfTags(t.index, tags);
    var holds := (x: Element) => AnySame(t.scalars, expected, Values(x, rule.leaves));
    forall x ensures holds(x) <==> SharesValue(t.scalars, expected, x, rule.leaves) {
      SharesMeaning(t.scalars, expected, x, rule.leaves);
    }
    SharingCounts(t.scalars, xs, rule, expected);
    TwoPlaces(xs, holds);
    OfTagsMembers(t.index, all, tags);
    forall x ensures multiset(xs)[x] == multiset(all)[x] * multiset(tags)[x.tag] {
      OfTagsCount(t.index, all, tags, x);
    }
    SharedByPlaces(t.scalars, all, tags, expected, rule.leaves, xs, holds);
    PlacesHold(t.scalars, expected, rule, xs, holds);
  }

  lemma PlacesHold(scalars: Scalars, expected: string, rule: PropertyRule, xs: seq<Element>, holds: Element -> bool)
    requires forall x :: holds(x) <==> SharesValue(scalars, expected, x, rule.leaves)
    ensures (exists i, j :: 0 <= i < j < |xs| && holds(xs[i]) && holds(xs[j]))
            <==> exists i: nat, j: nat :: i < j && SharesAt(scalars, xs, rule, expected, i)
                                          && SharesAt(scalars, xs, rule, expected, j)
  {
    hide SharesValue;
    if i: nat, j: nat :| i < j && SharesAt(scalars, xs, rule, expected, i) && SharesAt(scalars, xs, rule, expected, j) {
      assert holds(xs[i]) && holds(xs[j]);
    }
    if i, j :| 0 <= i < j < |xs| && holds(xs[i]) && holds(xs[j]) {
      assert SharesAt(scalars, xs, rule, expected, i) && SharesAt(scalars, xs, rule, expected, j);
    }
  }
}
