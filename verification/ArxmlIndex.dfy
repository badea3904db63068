/**
 The index over all ARXML elements, and what it is independent of: its groups are the filters of the
 element list, and the whole index does not depend on the order of discovery exactly when a key
 identifies its element.
 */
module ArxmlIndex {
  import opened Wrappers

  datatype Reference = Reference(kind: string, value: string, dest: Option<string>)

  datatype Element = Element(
    key: string,
    tag: string,
    shortName: Option<string>,
    packagePath: seq<string>,
    hierarchy: seq<string>,
    properties: map<string, seq<string>>,
    references: seq<Reference>)

  // ------------------------------------------------------------------ the order of keys

  /** Lexicographic order of strings. */
  predicate Precedes(a: string, b: string) {
    b != [] && (a == [] || a[0] < b[0] || (a[0] == b[0] && Precedes(a[1..], b[1..])))
  }

  lemma {:induction false} PrecedesIsStrict(a: string, b: string)
    ensures !(Precedes(a, b) && Precedes(b, a))
    ensures Precedes(a, b) || Precedes(b, a) || a == b
    ensures a == b ==> !Precedes(a, b)
  {
    if a != [] && b != [] {
      PrecedesIsStrict(a[1..], b[1..]);
      assert a == [a[0]] + a[1..] && b == [b[0]] + b[1..];
    }
  }

  lemma {:induction false} PrecedesIsTransitive(a: string, b: string, c: string)
    requires !Precedes(b, a) && !Precedes(c, b)
    ensures !Precedes(c, a)
  {
    if a != [] && b != [] && c != [] {
      if a[0] == b[0] == c[0] {
        PrecedesIsTransitive(a[1..], b[1..], c[1..]);
      }
    }
  }

  // ------------------------------------------------------------------ sorting by key

  predicate SortedByKey(xs: seq<Element>) {
    forall i, j :: 0 <= i < j < |xs| ==> !Precedes(xs[j].key, xs[i].key)
  }

  /** Inserts behind the elements of the same key. */
  function Insert(xs: seq<Element>, e: Element): seq<Element> {
    if xs == [] then [e]
    else
      var n := |xs| - 1;
      if Precedes(e.key, xs[n].key) then Insert(xs[..n], e) + [xs[n]] else xs + [e]
  }

  /** The stable sort of the source. */
  function SortByKey(xs: seq<Element>): seq<Element> {
    if xs == [] then [] else Insert(SortByKey(xs[..|xs| - 1]), xs[|xs| - 1])
  }

  lemma WithoutLast(a: seq<Element>)
    requires a != []
    ensures multiset(a[..|a| - 1]) == multiset(a) - multiset{a[|a| - 1]}
    ensures multiset(a) == multiset(a[..|a| - 1]) + multiset{a[|a| - 1]}
  {
    assert a == a[..|a| - 1] + [a[|a| - 1]];
  }

  lemma {:induction false} InsertHolds(xs: seq<Element>, e: Element)
    ensures multiset(Insert(xs, e)) == multiset(xs) + multiset{e}
  {
    if xs != [] && Precedes(e.key, xs[|xs| - 1].key) {
      var n := |xs| - 1;
      InsertHolds(xs[..n], e);
      WithoutLast(xs);
    }
  }

  lemma {:induction false} SortHolds(xs: seq<Element>)
    ensures multiset(SortByKey(xs)) == multiset(xs)
  {
    if xs != [] {
      var n := |xs| - 1;
      SortHolds(xs[..n]);
      InsertHolds(SortByKey(xs[..n]), xs[n]);
      WithoutLast(xs);
    }
  }

  lemma SortMembers(xs: seq<Element>, e: Element)
    ensures e in SortByKey(xs) <==> e in xs
  {
    SortHolds(xs);
    assert e in SortByKey(xs) <==> e in multiset(SortByKey(xs));
    assert e in xs <==> e in multiset(xs);
  }

  lemma {:induction false} InsertSorts(xs: seq<Element>, e: Element)
    requires SortedByKey(xs)
    ensures SortedByKey(Insert(xs, e))
  {
    if xs != [] {
      var n := |xs| - 1;
      if Precedes(e.key, xs[n].key) {
        InsertSorts(xs[..n], e);
        InsertHolds(xs[..n], e);
        var front := Insert(xs[..n], e);
        forall i | 0 <= i < |front| ensures !Precedes(xs[n].key, front[i].key) {
          assert front[i] in multiset(front);
          PrecedesIsStrict(e.key, xs[n].key);
          assert front[i] == e || front[i] in xs[..n];
        }
      } else {
        forall i | 0 <= i < n ensures !Precedes(e.key, xs[i].key) {
          PrecedesIsTransitive(xs[i].key, xs[n].key, e.key);
        }
      }
    }
  }

  lemma {:induction false} SortSorts(xs: seq<Element>)
    ensures SortedByKey(SortByKey(xs))
  {
    if xs != [] {
      SortSorts(xs[..|xs| - 1]);
      InsertSorts(SortByKey(xs[..|xs| - 1]), xs[|xs| - 1]);
    }
  }

  /** What is sorted already stays as it is. */
  lemma {:induction false} SortedIsKept(xs: seq<Element>)
    requires SortedByKey(xs)
    ensures SortByKey(xs) == xs
  {
    if xs != [] {
      var n := |xs| - 1;
      SortedIsKept(xs[..n]);
      assert xs == xs[..n] + [xs[n]];
    }
  }

  /** Equal keys mean equal elements. */
  predicate KeysIdentify(xs: seq<Element>) {
    forall x, y :: x in xs && y in xs && x.key == y.key ==> x == y
  }

  lemma LastIsShared(a: seq<Element>, b: seq<Element>)
    requires SortedByKey(a) && SortedByKey(b) && multiset(a) == multiset(b) && KeysIdentify(a) && a != []
    ensures |a| == |b| && a[|a| - 1] == b[|b| - 1]
  {
    assert |multiset(a)| == |a| && |multiset(b)| == |b|;
    var x, y := a[|a| - 1], b[|b| - 1];
    assert x in multiset(b) && y in multiset(a);
    var i :| 0 <= i < |b| && b[i] == x;
    var j :| 0 <= j < |a| && a[j] == y;
    PrecedesIsStrict(x.key, y.key);
  }

  /** Two sorted lists of the same elements. */
  ghost predicate SortedAlike(a: seq<Element>, b: seq<Element>) {
    SortedByKey(a) && SortedByKey(b) && multiset(a) == multiset(b) && KeysIdentify(a)
  }

  lemma SplitLast(a: seq<Element>, b: seq<Element>)
    requires SortedAlike(a, b) && a != []
    ensures |a| == |b| && a[|a| - 1] == b[|b| - 1]
    ensures SortedAlike(a[..|a| - 1], b[..|b| - 1])
  {
    LastIsShared(a, b);
    WithoutLast(a);
    WithoutLast(b);
  }

  /** With identifying keys there is only one way to sort. */
  lemma {:induction false} SortedIsUnique(a: seq<Element>, b: seq<Element>)
    requires SortedAlike(a, b)
    ensures a == b
    decreases |a|
  {
    if a == [] {
      assert |multiset(b)| == |b|;
    } else {
      var n := |a| - 1;
      SplitLast(a, b);
      SortedIsUnique(a[..n], b[..n]);
      assert a == a[..n] + [a[n]] && b == b[..n] + [b[n]];
    }
  }

  // ------------------------------------------------------------------ groups

  type Selector = Element -> Option<string>

  function Filtered(xs: seq<Element>, selector: Selector, k: string): seq<Element> {
    if xs == [] then []
    else
      Filtered(xs[..|xs| - 1], selector, k)
      + if selector(xs[|xs| - 1]) == Some(k) then [xs[|xs| - 1]] else []
  }

  lemma {:induction false} FilteredMembers(xs: seq<Element>, selector: Selector, k: string)
    ensures forall e :: e in Filtered(xs, selector, k) <==> e in xs && selector(e) == Some(k)
  {
    if xs != [] {
      FilteredMembers(xs[..|xs| - 1], selector, k);
      assert xs == xs[..|xs| - 1] + [xs[|xs| - 1]];
    }
  }

  lemma {:induction false} FilteredIsSorted(xs: seq<Element>, selector: Selector, k: string)
    requires SortedByKey(xs)
    ensures SortedByKey(Filtered(xs, selector, k))
  {
    if xs != [] {
      var n := |xs| - 1;
      FilteredIsSorted(xs[..n], selector, k);
      FilteredMembers(xs[..n], selector, k);
      var rest := Filtered(xs[..n], selector, k);
      forall i | 0 <= i < |rest| ensures !Precedes(xs[n].key, rest[i].key) {
        assert rest[i] in rest;
        var m :| 0 <= m < n && xs[..n][m] == rest[i];
        assert !Precedes(xs[n].key, xs[m].key);
      }
    }
  }

  type Groups = map<string, seq<Element>>

  /** Every non-empty attribute value that occurs, with exactly the elements that have it, in order. */
  ghost predicate IsGrouping(g: Groups, xs: seq<Element>, selector: Selector) {
    && (forall k :: k in g <==> k != "" && Filtered(xs, selector, k) != [])
    && (forall k :: k in g ==> g[k] == Filtered(xs, selector, k))
  }

  method Group(xs: seq<Element>, selector: Selector) returns (g: Groups)
    requires SortedByKey(xs)
    ensures IsGrouping(g, xs, selector)
  {
    var grouped: Groups := map[];
    for i := 0 to |xs|
      invariant IsGrouping(grouped, xs[..i], selector)
    {
      assert xs[..i + 1][..i] == xs[..i];
      var k := selector(xs[i]);
      if k.Some? && k.value != "" {
        grouped := grouped[k.value := (if k.value in grouped then grouped[k.value] else []) + [xs[i]]];
      }
    }
    assert xs[..|xs|] == xs;
    g := map k | k in grouped :: SortByKey(grouped[k]);
    forall k | k in grouped ensures g[k] == Filtered(xs, selector, k) {
      FilteredIsSorted(xs, selector, k);
      SortedIsKept(grouped[k]);
    }
  }

  // ------------------------------------------------------------------ the index

  datatype Index = Index(elements: seq<Element>, byKey: map<string, Element>, byTag: Groups, byName: Groups,
      byPath: Groups)

  function TagOf(e: Element): Option<string> { Some(e.tag) }

  function NameOf(e: Element): Option<string> { e.shortName }

  function Joined(names: seq<string>): string {
    if names == [] then "" else Joined(names[..|names| - 1]) + "/" + names[|names| - 1]
  }

  /** The canonical path of a named element: the names around it and its own, each behind a slash. */
  function PathOf(e: Element): Option<string> {
    if e.shortName.None? || e.shortName.value == "" then None else Some(Joined(e.hierarchy + [e.shortName.value]))
  }

  /** The last element of each key. */
  function ByKey(xs: seq<Element>): map<string, Element> {
    if xs == [] then map[] else ByKey(xs[..|xs| - 1])[xs[|xs| - 1].key := xs[|xs| - 1]]
  }

  lemma {:induction false} ByKeyHolds(xs: seq<Element>)
    ensures forall k :: k in ByKey(xs) ==> ByKey(xs)[k] in xs && ByKey(xs)[k].key == k
    ensures forall e :: e in xs ==> e.key in ByKey(xs)
  {
    if xs != [] {
      ByKeyHolds(xs[..|xs| - 1]);
      assert xs == xs[..|xs| - 1] + [xs[|xs| - 1]];
    }
  }

  ghost predicate IsIndexOf(index: Index, discovered: seq<Element>) {
    && index.elements == SortByKey(discovered)
    && index.byKey == ByKey(index.elements)
    && IsGrouping(index.byTag, index.elements, TagOf)
    && IsGrouping(index.byName, index.elements, NameOf)
    && IsGrouping(index.byPath, index.elements, PathOf)
  }

  method BuildIndex(discovered: seq<Element>) returns (index: Index)
    ensures IsIndexOf(index, discovered)
  {
    var elements := SortByKey(discovered);
    SortSorts(discovered);
    var byKey: map<string, Element> := map[];
    for i := 0 to |elements|
      invariant byKey == ByKey(elements[..i])
    {
      assert elements[..i + 1][..i] == elements[..i];
      byKey := byKey[elements[i].key := elements[i]];
    }
    assert elements[..|elements|] == elements;
    var byTag := Group(elements, TagOf);
    var byName := Group(elements, NameOf);
    var byPath := Group(elements, PathOf);
    index := Index(elements, byKey, byTag, byName, byPath);
  }

  /** A look-up in a group finds exactly what a scan of all elements finds. */
  function LookUp(g: Groups, k: string): seq<Element> {
    if k in g then g[k] else []
  }

  lemma LookUpIsScan(index: Index, discovered: seq<Element>, k: string, e: Element)
    requires IsIndexOf(index, discovered) && k != ""
    ensures e in LookUp(index.byTag, k) <==> e in discovered && e.tag == k
    ensures e in LookUp(index.byName, k) <==> e in discovered && e.shortName == Some(k)
    ensures e in LookUp(index.byPath, k) <==> e in discovered && PathOf(e) == Some(k)
  {
    FilteredMembers(index.elements, TagOf, k);
    FilteredMembers(index.elements, NameOf, k);
    FilteredMembers(index.elements, PathOf, k);
    SortMembers(discovered, e);
  }

  /** An index is determined by the sorted elements. */
  lemma IndexIsDetermined(a: Index, b: Index, xs: seq<Element>, ys: seq<Element>)
    requires IsIndexOf(a, xs) && IsIndexOf(b, ys) && SortByKey(xs) == SortByKey(ys)
    ensures a == b
  {
    assert a.byTag == b.byTag;
    assert a.byName == b.byName;
    assert a.byPath == b.byPath;
  }

  /** Identifying keys: two discovery orders of the same elements give the same index. */
  lemma DiscoveryOrderIsIrrelevant(a: Index, b: Index, xs: seq<Element>, ys: seq<Element>)
    requires IsIndexOf(a, xs) && IsIndexOf(b, ys) && multiset(xs) == multiset(ys) && KeysIdentify(xs)
    ensures a == b
  {
    SortHolds(xs);
    SortHolds(ys);
    SortSorts(xs);
    SortSorts(ys);
    SortedKeysIdentify(xs);
    SortedIsUnique(SortByKey(xs), SortByKey(ys));
    IndexIsDetermined(a, b, xs, ys);
  }

  lemma SortedKeysIdentify(xs: seq<Element>)
    requires KeysIdentify(xs)
    ensures KeysIdentify(SortByKey(xs))
  {
    forall x, y | x in SortByKey(xs) && y in SortByKey(xs) && x.key == y.key ensures x == y {
      SortMembers(xs, x);
      SortMembers(xs, y);
    }
  }

  // ------------------------------------------------------------------ when keys do not identify

  function KeyOf(e: Element): Option<string> { Some(e.key) }

  function IfKey(e: Element, k: string): seq<Element> {
    if e.key == k then [e] else []
  }

  lemma FilteredAppend(xs: seq<Element>, e: Element, k: string)
    ensures Filtered(xs + [e], KeyOf, k) == Filtered(xs, KeyOf, k) + IfKey(e, k)
  {
    assert (xs + [e])[..|xs|] == xs;
  }

  lemma SwapWithEmpty(a: seq<Element>, b: seq<Element>, c: seq<Element>)
    requires b == [] || c == []
    ensures (a + b) + c == (a + c) + b
  {
  }

  /** Inserting `e` before the last element `z`, of a larger key. */
  lemma InsertedBeforeLast(init: seq<Element>, z: Element, inserted: seq<Element>, e: Element, k: string)
    requires Precedes(e.key, z.key)
    requires Filtered(inserted, KeyOf, k) == Filtered(init, KeyOf, k) + IfKey(e, k)
    ensures Filtered(inserted + [z], KeyOf, k) == Filtered(init + [z], KeyOf, k) + IfKey(e, k)
  {
    FilteredAppend(inserted, z, k);
    FilteredAppend(init, z, k);
    PrecedesIsStrict(e.key, z.key);
    SwapWithEmpty(Filtered(init, KeyOf, k), IfKey(e, k), IfKey(z, k));
  }

  lemma {:induction false} InsertIsStable(xs: seq<Element>, e: Element, k: string)
    requires SortedByKey(xs)
    ensures Filtered(Insert(xs, e), KeyOf, k) == Filtered(xs, KeyOf, k) + IfKey(e, k)
  {
    if xs == [] {
      FilteredAppend([], e, k);
      assert [] + [e] == [e];
    } else if Precedes(e.key, xs[|xs| - 1].key) {
      var n := |xs| - 1;
      InsertIsStable(xs[..n], e, k);
      InsertedBeforeLast(xs[..n], xs[n], Insert(xs[..n], e), e, k);
      assert xs == xs[..n] + [xs[n]];
    } else {
      FilteredAppend(xs, e, k);
    }
  }

  /** Elements of one key keep their order of discovery. */
  lemma {:induction false} SortIsStable(xs: seq<Element>, k: string)
    ensures Filtered(SortByKey(xs), KeyOf, k) == Filtered(xs, KeyOf, k)
  {
    if xs != [] {
      var n := |xs| - 1;
      SortIsStable(xs[..n], k);
      SortSorts(xs[..n]);
      InsertIsStable(SortByKey(xs[..n]), xs[n], k);
    }
  }

  lemma {:induction false} FilteredStartsWith(x: Element, rest: seq<Element>)
    ensures Filtered([x] + rest, KeyOf, x.key) != [] && Filtered([x] + rest, KeyOf, x.key)[0] == x
  {
    if rest == [] {
      assert [x] + rest == [x] && [x][..0] == [];
    } else {
      var n := |rest| - 1;
      FilteredStartsWith(x, rest[..n]);
      assert ([x] + rest)[..|[x] + rest| - 1] == [x] + rest[..n];
    }
  }

  ghost predicate OrderMatters(xs: seq<Element>) {
    exists a, b :: multiset(a) == multiset(xs) == multiset(b) && SortByKey(a) != SortByKey(b)
  }

  lemma MoveToFront(xs: seq<Element>, x: Element) returns (rest: seq<Element>)
    requires x in xs
    ensures multiset([x] + rest) == multiset(xs)
  {
    var i :| 0 <= i < |xs| && xs[i] == x;
    rest := xs[..i] + xs[i + 1..];
    assert xs == xs[..i] + [x] + xs[i + 1..];
  }

  /** Two elements of one key, in two orders of discovery. */
  lemma OrdersDiffer(x: Element, y: Element, restX: seq<Element>, restY: seq<Element>)
    requires x.key == y.key && x != y
    ensures SortByKey([x] + restX) != SortByKey([y] + restY)
  {
    FilteredStartsWith(x, restX);
    FilteredStartsWith(y, restY);
    SortIsStable([x] + restX, x.key);
    SortIsStable([y] + restY, x.key);
  }

  /** The order of discovery shows in the element list if and only if some key has two different elements. */
  lemma OrderMattersIff(xs: seq<Element>)
    ensures OrderMatters(xs) <==> !KeysIdentify(xs)
  {
    if !KeysIdentify(xs) {
      var x, y :| x in xs && y in xs && x.key == y.key && x != y;
      var restX := MoveToFront(xs, x);
      var restY := MoveToFront(xs, y);
      OrdersDiffer(x, y, restX, restY);
    } else if OrderMatters(xs) {
      var a, b :| multiset(a) == multiset(xs) == multiset(b) && SortByKey(a) != SortByKey(b);
      SamePermutation(xs, a, b);
      assert false;
    }
  }

  lemma SamePermutation(xs: seq<Element>, a: seq<Element>, b: seq<Element>)
    requires KeysIdentify(xs) && multiset(a) == multiset(xs) == multiset(b)
    ensures SortByKey(a) == SortByKey(b)
  {
    forall x, y | x in a && y in a && x.key == y.key ensures x == y {
      assert x in multiset(xs) && y in multiset(xs);
    }
    SortedKeysIdentify(a);
    SortHolds(a);
    SortHolds(b);
    SortSorts(a);
    SortSorts(b);
    SortedIsUnique(SortByKey(a), SortByKey(b));
  }
}
