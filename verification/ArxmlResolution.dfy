/**
 Looking up references and candidates in the ARXML index: a reference goes by its whole path first, then
 by its last name, narrowed to the owner's package where that leaves anything.
 */
module ArxmlResolution {
  import opened ArxmlIndex
  import opened Wrappers

  // ------------------------------------------------------------------ paths

  predicate IsSpace(c: char) {
    c == ' ' || c == '\t' || c == '\n' || c == '\r' || c == '\U{B}' || c == '\U{C}'
  }

  predicate IsSlash(c: char) {
    c == '/'
  }

  function Stripped(s: string, drop: char -> bool): string {
    if s == [] then s
    else if drop(s[0]) then Stripped(s[1..], drop)
    else if drop(s[|s| - 1]) then Stripped(s[..|s| - 1], drop)
    else s
  }

  /** A leading slash and no other slash at the ends. */
  function Normalized(reference: string): string {
    "/" + Stripped(Stripped(reference, IsSpace), IsSlash)
  }

  function Terminal(path: string): string {
    if path == [] then [] else if path[|path| - 1] == '/' then [] else Terminal(path[..|path| - 1]) + [path[|path| - 1]]
  }

  // ------------------------------------------------------------------ resolution

  datatype State = Resolved | Ambiguous | Missing
  datatype Resolution = Resolution(state: State, candidates: seq<string>)

  /** An absent or empty destination admits every tag. */
  predicate FitsDest(e: Element, dest: Option<string>) {
    dest.None? || dest.value == "" || e.tag == dest.value
  }

  function OfDest(xs: seq<Element>, dest: Option<string>): seq<Element> {
    Kept(xs, (e: Element) => FitsDest(e, dest))
  }

  function Kept(xs: seq<Element>, keep: Element -> bool): seq<Element> {
    if xs == [] then [] else Kept(xs[..|xs| - 1], keep) + if keep(xs[|xs| - 1]) then [xs[|xs| - 1]] else []
  }

  function KeysOf(xs: seq<Element>): (r: seq<string>)
    ensures |r| == |xs|
    ensures forall i :: 0 <= i < |xs| ==> r[i] == xs[i].key
  {
    seq(|xs|, i requires 0 <= i < |xs| => xs[i].key)
  }

  predicate IsRelative(reference: string) {
    reference == [] || reference[0] != '/'
  }

  /** An element in the owner's package or below it. */
  predicate InContext(e: Element, owner: Element) {
    owner.packagePath <= e.packagePath
  }

  /** Elements in the owner's context, if there are any; otherwise all. */
  function Narrowed(xs: seq<Element>, reference: string, owner: Option<Element>): seq<Element> {
    if owner.None? || !IsRelative(reference) then xs
    else
      var contextual := Kept(xs, (e: Element) => InContext(e, owner.value));
      if contextual != [] then contextual else xs
  }

  function Resolve(index: Index, reference: string, owner: Option<Element>, dest: Option<string>): Resolution {
    var normalized := Normalized(reference);
    var exact := OfDest(LookUp(index.byPath, normalized), dest);
    if |exact| == 1 then Resolution(Resolved, [exact[0].key])
    else if |exact| > 1 then Resolution(Ambiguous, KeysOf(exact))
    else
      var named := OfDest(LookUp(index.byName, Terminal(normalized)), dest);
      var candidates := Narrowed(named, reference, owner);
      if |candidates| == 1 then Resolution(Resolved, [candidates[0].key])
      else if |candidates| > 1 then Resolution(Ambiguous, KeysOf(candidates))
      else Resolution(Missing, [])
  }

  // ------------------------------------------------------------------ the rule, by a scan of all elements

  predicate IsExact(e: Element, reference: string, dest: Option<string>) {
    PathOf(e) == Some(Normalized(reference)) && FitsDest(e, dest)
  }

  predicate IsNamed(e: Element, reference: string, dest: Option<string>) {
    e.shortName == Some(Terminal(Normalized(reference))) && Terminal(Normalized(reference)) != "" && FitsDest(e, dest)
  }

  /** The owner's package narrows a relative reference. */
  predicate Narrows(e: Element, reference: string, owner: Option<Element>) {
    owner.Some? && IsRelative(reference) && InContext(e, owner.value)
  }

  /** Exact matches if there are any; otherwise named ones, in context if any is in context. */
  predicate IsPreferred(all: seq<Element>, e: Element, exact: Element -> bool, named: Element -> bool,
                        context: Element -> bool) {
    && e in all
    && if exists x :: x in all && exact(x) then exact(e)
       else named(e) && ((exists x :: x in all && named(x) && context(x)) ==> context(e))
  }

  /** The elements that the reference may mean. */
  predicate IsTarget(all: seq<Element>, e: Element, reference: string, owner: Option<Element>, dest: Option<string>) {
    IsPreferred(all, e, (x: Element) => IsExact(x, reference, dest), (x: Element) => IsNamed(x, reference, dest),
                (x: Element) => Narrows(x, reference, owner))
  }

  /** The list of targets that `Resolve` counts. */
  function Targets(index: Index, reference: string, owner: Option<Element>, dest: Option<string>): seq<Element> {
    var exact := OfDest(LookUp(index.byPath, Normalized(reference)), dest);
    if exact != [] then exact
    else Narrowed(OfDest(LookUp(index.byName, Terminal(Normalized(reference))), dest), reference, owner)
  }

  lemma {:induction false} KeptMembers(xs: seq<Element>, keep: Element -> bool)
    ensures forall e :: e in Kept(xs, keep) <==> e in xs && keep(e)
    ensures Kept(xs, keep) == [] <==> forall e :: e in xs ==> !keep(e)
  {
    if xs != [] {
      KeptMembers(xs[..|xs| - 1], keep);
      assert xs == xs[..|xs| - 1] + [xs[|xs| - 1]];
      assert xs[|xs| - 1] in xs;
    }
  }

  lemma ExactMembers(index: Index, all: seq<Element>, reference: string, dest: Option<string>)
    requires IsIndexOf(index, all)
    ensures forall e ::
              e in OfDest(LookUp(index.byPath, Normalized(reference)), dest)
              <==> e in all && IsExact(e, reference, dest)
  {
    var path := Normalized(reference);
    KeptMembers(LookUp(index.byPath, path), (e: Element) => FitsDest(e, dest));
    forall e ensures e in LookUp(index.byPath, path) <==> e in all && PathOf(e) == Some(path) {
      LookUpIsScan(index, all, path, e);
    }
  }

  lemma NamedMembers(index: Index, all: seq<Element>, reference: string, dest: Option<string>)
    requires IsIndexOf(index, all)
    ensures forall e ::
              e in OfDest(LookUp(index.byName, Terminal(Normalized(reference))), dest)
              <==> e in all && IsNamed(e, reference, dest)
  {
    var name := Terminal(Normalized(reference));
    KeptMembers(LookUp(index.byName, name), (e: Element) => FitsDest(e, dest));
    if name != "" {
      forall e ensures e in LookUp(index.byName, name) <==> e in all && e.shortName == Some(name) {
        LookUpIsScan(index, all, name, e);
      }
    }
  }

  lemma NarrowedMembers(named: seq<Element>, reference: string, owner: Option<Element>, e: Element)
    ensures e in Narrowed(named, reference, owner) <==>
              e in named && ((exists x :: x in named && Narrows(x, reference, owner)) ==> Narrows(e, reference, owner))
  {
    if owner.Some? && IsRelative(reference) {
      var contextual := Kept(named, (x: Element) => InContext(x, owner.value));
      KeptMembers(named, (x: Element) => InContext(x, owner.value));
      if contextual != [] {
        assert contextual[0] in contextual;
        assert Narrows(contextual[0], reference, owner);
      }
    }
  }

  lemma PreferredMembers(all: seq<Element>, e: Element, exact: Element -> bool, named: Element -> bool,
                         context: Element -> bool,
                         exactList: seq<Element>, namedList: seq<Element>, narrowed: seq<Element>)
    requires forall x :: x in exactList <==> x in all && exact(x)
    requires forall x :: x in namedList <==> x in all && named(x)
    requires e in narrowed <==> e in namedList && ((exists x :: x in namedList && context(x)) ==> context(e))
    ensures e in (if exactList != [] then exactList else narrowed) <==> IsPreferred(all, e, exact, named, context)
  {
    if exactList != [] {
      assert exactList[0] in exactList;
    }
  }

  /** The index agrees with the scan. */
  lemma TargetsAreScanned(index: Index, all: seq<Element>, reference: string, owner: Option<Element>,
                          dest: Option<string>, e: Element)
    requires IsIndexOf(index, all)
    ensures e in Targets(index, reference, owner, dest) <==> IsTarget(all, e, reference, owner, dest)
  {
    var exact := OfDest(LookUp(index.byPath, Normalized(reference)), dest);
    var named := OfDest(LookUp(index.byName, Terminal(Normalized(reference))), dest);
    ExactMembers(index, all, reference, dest);
    NamedMembers(index, all, reference, dest);
    NarrowedMembers(named, reference, owner, e);
    PreferredMembers(all, e, (x: Element) => IsExact(x, reference, dest), (x: Element) => IsNamed(x, reference, dest),
                     (x: Element) => Narrows(x, reference, owner), exact, named, Narrowed(named, reference, owner));
  }

  /** The answer is decided by the number of targets, and it names all of them. */
  lemma ResolveCountsTargets(index: Index, reference: string, owner: Option<Element>, dest: Option<string>)
    ensures var targets, r := Targets(index, reference, owner, dest), Resolve(index, reference, owner, dest);
            && r.candidates == KeysOf(targets)
            && (r.state == Missing <==> targets == [])
            && (r.state == Resolved <==> |targets| == 1)
            && (r.state == Ambiguous <==> |targets| > 1)
  {
    var targets, r := Targets(index, reference, owner, dest), Resolve(index, reference, owner, dest);
    if |targets| == 1 {
      assert KeysOf(targets) == [targets[0].key];
    }
    assert KeysOf([]) == [];
  }

  // ------------------------------------------------------------------ what the answer means

  lemma {:induction false} FilteredCount(xs: seq<Element>, selector: Selector, k: string, e: Element)
    ensures multiset(Filtered(xs, selector, k))[e] == if e in Filtered(xs, selector, k) then multiset(xs)[e] else 0
    ensures e in Filtered(xs, selector, k) <==> e in xs && selector(e) == Some(k)
  {
    if xs != [] {
      FilteredCount(xs[..|xs| - 1], selector, k, e);
      WithoutLast(xs);
    }
  }

  lemma {:induction false} KeptCount(xs: seq<Element>, keep: Element -> bool, e: Element)
    ensures multiset(Kept(xs, keep))[e] == if keep(e) then multiset(xs)[e] else 0
  {
    if xs != [] {
      KeptCount(xs[..|xs| - 1], keep, e);
      WithoutLast(xs);
    }
  }

  lemma LookUpCount(g: Groups, xs: seq<Element>, selector: Selector, k: string, e: Element)
    requires IsGrouping(g, xs, selector)
    ensures e in LookUp(g, k) ==> multiset(LookUp(g, k))[e] == multiset(xs)[e]
  {
    if k in g {
      FilteredCount(xs, selector, k, e);
    }
  }

  lemma OfDestCount(xs: seq<Element>, dest: Option<string>, e: Element)
    ensures e in OfDest(xs, dest) ==> multiset(OfDest(xs, dest))[e] == multiset(xs)[e] && e in xs
  {
    KeptCount(xs, (x: Element) => FitsDest(x, dest), e);
    assert e in OfDest(xs, dest) <==> e in multiset(OfDest(xs, dest));
  }

  lemma NarrowedCount(xs: seq<Element>, reference: string, owner: Option<Element>, e: Element)
    ensures e in Narrowed(xs, reference, owner) ==>
              multiset(Narrowed(xs, reference, owner))[e] == multiset(xs)[e] && e in xs
  {
    if owner.Some? {
      KeptCount(xs, (x: Element) => InContext(x, owner.value), e);
    }
    assert e in Narrowed(xs, reference, owner) <==> e in multiset(Narrowed(xs, reference, owner));
  }

  /** A target is listed as often as it was discovered. */
  lemma TargetsCount(index: Index, all: seq<Element>, reference: string, owner: Option<Element>, dest: Option<string>,
                     e: Element)
    requires IsIndexOf(index, all) && e in Targets(index, reference, owner, dest)
    ensures multiset(Targets(index, reference, owner, dest))[e] == multiset(all)[e]
  {
    SortHolds(all);
    var byPath, byName := LookUp(index.byPath, Normalized(reference)),
        LookUp(index.byName, Terminal(Normalized(reference)));
    LookUpCount(index.byPath, index.elements, PathOf, Normalized(reference), e);
    LookUpCount(index.byName, index.elements, NameOf, Terminal(Normalized(reference)), e);
    OfDestCount(byPath, dest, e);
    OfDestCount(byName, dest, e);
    NarrowedCount(OfDest(byName, dest), reference, owner, e);
  }

  lemma SmallList(xs: seq<Element>, x: Element, y: Element)
    requires |xs| <= 1 && x in xs && y in xs
    ensures x == y && multiset(xs)[x] == 1
  {
    assert xs == [xs[0]];
  }

  lemma CountsMean(xs: seq<Element>, all: seq<Element>, target: Element -> bool)
    requires forall e :: e in xs <==> target(e)
    requires forall e :: e in xs ==> multiset(xs)[e] == multiset(all)[e]
    ensures xs == [] <==> forall e :: !target(e)
    ensures |xs| > 1
            <==> (exists x, y :: x != y && target(x) && target(y)) || (exists x :: target(x) && multiset(all)[x] > 1)
    ensures forall key :: key in KeysOf(xs) <==> exists e :: target(e) && e.key == key
  {
    if xs != [] {
      assert xs[0] in xs;
    }
    if |xs| > 1 {
      assert xs[1] in xs;
      if xs[0] == xs[1] {
        CountOfTwo(xs, 0, 1);
      }
    }
    if |xs| <= 1 {
      forall x, y | target(x) && target(y) ensures x == y && multiset(all)[x] == 1 {
        SmallList(xs, x, y);
      }
    }
    forall key ensures key in KeysOf(xs) <==> exists e :: target(e) && e.key == key {
      if e :| target(e) && e.key == key {
        var i :| 0 <= i < |xs| && xs[i] == e;
        assert KeysOf(xs)[i] == key;
      }
      if key in KeysOf(xs) {
        var i :| 0 <= i < |xs| && KeysOf(xs)[i] == key;
        assert xs[i] in xs;
      }
    }
  }

  /** Missing means no target; ambiguous means two different ones, or one that the document holds twice. */
  lemma ResolveMeaning(index: Index, all: seq<Element>, reference: string, owner: Option<Element>, dest: Option<string>)
    requires IsIndexOf(index, all)
    ensures var r := Resolve(index, reference, owner, dest);
            && (r.state == Missing <==> forall e :: !IsTarget(all, e, reference, owner, dest))
            && (r.state == Ambiguous <==>
                 || (exists x, y ::
                     x != y && IsTarget(all, x, reference, owner, dest) && IsTarget(all, y, reference, owner, dest))
                 || (exists x :: IsTarget(all, x, reference, owner, dest) && multiset(all)[x] > 1))
            && (forall key ::
                key in r.candidates <==> exists e :: IsTarget(all, e, reference, owner, dest) && e.key == key)
  {
    var targets := Targets(index, reference, owner, dest);
    ResolveCountsTargets(index, reference, owner, dest);
    forall e ensures e in targets <==> IsTarget(all, e, reference, owner, dest) {
      TargetsAreScanned(index, all, reference, owner, dest, e);
    }
    forall e | e in targets ensures multiset(targets)[e] == multiset(all)[e] {
      TargetsCount(index, all, reference, owner, dest, e);
    }
    CountsMean(targets, all, (e: Element) => IsTarget(all, e, reference, owner, dest));
  }

  /** Every key in an answer is in the index. */
  lemma AnswersAreIndexed(index: Index, all: seq<Element>, reference: string, owner: Option<Element>,
                          dest: Option<string>, key: string)
    requires IsIndexOf(index, all) && key in Resolve(index, reference, owner, dest).candidates
    ensures key in index.byKey && index.byKey[key].key == key && index.byKey[key] in all
  {
    var targets := Targets(index, reference, owner, dest);
    ResolveCountsTargets(index, reference, owner, dest);
    var i :| 0 <= i < |targets| && KeysOf(targets)[i] == key;
    TargetsAreScanned(index, all, reference, owner, dest, targets[i]);
    SortMembers(all, targets[i]);
    ByKeyHolds(index.elements);
    SortMembers(all, index.byKey[key]);
  }

  /** With identifying keys, the key of a resolved reference leads back to its one target. */
  lemma ResolvedLeadsToTarget(index: Index, all: seq<Element>, reference: string, owner: Option<Element>,
                              dest: Option<string>)
    requires IsIndexOf(index, all) && KeysIdentify(all)
    requires Resolve(index, reference, owner, dest).state == Resolved
    ensures |Resolve(index, reference, owner, dest).candidates| == 1
    ensures var key := Resolve(index, reference, owner, dest).candidates[0];
            key in index.byKey && IsTarget(all, index.byKey[key], reference, owner, dest)
  {
    var targets := Targets(index, reference, owner, dest);
    ResolveCountsTargets(index, reference, owner, dest);
    AnswersAreIndexed(index, all, reference, owner, dest, targets[0].key);
    TargetsAreScanned(index, all, reference, owner, dest, targets[0]);
  }

  // ------------------------------------------------------------------ candidates by tag

  function OfTags(index: Index, tags: seq<string>): seq<Element> {
    if tags == [] then [] else OfTags(index, tags[..|tags| - 1]) + LookUp(index.byTag, tags[|tags| - 1])
  }

  /** The values of a dictionary filled by key: a later element replaces an earlier one of its key in place. */
  function UniqueByKey(xs: seq<Element>): seq<Element> {
    if xs == [] then [] else Replaced(UniqueByKey(xs[..|xs| - 1]), xs[|xs| - 1])
  }

  function Replaced(xs: seq<Element>, e: Element): seq<Element> {
    if xs == [] then [e]
    else if xs[0].key == e.key then [e] + xs[1..]
    else [xs[0]] + Replaced(xs[1..], e)
  }

  function AskedFor(index: Index, tags: seq<string>, name: Option<string>): seq<Element> {
    var values := OfTags(index, tags);
    if name.None? then values else Kept(values, (e: Element) => e.shortName == name)
  }

  function Candidates(index: Index, tags: seq<string>, name: Option<string>): seq<Element> {
    SortByKey(UniqueByKey(AskedFor(index, tags, name)))
  }

  predicate KeysDiffer(xs: seq<Element>) {
    forall i, j :: 0 <= i < j < |xs| ==> xs[i].key != xs[j].key
  }

  lemma {:induction false} ReplacedMembers(xs: seq<Element>, e: Element)
    requires KeysDiffer(xs)
    ensures KeysDiffer(Replaced(xs, e))
    ensures forall x :: x in Replaced(xs, e) <==> x == e || (x in xs && x.key != e.key)
  {
    if xs != [] {
      assert xs == [xs[0]] + xs[1..];
      if xs[0].key != e.key {
        ReplacedMembers(xs[1..], e);
        var rest := Replaced(xs[1..], e);
        forall i | 0 <= i < |rest| ensures rest[i].key != xs[0].key {
          assert rest[i] in rest;
          if rest[i] != e {
            var k :| 0 <= k < |xs[1..]| && xs[1..][k] == rest[i];
            assert xs[k + 1].key != xs[0].key;
          }
        }
      } else {
        forall x | x in xs[1..] ensures x.key != e.key {
          var k :| 0 <= k < |xs[1..]| && xs[1..][k] == x;
          assert xs[k + 1].key != xs[0].key;
        }
      }
    }
  }

  predicate HasKey(xs: seq<Element>, key: string) {
    exists y :: y in xs && y.key == key
  }

  lemma {:induction false} UniqueMembers(xs: seq<Element>)
    ensures KeysDiffer(UniqueByKey(xs))
    ensures forall x :: x in UniqueByKey(xs) ==> x in xs
    ensures forall x :: x in xs ==> HasKey(UniqueByKey(xs), x.key)
  {
    if xs != [] {
      var n := |xs| - 1;
      var before, unique := UniqueByKey(xs[..n]), UniqueByKey(xs);
      UniqueMembers(xs[..n]);
      ReplacedMembers(before, xs[n]);
      assert unique == Replaced(before, xs[n]);
      hide UniqueByKey, KeysDiffer, Replaced;
      assert xs == xs[..n] + [xs[n]];
      forall x | x in xs ensures HasKey(unique, x.key) {
        if x.key == xs[n].key {
          assert xs[n] in unique;
        } else {
          assert x in xs[..n];
          var y :| y in before && y.key == x.key;
          assert y in unique;
        }
      }
    }
  }

  lemma {:induction false} OfTagsMembers(index: Index, all: seq<Element>, tags: seq<string>)
    requires IsIndexOf(index, all) && "" !in tags
    ensures forall e :: e in OfTags(index, tags) <==> e in all && e.tag in tags
  {
    if tags != [] {
      var n := |tags| - 1;
      OfTagsMembers(index, all, tags[..n]);
      assert tags == tags[..n] + [tags[n]];
      forall e ensures e in LookUp(index.byTag, tags[n]) <==> e in all && e.tag == tags[n] {
        LookUpIsScan(index, all, tags[n], e);
      }
    }
  }

  lemma {:induction false} DifferentKeysCount(xs: seq<Element>, e: Element)
    requires KeysDiffer(xs)
    ensures multiset(xs)[e] <= 1
  {
    if xs != [] {
      var n := |xs| - 1;
      DifferentKeysCount(xs[..n], e);
      WithoutLast(xs);
      assert xs[n] !in multiset(xs[..n]);
    }
  }

  lemma CountOfTwo(xs: seq<Element>, i: nat, j: nat)
    requires i < j < |xs| && xs[i] == xs[j]
    ensures multiset(xs)[xs[i]] >= 2
  {
    assert xs == xs[..i] + [xs[i]] + xs[i + 1..j] + [xs[j]] + xs[j + 1..];
  }

  lemma SortKeepsKeysDifferent(xs: seq<Element>)
    requires KeysDiffer(xs)
    ensures KeysDiffer(SortByKey(xs))
  {
    var sorted := SortByKey(xs);
    SortHolds(xs);
    forall i, j | 0 <= i < j < |sorted| ensures sorted[i].key != sorted[j].key {
      SortMembers(xs, sorted[i]);
      SortMembers(xs, sorted[j]);
      var k :| 0 <= k < |xs| && xs[k] == sorted[i];
      var m :| 0 <= m < |xs| && xs[m] == sorted[j];
      if sorted[i] == sorted[j] {
        CountOfTwo(sorted, i, j);
        DifferentKeysCount(xs, sorted[i]);
        assert false;
      }
      assert k != m;
    }
  }

  /** The element has one of the tags, and the name if one is given. */
  predicate IsAskedFor(all: seq<Element>, e: Element, tags: seq<string>, name: Option<string>) {
    e in all && e.tag in tags && (name.Some? ==> e.shortName == name)
  }

  /**
   The candidates, in key order, are elements with one of the tags, and the name if one is given: one for each
   key. They are all such elements if and only if no two of these share a key.
   */
  lemma CandidatesAreScanned(index: Index, all: seq<Element>, tags: seq<string>, name: Option<string>)
    requires IsIndexOf(index, all) && "" !in tags
    ensures SortedByKey(Candidates(index, tags, name)) && KeysDiffer(Candidates(index, tags, name))
    ensures forall e :: e in Candidates(index, tags, name) ==> IsAskedFor(all, e, tags, name)
    ensures forall e :: IsAskedFor(all, e, tags, name) ==> HasKey(Candidates(index, tags, name), e.key)
    ensures (forall e :: e in Candidates(index, tags, name) <==> IsAskedFor(all, e, tags, name))
            <==> forall x, y ::
                IsAskedFor(all, x, tags, name) && IsAskedFor(all, y, tags, name) && x.key == y.key ==> x == y
  {
    hide UniqueByKey, SortByKey, KeysDiffer, SortedByKey, IsAskedFor, AskedFor;
    var named := AskedFor(index, tags, name);
    var unique, found := UniqueByKey(named), Candidates(index, tags, name);
    AskedForMembers(index, all, tags, name);
    UniqueMembers(named);
    SortSorts(unique);
    SortKeepsKeysDifferent(unique);
    forall e ensures e in found <==> e in unique {
      SortMembers(unique, e);
    }
    forall e | IsAskedFor(all, e, tags, name) ensures HasKey(found, e.key) {
      var y :| y in unique && y.key == e.key;
      assert y in found;
    }
    OneOfEachKey(found);
    AllOrOneOfEachKey(all, tags, name, found);
  }

  lemma AllOrOneOfEachKey(all: seq<Element>, tags: seq<string>, name: Option<string>, found: seq<Element>)
    requires forall e :: e in found ==> IsAskedFor(all, e, tags, name)
    requires forall e :: IsAskedFor(all, e, tags, name) ==> HasKey(found, e.key)
    requires forall x, y :: x in found && y in found && x.key == y.key ==> x == y
    ensures (forall e :: e in found <==> IsAskedFor(all, e, tags, name))
            <==> forall x, y ::
                IsAskedFor(all, x, tags, name) && IsAskedFor(all, y, tags, name) && x.key == y.key ==> x == y
  {
    hide IsAskedFor;
    if forall x, y :: IsAskedFor(all, x, tags, name) && IsAskedFor(all, y, tags, name) && x.key == y.key ==> x == y {
      forall e | IsAskedFor(all, e, tags, name) ensures e in found {
        var y :| y in found && y.key == e.key;
        assert IsAskedFor(all, y, tags, name);
      }
    }
  }

  lemma AskedForMembers(index: Index, all: seq<Element>, tags: seq<string>, name: Option<string>)
    requires IsIndexOf(index, all) && "" !in tags
    ensures forall e :: e in AskedFor(index, tags, name) <==> IsAskedFor(all, e, tags, name)
  {
    OfTagsMembers(index, all, tags);
    KeptMembers(OfTags(index, tags), (e: Element) => e.shortName == name);
  }

  lemma OneOfEachKey(xs: seq<Element>)
    requires KeysDiffer(xs)
    ensures forall x, y :: x in xs && y in xs && x.key == y.key ==> x == y
  {
  }
}
