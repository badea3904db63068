/**
 What the pieces of the ARXML look-up mean: how a path is spelled, what is stripped from a reference, which element
 of a key is kept; and that the path of an element, used as a reference, leads back to it.
 */
module ArxmlMeaning {
  import opened ArxmlIndex
  import opened ArxmlResolution
  import opened Wrappers

  // ------------------------------------------------------------------ paths

  /** Each name behind a slash. */
  function Spelled(names: seq<string>): string {
    if names == [] then "" else "/" + names[0] + Spelled(names[1..])
  }

  lemma {:induction false} SpelledAppend(names: seq<string>, last: string)
    ensures Spelled(names + [last]) == Spelled(names) + "/" + last
  {
    if names == [] {
      assert [last][1..] == [];
      assert Spelled([last]) == "/" + last + Spelled([]);
    } else {
      assert (names + [last])[1..] == names[1..] + [last];
      SpelledAppend(names[1..], last);
    }
  }

  lemma {:induction false} JoinedIsSpelled(names: seq<string>)
    ensures Joined(names) == Spelled(names)
  {
    if names != [] {
      var n := |names| - 1;
      JoinedIsSpelled(names[..n]);
      SpelledAppend(names[..n], names[n]);
      assert names == names[..n] + [names[n]];
    }
  }

  /** The path of an element spells the names around it and its own; unnamed elements have none. */
  lemma PathMeaning(e: Element)
    ensures PathOf(e).Some? <==> e.shortName.Some? && e.shortName != Some("")
    ensures PathOf(e).Some? ==> PathOf(e).value == Spelled(e.hierarchy) + "/" + e.shortName.value
  {
    if e.shortName.Some? {
      JoinedIsSpelled(e.hierarchy + [e.shortName.value]);
      SpelledAppend(e.hierarchy, e.shortName.value);
    }
  }

  /** Stripping takes dropped characters off both ends, and goes on until both ends are kept. */
  lemma {:induction false} StrippedMeaning(s: string, drop: char -> bool) returns (a: string, b: string)
    ensures s == a + Stripped(s, drop) + b
    ensures forall c :: c in a || c in b ==> drop(c)
    ensures var r := Stripped(s, drop); r != [] ==> !drop(r[0]) && !drop(r[|r| - 1])
    decreases |s|
  {
    a, b := "", "";
    var r := Stripped(s, drop);
    if s != [] && drop(s[0]) {
      assert r == Stripped(s[1..], drop);
      hide Stripped;
      a, b := StrippedMeaning(s[1..], drop);
      assert s == [s[0]] + s[1..];
      a := [s[0]] + a;
    } else if s != [] && drop(s[|s| - 1]) {
      var n := |s| - 1;
      assert r == Stripped(s[..n], drop);
      hide Stripped;
      a, b := StrippedMeaning(s[..n], drop);
      assert s == s[..n] + [s[n]];
      b := b + [s[n]];
    }
  }

  /** What needs no stripping is left alone. */
  lemma NothingStripped(s: string, drop: char -> bool)
    requires s != [] ==> !drop(s[0]) && !drop(s[|s| - 1])
    ensures Stripped(s, drop) == s
  {
  }

  /** The last name of a path: what follows its last slash. */
  lemma {:induction false} TerminalMeaning(path: string) returns (front: string)
    ensures path == front + Terminal(path) && '/' !in Terminal(path)
    ensures front != [] ==> front[|front| - 1] == '/'
  {
    front := "";
    if path != [] {
      var n := |path| - 1;
      if path[n] == '/' {
        front := path;
      } else {
        front := TerminalMeaning(path[..n]);
        assert path == path[..n] + [path[n]];
      }
    }
  }

  /** A path that starts with one slash, and does not end in white space or in a slash. */
  predicate IsCanonical(path: string) {
    && |path| > 1 && path[0] == '/' && path[1] != '/'
    && !IsSpace(path[|path| - 1]) && path[|path| - 1] != '/'
  }

  lemma CanonicalIsNormal(path: string)
    requires IsCanonical(path)
    ensures Normalized(path) == path
  {
    var rest := path[1..];
    NothingStripped(path, IsSpace);
    assert IsSlash(path[0]);
    assert Stripped(path, IsSlash) == Stripped(rest, IsSlash);
    NothingStripped(rest, IsSlash);
    assert path == "/" + rest;
  }

  /** The white space that is taken off. */
  const WHITE_SPACE: set<char> := {' ', '\t', '\n', '\r', '\U{B}', '\U{C}'}

  /** White space around a reference, and slashes around that, make no difference. */
  lemma NormalizedMeaning(reference: string) returns (r: string)
    ensures Normalized(reference) == "/" + r
    ensures r != [] ==> r[0] != '/' && r[|r| - 1] != '/'
    ensures exists a, b, c, d ::
              && reference == a + (b + r + c) + d
              && (forall x :: x in a || x in d ==> x in WHITE_SPACE) && (forall x :: x in b || x in c ==> x == '/')
              && (b + r + c != [] ==> (b + r + c)[0] !in WHITE_SPACE && (b + r + c)[|b + r + c| - 1] !in WHITE_SPACE)
  {
    var a, d := StrippedMeaning(reference, IsSpace);
    var b, c := StrippedMeaning(Stripped(reference, IsSpace), IsSlash);
    r := Stripped(Stripped(reference, IsSpace), IsSlash);
    assert reference == a + (b + r + c) + d;
    forall x ensures IsSpace(x) <==> x in WHITE_SPACE {
    }
  }

  // ------------------------------------------------------------------ what a reference may mean

  /** The element has the tag that is asked for, if one is. */
  predicate IsAdmitted(e: Element, dest: Option<string>) {
    dest == None || dest == Some("") || dest == Some(e.tag)
  }

  /** A reference that does not start with a slash prefers elements of its owner's package, or of one inside that. */
  predicate IsPreferredBy(e: Element, reference: string, owner: Option<Element>) {
    && owner.Some? && (reference == [] || reference[0] != '/')
    && |owner.value.packagePath| <= |e.packagePath|
    && forall k :: 0 <= k < |owner.value.packagePath| ==> e.packagePath[k] == owner.value.packagePath[k]
  }

  predicate HasPath(e: Element, path: string, dest: Option<string>) {
    && e.shortName.Some? && e.shortName != Some("") && path == Spelled(e.hierarchy) + "/" + e.shortName.value
    && IsAdmitted(e, dest)
  }

  predicate HasLastName(e: Element, name: string, dest: Option<string>) {
    name != "" && e.shortName == Some(name) && IsAdmitted(e, dest)
  }

  /**
   The elements that a reference may mean: those of its path, if there are any; otherwise those of its last name,
   and of these only the preferred ones, if there are any.
   */
  predicate MayMean(all: seq<Element>, e: Element, reference: string, owner: Option<Element>, dest: Option<string>) {
    var path := Normalized(reference);
    var name := Terminal(path);
    && e in all
    && if exists x :: x in all && HasPath(x, path, dest) then HasPath(e, path, dest)
       else
         && HasLastName(e, name, dest)
         && ((exists x :: x in all && HasLastName(x, name, dest) && IsPreferredBy(x, reference, owner)) ==>
               IsPreferredBy(e, reference, owner))
  }

  lemma HasPathMeaning(e: Element, reference: string, dest: Option<string>)
    ensures IsExact(e, reference, dest) <==> HasPath(e, Normalized(reference), dest)
    ensures IsNamed(e, reference, dest) <==> HasLastName(e, Terminal(Normalized(reference)), dest)
  {
    hide Normalized, Terminal, Spelled;
    PathMeaning(e);
  }

  lemma NarrowsMeaning(e: Element, reference: string, owner: Option<Element>)
    ensures Narrows(e, reference, owner) <==> IsPreferredBy(e, reference, owner)
  {
  }

  /** The targets of a reference are the elements that it may mean. */
  lemma TargetMeaning(all: seq<Element>, e: Element, reference: string, owner: Option<Element>, dest: Option<string>)
    ensures IsTarget(all, e, reference, owner, dest) <==> MayMean(all, e, reference, owner, dest)
  {
    forall x
      ensures IsExact(x, reference, dest) <==> HasPath(x, Normalized(reference), dest)
      ensures IsNamed(x, reference, dest) <==> HasLastName(x, Terminal(Normalized(reference)), dest)
      ensures Narrows(x, reference, owner) <==> IsPreferredBy(x, reference, owner)
    {
      HasPathMeaning(x, reference, dest);
      NarrowsMeaning(x, reference, owner);
    }
    hide IsExact, IsNamed, Narrows, HasPath, HasLastName, IsPreferredBy, Normalized, Terminal;
  }

  lemma OnlyTarget(all: seq<Element>, e: Element, x: Element, owner: Option<Element>, dest: Option<string>)
    requires e in all && PathOf(e).Some? && Normalized(PathOf(e).value) == PathOf(e).value && FitsDest(e, dest)
    requires forall y :: y in all && PathOf(y) == PathOf(e) ==> y == e
    ensures IsTarget(all, x, PathOf(e).value, owner, dest) <==> x == e
  {
    var path := PathOf(e).value;
    hide PathOf, Normalized, Terminal, FitsDest;
    assert IsExact(e, path, dest);
  }

  lemma OneTarget(xs: seq<Element>, e: Element)
    requires forall x :: x in xs <==> x == e
    requires multiset(xs)[e] == 1
    ensures xs == [e]
  {
    assert e in xs && xs[0] in xs;
    if |xs| > 1 {
      assert xs[1] in xs;
      CountOfTwo(xs, 0, 1);
    }
  }

  /** Used as a reference, the path of an element that no other element shares leads to that element. */
  lemma PathLeadsBack(index: Index, all: seq<Element>, e: Element, owner: Option<Element>, dest: Option<string>)
    requires IsIndexOf(index, all) && e in all && multiset(all)[e] == 1
    requires PathOf(e).Some? && IsCanonical(PathOf(e).value) && FitsDest(e, dest)
    requires forall x :: x in all && PathOf(x) == PathOf(e) ==> x == e
    ensures Resolve(index, PathOf(e).value, owner, dest) == Resolution(Resolved, [e.key])
  {
    hide *;
    var path := PathOf(e).value;
    var targets := Targets(index, path, owner, dest);
    CanonicalIsNormal(path);
    forall x ensures x in targets <==> x == e {
      OnlyTarget(all, e, x, owner, dest);
      TargetsAreScanned(index, all, path, owner, dest, x);
    }
    assert e in targets;
    TargetsCount(index, all, path, owner, dest, e);
    OneTarget(targets, e);
    ResolveCountsTargets(index, path, owner, dest);
    assert KeysOf([e]) == [e.key];
  }

  // ------------------------------------------------------------------ one element of each key

  /** The last element of the key that was discovered. */
  ghost predicate IsLastOfKey(xs: seq<Element>, e: Element) {
    exists i :: 0 <= i < |xs| && xs[i] == e && forall j :: i < j < |xs| ==> xs[j].key != e.key
  }

  lemma {:induction false} ByKeyIsLastKept(xs: seq<Element>, k: string)
    ensures k in ByKey(xs) <==> Filtered(xs, KeyOf, k) != []
    ensures k in ByKey(xs) ==> ByKey(xs)[k] == Filtered(xs, KeyOf, k)[|Filtered(xs, KeyOf, k)| - 1]
  {
    if xs != [] {
      ByKeyIsLastKept(xs[..|xs| - 1], k);
    }
  }

  lemma LastAppend(xs: seq<Element>, x: Element, e: Element)
    ensures IsLastOfKey(xs + [x], e) <==> e == x || (IsLastOfKey(xs, e) && e.key != x.key)
  {
    var all := xs + [x];
    assert all[|xs|] == x && forall j :: 0 <= j < |xs| ==> all[j] == xs[j];
    if e != x && IsLastOfKey(all, e) {
      var i :| 0 <= i < |all| && all[i] == e && forall j :: i < j < |all| ==> all[j].key != e.key;
      assert xs[i] == e;
    }
    if IsLastOfKey(xs, e) && e.key != x.key {
      var i :| 0 <= i < |xs| && xs[i] == e && forall j :: i < j < |xs| ==> xs[j].key != e.key;
      assert all[i] == e;
    }
  }

  lemma {:induction false} LastKeptIsLast(xs: seq<Element>, k: string)
    requires Filtered(xs, KeyOf, k) != []
    ensures var e := Filtered(xs, KeyOf, k)[|Filtered(xs, KeyOf, k)| - 1]; e.key == k && IsLastOfKey(xs, e)
  {
    hide IsLastOfKey;
    var n := |xs| - 1;
    var e := Filtered(xs, KeyOf, k)[|Filtered(xs, KeyOf, k)| - 1];
    assert xs == xs[..n] + [xs[n]];
    LastAppend(xs[..n], xs[n], e);
    if xs[n].key != k {
      LastKeptIsLast(xs[..n], k);
    }
  }

  lemma LastIsOne(xs: seq<Element>, d: Element, e: Element)
    requires IsLastOfKey(xs, d) && IsLastOfKey(xs, e) && d.key == e.key
    ensures d == e
  {
  }

  lemma KeyIsKept(xs: seq<Element>, e: Element)
    requires e in xs
    ensures Filtered(xs, KeyOf, e.key) != []
  {
    FilteredMembers(xs, KeyOf, e.key);
  }

  /** The index holds, for each key, the element of the key that was discovered last. */
  lemma ByKeyMeaning(index: Index, all: seq<Element>, e: Element)
    requires IsIndexOf(index, all)
    ensures e.key in index.byKey && index.byKey[e.key] == e <==> IsLastOfKey(all, e)
  {
    SortIsStable(all, e.key);
    ByKeyIsLastKept(index.elements, e.key);
    if e.key in index.byKey {
      LastKeptIsLast(all, e.key);
      if IsLastOfKey(all, e) {
        LastIsOne(all, e, index.byKey[e.key]);
      }
    } else if IsLastOfKey(all, e) {
      KeyIsKept(all, e);
      assert false;
    }
  }

  lemma {:induction false} UniqueIsLastOfKey(xs: seq<Element>, e: Element)
    ensures e in UniqueByKey(xs) <==> IsLastOfKey(xs, e)
  {
    if xs != [] {
      var n := |xs| - 1;
      var before := UniqueByKey(xs[..n]);
      UniqueIsLastOfKey(xs[..n], e);
      UniqueMembers(xs[..n]);
      ReplacedMembers(before, xs[n]);
      assert UniqueByKey(xs) == Replaced(before, xs[n]);
      hide UniqueByKey, Replaced, KeysDiffer, IsLastOfKey;
      LastAppend(xs[..n], xs[n], e);
      assert xs == xs[..n] + [xs[n]];
    }
  }

  /** Of the elements asked for, in the order of the tags, the last one of each key becomes a candidate. */
  lemma CandidatesAreLast(index: Index, tags: seq<string>, name: Option<string>, e: Element)
    ensures e in Candidates(index, tags, name) <==> IsLastOfKey(AskedFor(index, tags, name), e)
  {
    UniqueIsLastOfKey(AskedFor(index, tags, name), e);
    SortMembers(UniqueByKey(AskedFor(index, tags, name)), e);
  }
}
