/**
 The repair of a list as a small machine of its own. All bad items are named by index in every round; an index
 is popped only the first time it is named. This is what the loop does when validation reports all bad items
 of a list, and it says whether the list gets clean, and what is left of it.
 */
module ListCleaning {
  import opened Wrappers
  import opened ListDeletion
  import opened Graphs
  import opened Sequences

  // ------------------------------------------------------------------ good and bad items

  function Good<T>(items: seq<T>, bad: T -> bool): (r: seq<T>)
    ensures forall i :: 0 <= i < |r| ==> !bad(r[i])
  {
    if items == [] then []
    else
      var n := |items| - 1;
      if bad(items[n]) then Good(items[..n], bad) else Good(items[..n], bad) + [items[n]]
  }

  lemma {:induction false} GoodRun<T>(items: seq<T>, bad: T -> bool, c: nat, b: nat)
    requires c <= b <= |items| && forall i :: c <= i < b ==> !bad(items[i])
    ensures Good(items[..b], bad) == Good(items[..c], bad) + items[c..b]
    decreases b - c
  {
    if c < b {
      GoodRun(items, bad, c, b - 1);
      assert items[..b][..b - 1] == items[..b - 1];
      assert items[c..b] == items[c..b - 1] + [items[b - 1]];
    }
  }

  /** The indices of the bad items, first to last. */
  function BadIndices<T>(items: seq<T>, bad: T -> bool): seq<nat> {
    if items == [] then []
    else
      var n := |items| - 1;
      if bad(items[n]) then BadIndices(items[..n], bad) + [n] else BadIndices(items[..n], bad)
  }

  lemma {:induction false} BadIndicesMeaning<T>(items: seq<T>, bad: T -> bool)
    ensures Ascending(BadIndices(items, bad))
    ensures forall i :: i in BadIndices(items, bad) <==> 0 <= i < |items| && bad(items[i])
  {
    if items != [] {
      var n := |items| - 1;
      var before, all := BadIndices(items[..n], bad), BadIndices(items, bad);
      assert all == if bad(items[n]) then before + [n] else before;
      BadIndicesMeaning(items[..n], bad);
      hide BadIndices;
      assert forall k :: 0 <= k < |before| ==> before[k] in before;
      forall i ensures i in all <==> 0 <= i < |items| && bad(items[i]) {
        assert i in all <==> i in before || (bad(items[n]) && i == n);
      }
    }
  }

  // ------------------------------------------------------------------ the machine

  /** What is left of the list, and the indices at which something has been popped. */
  datatype Remaining<T> = Remaining(left: seq<T>, gone: set<nat>)

  /** The indices of `named` that are not gone, in order. */
  function Fresh(named: seq<nat>, gone: set<nat>): seq<nat> {
    if named == [] then []
    else
      var n := |named| - 1;
      if named[n] in gone then Fresh(named[..n], gone) else Fresh(named[..n], gone) + [named[n]]
  }

  function Next<T>(r: Remaining<T>, named: seq<nat>): Remaining<T> {
    Remaining(PopAll(r.left, Fresh(named, r.gone)), r.gone + Elements(named))
  }

  function Open<T>(r: Remaining<T>): set<nat> {
    set i: nat | i < |r.left| && i !in r.gone
  }

  /** What a list is cleaned to, if it gets clean: rounds go on until no item is bad, or no bad one can be popped. */
  function Cleaned<T>(r: Remaining<T>, bad: T -> bool): Option<seq<T>>
    decreases Open(r)
  {
    var named := BadIndices(r.left, bad);
    if named == [] then Some(r.left)
    else if Fresh(named, r.gone) == [] then None
    else
      OpenShrinks(r, bad);
      Cleaned(Next(r, named), bad)
  }

  lemma {:induction false} FreshMembers(named: seq<nat>, gone: set<nat>)
    ensures forall i :: i in Fresh(named, gone) <==> i in named && i !in gone
    ensures Fresh(named, gone) != [] ==> Fresh(named, gone)[0] in Fresh(named, gone)
  {
    if named != [] {
      var n := |named| - 1;
      FreshMembers(named[..n], gone);
      assert named == named[..n] + [named[n]];
    }
  }

  lemma {:induction false} PopAllShrinks<T>(xs: seq<T>, named: seq<nat>)
    ensures |PopAll(xs, named)| <= |xs|
  {
    if named != [] {
      PopAllShrinks(xs, named[..|named| - 1]);
    }
  }

  lemma OpenShrinks<T>(r: Remaining<T>, bad: T -> bool)
    requires Fresh(BadIndices(r.left, bad), r.gone) != []
    ensures Open(Next(r, BadIndices(r.left, bad))) < Open(r)
  {
    var named := BadIndices(r.left, bad);
    var i := Fresh(named, r.gone)[0];
    FreshMembers(named, r.gone);
    BadIndicesMeaning(r.left, bad);
    PopAllShrinks(r.left, Fresh(named, r.gone));
    assert i in Open(r) && i !in Open(Next(r, named));
  }

  // ------------------------------------------------------------------ what lies behind does not matter

  lemma {:induction false} BadIndicesSplit<T>(xs: seq<T>, n: nat, bad: T -> bool) returns (beyond: seq<nat>)
    requires n <= |xs|
    ensures BadIndices(xs, bad) == BadIndices(xs[..n], bad) + beyond && forall i :: i in beyond ==> n <= i
  {
    if n == |xs| {
      beyond := [];
      assert xs[..n] == xs;
    } else {
      var m := |xs| - 1;
      var before := BadIndicesSplit(xs[..m], n, bad);
      assert xs[..m][..n] == xs[..n];
      beyond := if bad(xs[m]) then before + [m] else before;
    }
  }

  lemma {:induction false} FreshAppend(a: seq<nat>, b: seq<nat>, gone: set<nat>)
    ensures Fresh(a + b, gone) == Fresh(a, gone) + Fresh(b, gone)
  {
    if b == [] {
      assert a + b == a;
    } else {
      assert (a + b)[..|a + b| - 1] == a + b[..|b| - 1];
      FreshAppend(a, b[..|b| - 1], gone);
    }
  }

  lemma {:induction false} FreshAgrees(named: seq<nat>, a: set<nat>, b: set<nat>)
    requires forall i :: i in named ==> (i in a <==> i in b)
    ensures Fresh(named, a) == Fresh(named, b)
  {
    if named != [] {
      var n := |named| - 1;
      assert named[n] in named;
      FreshAgrees(named[..n], a, b);
    }
  }

  lemma {:induction false} PopAllAppend<T>(xs: seq<T>, a: seq<nat>, b: seq<nat>)
    ensures PopAll(xs, a + b) == PopAll(PopAll(xs, a), b)
  {
    if b == [] {
      assert a + b == a;
    } else {
      assert (a + b)[..|a + b| - 1] == a + b[..|b| - 1];
      PopAllAppend(xs, a, b[..|b| - 1]);
    }
  }

  lemma PopPrefix<T>(xs: seq<T>, ys: seq<T>, i: nat)
    requires xs <= ys
    ensures Pop(xs, i) <= Pop(ys, i)
    ensures |xs| <= i ==> xs <= Pop(ys, i)
  {
  }

  lemma {:induction false} PopAllPrefix<T>(xs: seq<T>, ys: seq<T>, named: seq<nat>)
    requires xs <= ys
    ensures PopAll(xs, named) <= PopAll(ys, named)
  {
    if named != [] {
      var n := |named| - 1;
      PopAllPrefix(xs, ys, named[..n]);
      PopPrefix(PopAll(xs, named[..n]), PopAll(ys, named[..n]), named[n]);
    }
  }

  lemma {:induction false} PopAllBeyond<T>(xs: seq<T>, ys: seq<T>, named: seq<nat>)
    requires xs <= ys && forall i :: i in named ==> |xs| <= i
    ensures xs <= PopAll(ys, named)
  {
    if named != [] {
      var n := |named| - 1;
      assert named[n] in named && forall i :: i in named[..n] ==> i in named;
      PopAllBeyond(xs, ys, named[..n]);
      PopPrefix(xs, PopAll(ys, named[..n]), named[n]);
    }
  }

  /** `q` is what the machine sees of the beginning of `r`. */
  ghost predicate Begins<T>(q: Remaining<T>, r: Remaining<T>) {
    q.left <= r.left && forall i: nat :: i < |q.left| ==> (i in q.gone <==> i in r.gone)
  }

  /** After a round, what is left of the beginning still begins what is left of the list. */
  lemma RoundBegins<T>(q: Remaining<T>, r: Remaining<T>, bad: T -> bool)
    requires Begins(q, r)
    ensures Begins(Next(q, BadIndices(q.left, bad)), Next(r, BadIndices(r.left, bad)))
  {
    var named := BadIndices(q.left, bad);
    var beyond := BadIndicesSplit(r.left, |q.left|, bad);
    assert r.left[..|q.left|] == q.left;
    BadIndicesMeaning(q.left, bad);
    FreshAppend(named, beyond, r.gone);
    FreshAgrees(named, q.gone, r.gone);
    FreshMembers(beyond, r.gone);
    hide BadIndices, Fresh, PopAll;
    var mine, others := Fresh(named, q.gone), Fresh(beyond, r.gone);
    PopAllAppend(r.left, mine, others);
    PopAllPrefix(q.left, r.left, mine);
    PopAllShrinks(q.left, mine);
    PopAllBeyond(PopAll(q.left, mine), PopAll(r.left, mine), others);
    assert Elements(named + beyond) == Elements(named) + Elements(beyond);
  }

  /** A round that cannot pop anything changes nothing. */
  lemma RoundWithoutFresh<T>(q: Remaining<T>, r: Remaining<T>, bad: T -> bool)
    requires Begins(q, r) && Fresh(BadIndices(q.left, bad), q.gone) == []
    ensures Begins(q, Next(r, BadIndices(r.left, bad)))
  {
    RoundBegins(q, r, bad);
    FreshMembers(BadIndices(q.left, bad), q.gone);
    hide BadIndices, Fresh;
    assert PopAll(q.left, []) == q.left;
  }

  /** A list gets clean only if its beginning does, and what is left of that begins what is left of the list. */
  lemma {:induction false} BeginningDecides<T>(q: Remaining<T>, r: Remaining<T>, bad: T -> bool)
    requires Begins(q, r) && Cleaned(r, bad).Some?
    ensures Cleaned(q, bad).Some? && Cleaned(q, bad).value <= Cleaned(r, bad).value
    decreases Open(r)
  {
    var named, all := BadIndices(q.left, bad), BadIndices(r.left, bad);
    if all == [] {
      var beyond := BadIndicesSplit(r.left, |q.left|, bad);
      assert r.left[..|q.left|] == q.left;
    } else {
      OpenShrinks(r, bad);
      if Fresh(named, q.gone) == [] {
        RoundWithoutFresh(q, r, bad);
        BeginningDecides(q, Next(r, all), bad);
      } else {
        OpenShrinks(q, bad);
        RoundBegins(q, r, bad);
        BeginningDecides(Next(q, named), Next(r, all), bad);
      }
    }
  }

  // ------------------------------------------------------------------ whole lists

  function Whole<T>(items: seq<T>): Remaining<T> {
    Remaining(items, {})
  }

  /** A list gets clean only if every beginning of it does. */
  lemma PrefixDecides<T>(items: seq<T>, n: nat, bad: T -> bool)
    requires n <= |items| && Cleaned(Whole(items), bad).Some?
    ensures Cleaned(Whole(items[..n]), bad).Some?
    ensures Cleaned(Whole(items[..n]), bad).value <= Cleaned(Whole(items), bad).value
  {
    BeginningDecides(Whole(items[..n]), Whole(items), bad);
  }

  lemma CleanedRound<T>(r: Remaining<T>, bad: T -> bool, named: seq<nat>)
    requires named == BadIndices(r.left, bad) && Fresh(named, r.gone) != []
    ensures Cleaned(r, bad) == Cleaned(Next(r, named), bad)
  {
    hide Fresh, BadIndices, PopAll;
    if named == [] {
      FreshMembers(named, r.gone);
      assert false;
    }
  }

  lemma CleanedEnd<T>(r: Remaining<T>, bad: T -> bool, named: seq<nat>)
    requires named == BadIndices(r.left, bad) && Fresh(named, r.gone) == []
    ensures Cleaned(r, bad) == if named == [] then Some(r.left) else None
  {
  }

  lemma AscendingInit(a: seq<nat>)
    requires Ascending(a) && a != []
    ensures Ascending(a[..|a| - 1])
    ensures forall i :: i in a[..|a| - 1] <==> i in a && i != a[|a| - 1]
    ensures forall i :: i in a ==> i <= a[|a| - 1]
    ensures a[|a| - 1] in a
  {
    assert a == a[..|a| - 1] + [a[|a| - 1]];
  }

  /** An ascending list of indices is determined by its members. */
  lemma {:induction false} AscendingUnique(a: seq<nat>, b: seq<nat>)
    requires Ascending(a) && Ascending(b) && forall i :: i in a <==> i in b
    ensures a == b
  {
    NoDuplicatesCardinality(a);
    NoDuplicatesCardinality(b);
    assert Elements(a) == Elements(b);
    if a != [] {
      var x, y := a[..|a| - 1], b[..|b| - 1];
      AscendingInit(a);
      AscendingInit(b);
      assert a[|a| - 1] == b[|b| - 1];
      hide Ascending;
      forall i ensures i in x <==> i in y {
        assert i in x <==> i in a && i != a[|a| - 1];
        assert i in y <==> i in b && i != b[|b| - 1];
      }
      AscendingUnique(x, y);
      SplitLast(a);
      SplitLast(b);
    }
  }

  /** Exactly the items at the indices of `named` are bad. */
  ghost predicate BadAt<T>(xs: seq<T>, bad: T -> bool, named: seq<nat>) {
    Ascending(named) && forall i: nat :: i in named <==> i < |xs| && bad(xs[i])
  }

  lemma BadExactlyAt<T>(xs: seq<T>, bad: T -> bool, named: seq<nat>)
    requires BadAt(xs, bad, named)
    ensures BadIndices(xs, bad) == named
  {
    BadIndicesMeaning(xs, bad);
    hide BadIndices;
    AscendingUnique(BadIndices(xs, bad), named);
  }

  lemma FreshOfOne(k: nat, gone: set<nat>)
    ensures Fresh([k], gone) == if k in gone then [] else [k]
  {
    assert [k][..0] == [];
  }

  lemma FreshOfTwo(i: nat, j: nat)
    ensures Fresh([i, j], {}) == [i, j]
  {
    FreshAppend([i], [j], {});
    FreshOfOne(i, {});
    FreshOfOne(j, {});
    assert [i] + [j] == [i, j];
  }

  lemma PopsOfTwo<T>(xs: seq<T>, i: nat, j: nat)
    ensures PopAll(xs, [i]) == Pop(xs, i) && PopAll(xs, [i, j]) == Pop(Pop(xs, i), j)
  {
    assert [i, j][..1] == [i] && [i][..0] == [];
  }

  // ------------------------------------------------------------------ one bad item, two bad items

  lemma OneLess<T>(xs: seq<T>, i: nat, k: nat)
    requires i < |xs|
    ensures |Pop(xs, i)| == |xs| - 1
    ensures k < |xs| - 1 ==> Pop(xs, i)[k] == xs[if k < i then k else k + 1]
  {
  }

  lemma OneBadLess<T>(xs: seq<T>, bad: T -> bool, b: nat)
    requires BadAt(xs, bad, [b])
    ensures b < |xs| && BadAt(Pop(xs, b), bad, [])
  {
    assert b in [b];
    forall k: nat ensures k in [] <==> k < |Pop(xs, b)| && bad(Pop(xs, b)[k]) {
      OneLess(xs, b, k);
      assert (if k < b then k else k + 1) !in [b];
    }
  }

  /** One bad item that can still be popped is popped, and that is all. */
  lemma OneBadItem<T>(r: Remaining<T>, bad: T -> bool, b: nat)
    requires BadAt(r.left, bad, [b])
    ensures Cleaned(r, bad) == if b in r.gone then None else Some(Pop(r.left, b))
  {
    hide BadIndices, Fresh, PopAll, Pop, Cleaned, BadAt;
    BadExactlyAt(r.left, bad, [b]);
    FreshOfOne(b, r.gone);
    PopsOfTwo(r.left, b, b);
    if b in r.gone {
      CleanedEnd(r, bad, [b]);
    } else {
      OneBadLess(r.left, bad, b);
      BadExactlyAt(Pop(r.left, b), bad, []);
      CleanedRound(r, bad, [b]);
      var after := Next(r, [b]);
      FreshMembers([], after.gone);
      assert Fresh([], after.gone) == [] by { NothingFresh(after.gone); }
      CleanedEnd(after, bad, []);
    }
  }

  lemma NothingFresh(gone: set<nat>)
    ensures Fresh([], gone) == []
  {
  }

  lemma TwoLess<T>(xs: seq<T>, i: nat, j: nat, k: nat)
    requires i < j < |xs|
    ensures |Pop(Pop(xs, i), j)| == if j == |xs| - 1 then |xs| - 1 else |xs| - 2
    ensures k < |Pop(Pop(xs, i), j)| ==>
              Pop(Pop(xs, i), j)[k] == xs[if k < i then k else if k < j then k + 1 else k + 2]
  {
    OneLess(xs, i, k);
    if j < |xs| - 1 {
      OneLess(Pop(xs, i), j, k);
      OneLess(xs, i, k + 1);
    }
  }

  /** The first pop removes the first bad item, the second the item behind the second bad one. */
  lemma TwoBadLess<T>(xs: seq<T>, bad: T -> bool, i: nat, j: nat)
    requires i < j && BadAt(xs, bad, [i, j])
    ensures j < |xs| && BadAt(Pop(Pop(xs, i), j), bad, [j - 1])
  {
    assert j in [i, j];
    var left := Pop(Pop(xs, i), j);
    forall k: nat ensures k in [j - 1] <==> k < |left| && bad(left[k]) {
      TwoLess(xs, i, j, k);
      var m := if k < i then k else if k < j then k + 1 else k + 2;
      assert m in [i, j] <==> k == j - 1;
    }
  }

  /** A list with exactly two bad items gets clean if and only if they are not neighbours. */
  lemma TwoBadItems<T>(items: seq<T>, bad: T -> bool, i: nat, j: nat)
    requires i < j && BadAt(items, bad, [i, j])
    ensures Cleaned(Whole(items), bad) == if j == i + 1 then None else Some(Pop(Pop(Pop(items, i), j), j - 1))
  {
    hide BadIndices, Fresh, PopAll, Pop, Cleaned, BadAt;
    BadExactlyAt(items, bad, [i, j]);
    FreshOfTwo(i, j);
    PopsOfTwo(items, i, j);
    CleanedRound(Whole(items), bad, [i, j]);
    var after := Next(Whole(items), [i, j]);
    assert after.gone == {i, j};
    TwoBadLess(items, bad, i, j);
    OneBadItem(after, bad, j - 1);
  }

  lemma GoodWithout<T>(items: seq<T>, bad: T -> bool, b: nat, good: seq<T>)
    requires b < |items| && bad(items[b]) && Good(items[..b], bad) == good
    ensures Good(items[..b + 1], bad) == good
  {
    assert items[..b + 1][..b] == items[..b];
  }

  lemma GoodOfRun<T>(items: seq<T>, bad: T -> bool, b: nat)
    requires b <= |items| && forall k :: 0 <= k < b ==> !bad(items[k])
    ensures Good(items[..b], bad) == items[..b]
  {
    GoodRun(items, bad, 0, b);
    assert items[..0] == [] && items[0..b] == items[..b];
  }

  lemma GoodToEnd<T>(items: seq<T>, bad: T -> bool, c: nat)
    requires c <= |items| && forall k :: c <= k < |items| ==> !bad(items[k])
    ensures Good(items, bad) == Good(items[..c], bad) + items[c..]
  {
    GoodRun(items, bad, c, |items|);
    assert items[..|items|] == items && items[c..|items|] == items[c..];
  }

  lemma OnlyTwoBad<T>(items: seq<T>, bad: T -> bool, i: nat, j: nat)
    requires i < j && BadAt(items, bad, [i, j])
    ensures j < |items| && bad(items[i]) && bad(items[j])
    ensures forall k :: 0 <= k < |items| && k != i && k != j ==> !bad(items[k])
  {
    assert i in [i, j] && j in [i, j];
    forall k | 0 <= k < |items| && k != i && k != j ensures !bad(items[k]) {
      assert k !in [i, j];
    }
  }

  lemma GoodOfTwo<T>(items: seq<T>, bad: T -> bool, i: nat, j: nat)
    requires i < j && BadAt(items, bad, [i, j])
    ensures j < |items| && Good(items, bad) == items[..i] + items[i + 1..j] + items[j + 1..]
  {
    OnlyTwoBad(items, bad, i, j);
    hide Good, BadAt;
    GoodOfRun(items, bad, i);
    GoodWithout(items, bad, i, items[..i]);
    GoodRun(items, bad, i + 1, j);
    GoodWithout(items, bad, j, items[..i] + items[i + 1..j]);
    GoodToEnd(items, bad, j + 1);
  }

  /** What is left then are exactly the good items if and only if the second bad item was the last item. */
  lemma TwoBadItemsExact<T>(items: seq<T>, bad: T -> bool, i: nat, j: nat)
    requires i + 1 < j && BadAt(items, bad, [i, j])
    ensures Cleaned(Whole(items), bad) == Some(Good(items, bad)) <==> j == |items| - 1
  {
    hide Cleaned, BadAt, Good;
    TwoBadItems(items, bad, i, j);
    GoodOfTwo(items, bad, i, j);
    PopsInPlace(items, i, j);
  }

  lemma PopsInPlace<T>(items: seq<T>, i: nat, j: nat)
    requires i + 1 < j < |items|
    ensures Pop(Pop(Pop(items, i), j), j - 1) == items[..i] + items[i + 1..j] + items[j + 1..] <==> j == |items| - 1
  {
    var once := Pop(items, i);
    var twice := Pop(once, j);
    if j == |items| - 1 {
      assert twice == once && once[..j - 1] == items[..i] + items[i + 1..j] && once[j..] == [] == items[j + 1..];
    } else {
      assert |Pop(twice, j - 1)| == |items| - 3;
    }
  }

  /** A list whose first two bad items are neighbours never gets clean. */
  lemma NeighboursStay<T>(items: seq<T>, bad: T -> bool, i: nat)
    requires i + 1 < |items| && bad(items[i]) && bad(items[i + 1]) && forall k :: 0 <= k < i ==> !bad(items[k])
    ensures Cleaned(Whole(items), bad) == None
  {
    var prefix := items[..i + 2];
    assert BadAt(prefix, bad, [i, i + 1]);
    hide Cleaned, BadAt;
    TwoBadItems(prefix, bad, i, i + 1);
    if Cleaned(Whole(items), bad).Some? {
      PrefixDecides(items, i + 2, bad);
    }
  }

  /** A list with one bad item is cleaned of it, and a list without any is left alone. */
  lemma AtMostOneBadItem<T>(items: seq<T>, bad: T -> bool)
    requires |BadIndices(items, bad)| <= 1
    ensures Cleaned(Whole(items), bad) == Some(Good(items, bad))
  {
    hide BadIndices, Fresh, PopAll, Cleaned, Good;
    var named := BadIndices(items, bad);
    BadIndicesMeaning(items, bad);
    if named == [] {
      assert forall k: nat :: k < |items| && bad(items[k]) ==> k in named;
      NothingFresh({});
      CleanedEnd(Whole(items), bad, []);
      GoodOfRun(items, bad, |items|);
      assert items[..|items|] == items;
    } else {
      var b := named[0];
      assert named == [b];
      OneBadItem(Whole(items), bad, b);
      GoodOfOne(items, bad, b);
    }
  }

  lemma GoodOfOne<T>(items: seq<T>, bad: T -> bool, b: nat)
    requires BadAt(items, bad, [b])
    ensures Good(items, bad) == Pop(items, b)
  {
    assert b in [b];
    assert forall k: nat :: k < |items| && k != b ==> !bad(items[k]) by {
      assert forall k: nat :: k in [b] <==> k == b;
    }
    hide Good, BadAt;
    GoodOfRun(items, bad, b);
    GoodWithout(items, bad, b, items[..b]);
    GoodToEnd(items, bad, b + 1);
  }
}
