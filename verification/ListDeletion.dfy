/**
 Deletion of list items by index within one round.

 Popping an item shifts the items behind it, so a later index of the same round may name
 another item than the validator meant. This module says exactly when the items named are
 the items removed, and which ones go when the indices come in ascending order.
 */
module ListDeletion {
  import opened Graphs

  function Pop<T>(xs: seq<T>, i: nat): seq<T> {
    if i < |xs| then xs[..i] + xs[i + 1..] else xs
  }

  /** Pops the given indices one after the other. */
  function PopAll<T>(xs: seq<T>, named: seq<nat>): seq<T> {
    if named == [] then xs else Pop(PopAll(xs, named[..|named| - 1]), named[|named| - 1])
  }

  function Positions(n: nat): seq<nat> {
    seq(n, i requires 0 <= i < n => i)
  }

  /** The positions of a list of `n` items left after popping `named`. */
  function Survivors(n: nat, named: seq<nat>): seq<nat> {
    PopAll(Positions(n), named)
  }

  predicate Descending(named: seq<nat>) {
    forall i, j :: 0 <= i < j < |named| ==> named[j] < named[i]
  }

  ghost predicate InRange(n: nat, named: seq<nat>) {
    forall i :: i in named ==> i < n
  }

  /** The surviving positions are exactly those not named. */
  ghost predicate RemovesNamed(n: nat, named: seq<nat>) {
    forall p: nat :: p in Survivors(n, named) <==> p < n && p !in named
  }

  // ------------------------------------------------------------------ survivors stay in order

  /** In order, the entry at index `k` at or beyond `k`, all below `n`. */
  ghost predicate InOrder(n: nat, xs: seq<nat>) {
    && (forall i, j :: 0 <= i < j < |xs| ==> xs[i] < xs[j])
    && (forall k :: 0 <= k < |xs| ==> k <= xs[k] < n)
  }

  lemma {:induction false} SurvivorsInOrder(n: nat, named: seq<nat>)
    ensures InOrder(n, Survivors(n, named))
  {
    if named != [] {
      SurvivorsInOrder(n, named[..|named| - 1]);
    }
  }

  lemma PopKeepsOthers(xs: seq<nat>, i: nat, k: nat)
    requires i < |xs| && k < |xs| && k != i
    ensures xs[k] in Pop(xs, i)
  {
    assert Pop(xs, i)[if k < i then k else k - 1] == xs[k];
  }

  lemma PopRemovesOne(n: nat, xs: seq<nat>, i: nat)
    requires InOrder(n, xs) && i < |xs|
    ensures forall p :: p in Pop(xs, i) <==> p in xs && p != xs[i]
  {
    var ys := Pop(xs, i);
    assert forall k :: 0 <= k < |ys| ==> ys[k] == xs[if k < i then k else k + 1];
    forall p | p in xs && p != xs[i] ensures p in ys {
      var k :| 0 <= k < |xs| && xs[k] == p;
      PopKeepsOthers(xs, i, k);
    }
  }

  /** An entry sitting at its own index has all lower entries in place below it, and conversely. */
  lemma {:induction false} InPlaceIff(n: nat, xs: seq<nat>, i: nat)
    requires InOrder(n, xs)
    ensures (i < |xs| && xs[i] == i) <==> forall p: nat :: p < i + 1 ==> p in xs
  {
    if i > 0 {
      InPlaceIff(n, xs, i - 1);
    }
    if forall p: nat :: p < i + 1 ==> p in xs {
      assert i in xs;
      var k :| 0 <= k < |xs| && xs[k] == i;
      assert k == i;
    }
    if i < |xs| && xs[i] == i && i > 0 {
      assert xs[i - 1] == i - 1;
    }
  }

  lemma {:induction false} BelowInPlace(n: nat, xs: seq<nat>, i: nat, k: nat)
    requires InOrder(n, xs) && k <= i < |xs| && xs[i] == i
    ensures xs[k] == k
    decreases i - k
  {
    if k < i {
      BelowInPlace(n, xs, i, k + 1);
    }
  }

  // ------------------------------------------------------------------ hits

  /** The pop number `j` removes the very position it names. */
  ghost predicate Hits(n: nat, named: seq<nat>, j: nat)
    requires j < |named|
  {
    var xs := Survivors(n, named[..j]);
    named[j] < |xs| && xs[named[j]] == named[j]
  }

  ghost predicate AllHit(n: nat, named: seq<nat>) {
    forall j :: 0 <= j < |named| ==> Hits(n, named, j)
  }

  lemma AllHitPrefix(n: nat, named: seq<nat>, m: nat)
    requires AllHit(n, named) && m <= |named|
    ensures AllHit(n, named[..m])
  {
    forall j | 0 <= j < m ensures Hits(n, named[..m], j) {
      assert Hits(n, named, j);
      assert named[..m][..j] == named[..j];
    }
  }

  lemma {:induction false} AllHitRemovesNamed(n: nat, named: seq<nat>)
    requires AllHit(n, named)
    ensures RemovesNamed(n, named)
  {
    if named == [] {
      forall p: nat | p < n ensures p in Positions(n) { assert Positions(n)[p] == p; }
    } else {
      var m := |named| - 1;
      AllHitPrefix(n, named, m);
      AllHitRemovesNamed(n, named[..m]);
      assert Hits(n, named, m);
      SurvivorsInOrder(n, named[..m]);
      PopRemovesOne(n, Survivors(n, named[..m]), named[m]);
      assert named == named[..m] + [named[m]];
    }
  }

  /** While everything before it hit, a pop hits exactly when it names a lower position than all of them. */
  lemma HitsIffLowest(n: nat, named: seq<nat>, j: nat)
    requires j < |named| && InRange(n, named) && NoDuplicates(named) && AllHit(n, named[..j])
    ensures Hits(n, named, j) <==> forall k :: 0 <= k < j ==> named[j] < named[k]
  {
    var before, i := named[..j], named[j];
    AllHitRemovesNamed(n, before);
    SurvivorsInOrder(n, before);
    InPlaceIff(n, Survivors(n, before), i);
    assert i in named;
    if Hits(n, named, j) {
      forall k | 0 <= k < j ensures i < named[k] {
        assert before[k] == named[k] && named[k] in before;
      }
    }
    if forall k :: 0 <= k < j ==> i < named[k] {
      assert forall p :: p in before ==> i < p;
    }
  }

  lemma {:induction false} DescendingHits(n: nat, named: seq<nat>, m: nat)
    requires InRange(n, named) && NoDuplicates(named) && Descending(named) && m <= |named|
    ensures AllHit(n, named[..m])
  {
    if m > 0 {
      DescendingHits(n, named, m - 1);
      HitsIffLowest(n, named, m - 1);
      forall j | 0 <= j < m ensures Hits(n, named[..m], j) {
        assert named[..m][..j] == named[..j];
        if j < m - 1 {
          assert Hits(n, named[..m - 1], j);
          assert named[..m - 1][..j] == named[..j];
        }
      }
    }
  }

  // ------------------------------------------------------------------ a miss is never made good

  ghost function Removed(n: nat, named: seq<nat>): set<nat> {
    set p: nat | p < n && p !in Survivors(n, named)
  }

  ghost function Low(s: set<nat>, x: nat): set<nat> {
    set p | p in s && p <= x
  }

  lemma LowGrows(s: set<nat>, w: nat, x: nat)
    requires w !in s
    ensures |Low(s + {w}, x)| == |Low(s, x)| + if w <= x then 1 else 0
  {
    if w <= x {
      assert Low(s + {w}, x) == Low(s, x) + {w};
    } else {
      assert Low(s + {w}, x) == Low(s, x);
    }
  }

  /** One pop removes at most one position, and none below the one it names. */
  lemma RemovedSetGrows(n: nat, named: seq<nat>)
    requires named != []
    ensures var m := |named| - 1;
            var xs := Survivors(n, named[..m]);
            if named[m] < |xs|
            then xs[named[m]] !in Removed(n, named[..m]) && named[m] <= xs[named[m]]
                 && Removed(n, named) == Removed(n, named[..m]) + {xs[named[m]]}
            else Removed(n, named) == Removed(n, named[..m])
  {
    var m := |named| - 1;
    var xs := Survivors(n, named[..m]);
    SurvivorsInOrder(n, named[..m]);
    if named[m] < |xs| {
      PopRemovesOne(n, xs, named[m]);
      assert xs[named[m]] in xs;
    }
  }

  lemma ElementsGrow(named: seq<nat>)
    requires named != [] && NoDuplicates(named)
    ensures var m := |named| - 1;
            named[m] !in Elements(named[..m]) && Elements(named) == Elements(named[..m]) + {named[m]}
  {
    assert named == named[..|named| - 1] + [named[|named| - 1]];
  }

  /** Up to any bound, no more positions are removed than named. */
  lemma {:induction false} RemovedIsDominated(n: nat, named: seq<nat>, x: nat)
    requires NoDuplicates(named)
    ensures |Low(Removed(n, named), x)| <= |Low(Elements(named), x)|
  {
    if named == [] {
      assert Removed(n, named) == {} by {
        forall p: nat | p < n ensures p in Positions(n) { assert Positions(n)[p] == p; }
      }
    } else {
      DominationStep(n, named, x);
      RemovedIsDominated(n, named[..|named| - 1], x);
    }
  }

  lemma DominationStep(n: nat, named: seq<nat>, x: nat)
    requires named != [] && NoDuplicates(named)
    ensures var m := |named| - 1;
            |Low(Elements(named), x)| - |Low(Removed(n, named), x)|
            >= |Low(Elements(named[..m]), x)| - |Low(Removed(n, named[..m]), x)|
               + if !Hits(n, named, m) && x == named[m] then 1 else 0
  {
    var m := |named| - 1;
    var xs := Survivors(n, named[..m]);
    ElementsGrow(named);
    RemovedSetGrows(n, named);
    LowGrows(Elements(named[..m]), named[m], x);
    if named[m] < |xs| {
      LowGrows(Removed(n, named[..m]), xs[named[m]], x);
    }
  }

  lemma {:induction false} MissPersists(n: nat, named: seq<nat>, j: nat)
    requires NoDuplicates(named) && j < |named| && !Hits(n, named, j)
    ensures |Low(Removed(n, named), named[j])| < |Low(Elements(named), named[j])|
    decreases |named|
  {
    var m := |named| - 1;
    DominationStep(n, named, named[j]);
    if j == m {
      RemovedIsDominated(n, named[..m], named[j]);
    } else {
      assert named[..m][..j] == named[..j];
      MissPersists(n, named[..m], j);
    }
  }

  /** A duplicate-free batch of list indices removes the items it names exactly when it is in descending order. */
  lemma RemovesNamedIff(n: nat, named: seq<nat>)
    requires NoDuplicates(named) && InRange(n, named)
    ensures RemovesNamed(n, named) <==> Descending(named)
  {
    if Descending(named) {
      DescendingHits(n, named, |named|);
      assert named[..|named|] == named;
      AllHitRemovesNamed(n, named);
    }
    if RemovesNamed(n, named) {
      assert Removed(n, named) == Elements(named);
      assert AllHit(n, named) by {
        forall j | 0 <= j < |named| ensures Hits(n, named, j) {
          if !Hits(n, named, j) {
            MissPersists(n, named, j);
            assert false;
          }
        }
      }
      forall k, j | 0 <= k < j < |named| ensures named[j] < named[k] {
        AllHitPrefix(n, named, j);
        assert Hits(n, named, j);
        HitsIffLowest(n, named, j);
      }
    }
  }

  // ------------------------------------------------------------------ ascending batches

  predicate Ascending(named: seq<nat>) {
    forall i, j :: 0 <= i < j < |named| ==> named[i] < named[j]
  }

  /** From index `from` on, `xs` lists the positions below `n` shifted by `m`. */
  ghost predicate Shifted(n: nat, xs: seq<nat>, from: nat, m: nat) {
    && (|xs| + m == n || (|xs| <= from && n <= from + m))
    && forall k: nat :: from <= k < |xs| ==> xs[k] == k + m
  }

  lemma PopShifts(n: nat, xs: seq<nat>, from: nat, m: nat, i: nat)
    requires Shifted(n, xs, from, m) && (from < i || (m == 0 && from <= i))
    ensures Shifted(n, Pop(xs, i), i, m + 1)
  {
    var ys := Pop(xs, i);
    forall k: nat | i <= k < |ys| ensures ys[k] == k + m + 1 {
      assert ys[k] == xs[k + 1];
    }
  }

  /** Some index of the batch, with as many places added as pops came before it, is `q`. */
  ghost predicate Slips(named: seq<nat>, q: nat) {
    exists j :: 0 <= j < |named| && q == named[j] + j
  }

  lemma SlipsNext(named: seq<nat>, q: nat)
    requires named != []
    ensures var m := |named| - 1; Slips(named, q) <==> Slips(named[..m], q) || q == named[m] + m
  {
    var m := |named| - 1;
    if Slips(named[..m], q) {
      var j :| 0 <= j < m && q == named[..m][j] + j;
      assert q == named[j] + j;
    }
    if Slips(named, q) && q != named[m] + m {
      var j :| 0 <= j < |named| && q == named[j] + j;
      assert q == named[..m][j] + j;
    }
  }

  /** In ascending order each index has slipped by as many places as items have gone before it. */
  lemma {:induction false} AscendingSurvivors(n: nat, named: seq<nat>)
    requires Ascending(named)
    ensures Shifted(n, Survivors(n, named), if named == [] then 0 else named[|named| - 1], |named|)
    ensures forall q: nat :: q in Survivors(n, named) <==> q < n && !Slips(named, q)
  {
    if named == [] {
      forall q: nat | q < n ensures q in Positions(n) { assert Positions(n)[q] == q; }
    } else {
      var m := |named| - 1;
      AscendingSurvivors(n, named[..m]);
      AscendingPop(n, named, Survivors(n, named[..m]));
    }
  }

  lemma AscendingPop(n: nat, named: seq<nat>, xs: seq<nat>)
    requires Ascending(named) && named != [] && xs == Survivors(n, named[..|named| - 1])
    requires var m := |named| - 1; Shifted(n, xs, if m == 0 then 0 else named[m - 1], m)
    requires forall q: nat :: q in xs <==> q < n && !Slips(named[..|named| - 1], q)
    ensures Shifted(n, Survivors(n, named), named[|named| - 1], |named|)
    ensures forall q: nat :: q in Survivors(n, named) <==> q < n && !Slips(named, q)
  {
    var m := |named| - 1;
    PopShifts(n, xs, if m == 0 then 0 else named[m - 1], m, named[m]);
    SurvivorsInOrder(n, named[..m]);
    if named[m] < |xs| {
      PopRemovesOne(n, xs, named[m]);
      assert xs[named[m]] == named[m] + m;
    } else {
      assert n <= named[m] + m;
    }
    forall q: nat ensures q in Survivors(n, named) <==> q < n && !Slips(named, q) {
      SlipsNext(named, q);
    }
  }

  // ------------------------------------------------------------------ positions and items

  /** Popping items pops their positions. */
  lemma {:induction false} PopsFollowPositions<T>(items: seq<T>, named: seq<nat>)
    ensures |PopAll(items, named)| == |Survivors(|items|, named)|
    ensures forall k :: 0 <= k < |PopAll(items, named)| ==>
              Survivors(|items|, named)[k] < |items| && PopAll(items, named)[k] == items[Survivors(|items|, named)[k]]
  {
    if named != [] {
      PopsFollowPositions(items, named[..|named| - 1]);
    }
  }

  lemma SurvivingItems<T>(items: seq<T>, named: seq<nat>, p: nat)
    requires NoDuplicates(items) && p < |items|
    ensures items[p] in PopAll(items, named) <==> p in Survivors(|items|, named)
  {
    var left, survivors := PopAll(items, named), Survivors(|items|, named);
    PopsFollowPositions(items, named);
    if items[p] in left {
      var k :| 0 <= k < |left| && left[k] == items[p];
      assert survivors[k] == p;
    }
    if p in survivors {
      var k :| 0 <= k < |survivors| && survivors[k] == p;
      assert left[k] == items[p];
    }
  }

  /** The indices of `named`, each at its first occurrence: a repeated index is skipped. */
  function FirstOf(named: seq<nat>): seq<nat> {
    if named == [] then []
    else
      var n := |named| - 1;
      if named[n] in named[..n] then FirstOf(named[..n]) else FirstOf(named[..n]) + [named[n]]
  }

  lemma {:induction false} FirstOfMembers(named: seq<nat>)
    ensures NoDuplicates(FirstOf(named)) && forall i :: i in FirstOf(named) <==> i in named
  {
    if named != [] {
      var n := |named| - 1;
      FirstOfMembers(named[..n]);
      assert named == named[..n] + [named[n]];
    }
  }
}
