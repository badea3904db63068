/**
 The classes of a token bucket one by one: every class of the tree is met once, in order, and the sums, the search
 for the default class and the verdict are said of these places.
 */
module HtbMeaning {
  import opened Htb
  import opened HtbGuarantees
  import opened Wrappers
  import opened Graphs

  // ------------------------------------------------------------------ the classes of a tree

  /** The place of a class: which tree, which child there, and so on down. */
  type Path = seq<nat>

  predicate IsPlace(nodes: seq<ChildClass>, p: Path)
    decreases |p|
  {
    p != [] && p[0] < |nodes| && (|p| == 1 || IsPlace(nodes[p[0]].children, p[1..]))
  }

  function ClassAt(nodes: seq<ChildClass>, p: Path): ChildClass
    requires IsPlace(nodes, p)
    decreases |p|
  {
    if |p| == 1 then nodes[p[0]] else ClassAt(nodes[p[0]].children, p[1..])
  }

  /** A class comes before the classes below it, and a tree before its right neighbours. */
  predicate Before(p: Path, q: Path)
    decreases |p|
  {
    if p == [] then q != []
    else q != [] && (p[0] < q[0] || (p[0] == q[0] && Before(p[1..], q[1..])))
  }

  /** `places` lists these classes, and comes in order. */
  predicate Enumerates(nodes: seq<ChildClass>, places: seq<Path>, xs: seq<ChildClass>) {
    && |places| == |xs|
    && (forall k :: 0 <= k < |xs| ==> IsPlace(nodes, places[k]) && xs[k] == ClassAt(nodes, places[k]))
    && forall j, k :: 0 <= j < k < |places| ==> Before(places[j], places[k])
  }

  /** The places below tree `i`, and the tree itself. */
  function Below(i: nat, places: seq<Path>): (r: seq<Path>)
    ensures |r| == |places| + 1 && r[0] == [i]
    ensures forall k :: 0 <= k < |places| ==> r[k + 1] == [i] + places[k]
  {
    [[i]] + seq(|places|, k requires 0 <= k < |places| => [i] + places[k])
  }

  lemma BelowEnumerates(nodes: seq<ChildClass>, i: nat, places: seq<Path>)
    requires i < |nodes| && Enumerates(nodes[i].children, places, All(nodes[i].children))
    ensures Enumerates(nodes, Below(i, places), [nodes[i]] + All(nodes[i].children))
  {
    var all, xs := Below(i, places), [nodes[i]] + All(nodes[i].children);
    hide All;
    forall k | 0 <= k < |xs| ensures IsPlace(nodes, all[k]) && xs[k] == ClassAt(nodes, all[k]) {
      if k > 0 {
        assert places[k - 1] != [];
        assert all[k] == [i] + places[k - 1] && all[k][1..] == places[k - 1];
      }
    }
    forall j, k | 0 <= j < k < |all| ensures Before(all[j], all[k]) {
      assert all[k] == [i] + places[k - 1] && all[k][1..] == places[k - 1];
      if j == 0 {
        assert [i][1..] == [];
        assert places[k - 1] != [];
      } else {
        assert all[j] == [i] + places[j - 1] && all[j][1..] == places[j - 1];
      }
    }
  }

  lemma PrefixPlace(nodes: seq<ChildClass>, n: nat, p: Path)
    requires n <= |nodes|
    ensures IsPlace(nodes[..n], p) <==> IsPlace(nodes, p) && p[0] < n
    ensures IsPlace(nodes[..n], p) ==> ClassAt(nodes[..n], p) == ClassAt(nodes, p)
  {
  }

  lemma EnumeratesConcat(nodes: seq<ChildClass>, a: seq<Path>, xs: seq<ChildClass>, b: seq<Path>, ys: seq<ChildClass>,
                         n: nat)
    requires Enumerates(nodes, a, xs) && Enumerates(nodes, b, ys)
    requires (forall k :: 0 <= k < |a| ==> a[k][0] < n) && forall k :: 0 <= k < |b| ==> b[k][0] == n
    ensures Enumerates(nodes, a + b, xs + ys)
  {
    forall j, k | 0 <= j < k < |a + b| ensures Before((a + b)[j], (a + b)[k]) {
    }
  }

  /** The recursive checks meet every class of the forest once, each one before those below and beside it. */
  lemma {:induction false} AllInOrder(nodes: seq<ChildClass>) returns (places: seq<Path>)
    ensures Enumerates(nodes, places, All(nodes))
    ensures forall p :: IsPlace(nodes, p) ==> p in places
  {
    if nodes == [] {
      places := [];
    } else {
      var n := |nodes| - 1;
      var before := AllInOrder(nodes[..n]);
      var inner := AllInOrder(nodes[n].children);
      var last := Below(n, inner);
      BelowEnumerates(nodes, n, inner);
      forall k | 0 <= k < |before| ensures IsPlace(nodes, before[k]) && before[k][0] < n
                                           && ClassAt(nodes, before[k]) == ClassAt(nodes[..n], before[k]) {
        PrefixPlace(nodes, n, before[k]);
      }
      places := before + last;
      EnumeratesConcat(nodes, before, All(nodes[..n]), last, [nodes[n]] + All(nodes[n].children), n);
      forall p | IsPlace(nodes, p) ensures p in places {
        PlaceIsListed(nodes, p, before, inner);
      }
    }
  }

  lemma PlaceIsListed(nodes: seq<ChildClass>, p: Path, before: seq<Path>, inner: seq<Path>)
    requires nodes != [] && IsPlace(nodes, p)
    requires forall q :: IsPlace(nodes[..|nodes| - 1], q) ==> q in before
    requires forall q :: IsPlace(nodes[|nodes| - 1].children, q) ==> q in inner
    ensures p in before + Below(|nodes| - 1, inner)
  {
    var n := |nodes| - 1;
    var last := Below(n, inner);
    PrefixPlace(nodes, n, p);
    if p[0] == n {
      if |p| == 1 {
        assert p == [n] == last[0];
      } else {
        assert p[1..] in inner;
        var k :| 0 <= k < |inner| && inner[k] == p[1..];
        assert last[k + 1] == [n] + p[1..] == p;
      }
    }
  }

  /** Different places in order: no class is met twice. */
  lemma {:induction false} BeforeIsStrict(p: Path, q: Path)
    requires Before(p, q)
    ensures p != q
    decreases |p|
  {
    if p != [] && p[0] == q[0] {
      BeforeIsStrict(p[1..], q[1..]);
    }
  }

  // ------------------------------------------------------------------ the rules, place by place

  /** No two classes of the forest have the same key. */
  ghost predicate KeysDiffer(nodes: seq<ChildClass>, key: ChildClass -> int) {
    forall p, q :: IsPlace(nodes, p) && IsPlace(nodes, q) && p != q ==> key(ClassAt(nodes, p)) != key(ClassAt(nodes, q))
  }

  /** The keys that are met differ exactly if the classes' keys do. */
  lemma KeysMeaning(nodes: seq<ChildClass>, key: ChildClass -> int)
    ensures NoDuplicates(KeysOf(nodes, key)) <==> KeysDiffer(nodes, key)
  {
    var places := AllInOrder(nodes);
    var keys := KeysOf(nodes, key);
    assert forall k :: 0 <= k < |keys| ==> keys[k] == key(ClassAt(nodes, places[k]));
    hide All, KeysOf, IsPlace;
    if NoDuplicates(keys) {
      forall p, q | IsPlace(nodes, p) && IsPlace(nodes, q) && p != q
        ensures key(ClassAt(nodes, p)) != key(ClassAt(nodes, q))
      {
        var i :| 0 <= i < |places| && places[i] == p;
        var j :| 0 <= j < |places| && places[j] == q;
        assert keys[i] != keys[j];
      }
    }
    if KeysDiffer(nodes, key) {
      forall i, j | 0 <= i < j < |keys| ensures keys[i] != keys[j] {
        BeforeIsStrict(places[i], places[j]);
      }
    }
  }

  /** Exactly one place has the id, and it is a leaf. */
  ghost predicate HasOnlyLeaf(nodes: seq<ChildClass>, id: int) {
    exists p :: IsPlace(nodes, p) && ClassAt(nodes, p).classid == id && ClassAt(nodes, p).children == []
                && forall q :: IsPlace(nodes, q) && ClassAt(nodes, q).classid == id ==> q == p
  }

  lemma OnlyLeafMeaning(nodes: seq<ChildClass>, id: int)
    ensures IsTheOnlyLeaf(nodes, id) <==> HasOnlyLeaf(nodes, id)
  {
    var places := AllInOrder(nodes);
    var all := All(nodes);
    hide All, IsPlace;
    if IsTheOnlyLeaf(nodes, id) {
      var k :| 0 <= k < |all| && all[k].classid == id && all[k].children == []
               && forall m :: 0 <= m < |all| && all[m].classid == id ==> m == k;
      forall q | IsPlace(nodes, q) && ClassAt(nodes, q).classid == id ensures q == places[k] {
        var m :| 0 <= m < |places| && places[m] == q;
      }
      assert IsPlace(nodes, places[k]);
    }
    if HasOnlyLeaf(nodes, id) {
      var p :| IsPlace(nodes, p) && ClassAt(nodes, p).classid == id && ClassAt(nodes, p).children == []
               && forall q :: IsPlace(nodes, q) && ClassAt(nodes, q).classid == id ==> q == p;
      var k :| 0 <= k < |places| && places[k] == p;
      forall m | 0 <= m < |all| && all[m].classid == id ensures m == k {
        assert places[m] == p;
        if m < k {
          BeforeIsStrict(places[m], places[k]);
        } else if k < m {
          BeforeIsStrict(places[k], places[m]);
        }
      }
    }
  }

  lemma ListedAt(nodes: seq<ChildClass>, p: Path)
    requires IsPlace(nodes, p)
    ensures ClassAt(nodes, p) in All(nodes)
  {
    var places := AllInOrder(nodes);
    var k :| 0 <= k < |places| && places[k] == p;
    assert All(nodes)[k] == ClassAt(nodes, p);
  }

  lemma PlaceOfListed(nodes: seq<ChildClass>, x: ChildClass) returns (p: Path)
    requires x in All(nodes)
    ensures IsPlace(nodes, p) && ClassAt(nodes, p) == x
  {
    var places := AllInOrder(nodes);
    var k :| 0 <= k < |All(nodes)| && All(nodes)[k] == x;
    p := places[k];
  }

  /** The classes that are met are the classes at the places of the forest. */
  lemma AllMeaning(nodes: seq<ChildClass>, x: ChildClass)
    ensures x in All(nodes) <==> exists p :: IsPlace(nodes, p) && ClassAt(nodes, p) == x
  {
    if x in All(nodes) {
      var p := PlaceOfListed(nodes, x);
    }
    if p :| IsPlace(nodes, p) && ClassAt(nodes, p) == x {
      ListedAt(nodes, p);
    }
  }

  // ------------------------------------------------------------------ sums

  lemma {:induction false} SumOfRates(a: seq<ChildClass>, b: seq<ChildClass>, x: ChildClass)
    ensures SumRates([]) == 0 && SumRates([x]) == x.rate && SumRates(a + b) == SumRates(a) + SumRates(b)
    decreases |b|
  {
    assert [x][..0] == [];
    if b == [] {
      assert a + b == a;
    } else {
      assert (a + b)[..|a + b| - 1] == a + b[..|b| - 1];
      SumOfRates(a, b[..|b| - 1], x);
    }
  }

  lemma {:induction false} SumOfLeaves(a: seq<ChildClass>, b: seq<ChildClass>, x: ChildClass)
    ensures LeafRates([]) == 0 && LeafRates(a + b) == LeafRates(a) + LeafRates(b)
    ensures LeafRates([x]) == if x.children == [] then x.rate else LeafRates(x.children)
    decreases |b|
  {
    assert [x][..0] == [];
    if b == [] {
      assert a + b == a;
    } else {
      assert (a + b)[..|a + b| - 1] == a + b[..|b| - 1];
      SumOfLeaves(a, b[..|b| - 1], x);
    }
  }

  lemma {:induction false} SumOfBuckets(a: seq<Option<HtbInstance>>, b: seq<Option<HtbInstance>>,
                                        x: Option<HtbInstance>)
    ensures TopRates([]) == 0 && TopRates(a + b) == TopRates(a) + TopRates(b)
    ensures TopRates([x]) == if x.Some? then SumRates(x.value.classes) else 0
    ensures AllLeafRates([]) == 0 && AllLeafRates(a + b) == AllLeafRates(a) + AllLeafRates(b)
    ensures AllLeafRates([x]) == if x.Some? then LeafRates(x.value.classes) else 0
    decreases |b|
  {
    assert [x][..0] == [];
    if b == [] {
      assert a + b == a;
    } else {
      assert (a + b)[..|a + b| - 1] == a + b[..|b| - 1];
      SumOfBuckets(a, b[..|b| - 1], x);
    }
  }

  // ------------------------------------------------------------------ the verdict

  ghost predicate CeilsCover(nodes: seq<ChildClass>) {
    forall p :: IsPlace(nodes, p) ==> ClassAt(nodes, p).ceil >= ClassAt(nodes, p).rate
  }

  ghost predicate RatesNest(nodes: seq<ChildClass>) {
    forall p :: IsPlace(nodes, p) && ClassAt(nodes, p).children != [] ==>
      SumRates(ClassAt(nodes, p).children) <= ClassAt(nodes, p).rate
  }

  ghost predicate CeilsNest(nodes: seq<ChildClass>) {
    forall p :: IsPlace(nodes, p) && ClassAt(nodes, p).children != [] ==>
      && 0 <= ClassAt(nodes, p).ceil
      && forall c :: c in ClassAt(nodes, p).children ==> c.ceil <= ClassAt(nodes, p).ceil
  }

  /** A class with the id that has children is in tree `i`. */
  ghost predicate HasInnerIn(nodes: seq<ChildClass>, i: nat, id: int) {
    exists p :: IsPlace(nodes, p) && p[0] == i && ClassAt(nodes, p).classid == id && ClassAt(nodes, p).children != []
  }

  ghost predicate HasLeafIn(nodes: seq<ChildClass>, i: nat, id: int) {
    exists p :: IsPlace(nodes, p) && p[0] == i && ClassAt(nodes, p).classid == id && ClassAt(nodes, p).children == []
  }

  /** Tree `i` is the first that has a class of the id. */
  ghost predicate IsFirstWith(nodes: seq<ChildClass>, i: nat, id: int) {
    && i < |nodes| && (HasInnerIn(nodes, i, id) || HasLeafIn(nodes, i, id))
    && forall j: nat :: j < i ==> !HasInnerIn(nodes, j, id) && !HasLeafIn(nodes, j, id)
  }

  lemma InTree(nodes: seq<ChildClass>, i: nat, p: Path)
    requires i < |nodes|
    ensures IsPlace([nodes[i]], [0] + p) <==> IsPlace(nodes, [i] + p)
    ensures IsPlace(nodes, [i] + p) ==> ClassAt([nodes[i]], [0] + p) == ClassAt(nodes, [i] + p)
  {
    assert ([0] + p)[1..] == p && ([i] + p)[1..] == p;
  }

  lemma FirstStep(nodes: seq<ChildClass>, p: Path)
    requires IsPlace(nodes, p)
    ensures p == [p[0]] + p[1..] && p[0] < |nodes|
  {
  }

  lemma FromTree(nodes: seq<ChildClass>, i: nat, x: ChildClass) returns (p: Path)
    requires i < |nodes| && x in All([nodes[i]])
    ensures IsPlace(nodes, p) && p[0] == i && ClassAt(nodes, p) == x
  {
    hide All;
    var tree := [nodes[i]];
    AllMeaning(tree, x);
    var q :| IsPlace(tree, q) && ClassAt(tree, q) == x;
    FirstStep(tree, q);
    InTree(nodes, i, q[1..]);
    p := [i] + q[1..];
  }

  lemma ToTree(nodes: seq<ChildClass>, i: nat, p: Path)
    requires i < |nodes| && IsPlace(nodes, p) && p[0] == i
    ensures ClassAt(nodes, p) in All([nodes[i]])
  {
    hide All;
    FirstStep(nodes, p);
    InTree(nodes, i, p[1..]);
    AllMeaning([nodes[i]], ClassAt([nodes[i]], [0] + p[1..]));
  }

  /** A class of tree `i` for which `holds`, met in that tree alone, or at a place of the forest. */
  lemma TreeMeaning(nodes: seq<ChildClass>, i: nat, holds: ChildClass -> bool)
    requires i < |nodes|
    ensures (exists x :: x in All([nodes[i]]) && holds(x))
            <==> exists p :: IsPlace(nodes, p) && p[0] == i && holds(ClassAt(nodes, p))
  {
    hide All;
    if x :| x in All([nodes[i]]) && holds(x) {
      var p := FromTree(nodes, i, x);
    }
    if p :| IsPlace(nodes, p) && p[0] == i && holds(ClassAt(nodes, p)) {
      ToTree(nodes, i, p);
    }
  }

  lemma InnerInTree(nodes: seq<ChildClass>, i: nat, id: int)
    requires i < |nodes|
    ensures HasInner([nodes[i]], id) <==> HasInnerIn(nodes, i, id)
    ensures HasLeaf([nodes[i]], id) <==> HasLeafIn(nodes, i, id)
  {
    var inner := (x: ChildClass) => x.classid == id && x.children != [];
    var leaf := (x: ChildClass) => x.classid == id && x.children == [];
    TreeMeaning(nodes, i, inner);
    TreeMeaning(nodes, i, leaf);
    IsInner(nodes, i, id, inner);
    IsLeaf(nodes, i, id, leaf);
  }

  lemma IsInner(nodes: seq<ChildClass>, i: nat, id: int, inner: ChildClass -> bool)
    requires i < |nodes| && forall x :: inner(x) <==> x.classid == id && x.children != []
    ensures HasInner([nodes[i]], id) <==> exists x :: x in All([nodes[i]]) && inner(x)
    ensures HasInnerIn(nodes, i, id) <==> exists p :: IsPlace(nodes, p) && p[0] == i && inner(ClassAt(nodes, p))
  {
  }

  lemma IsLeaf(nodes: seq<ChildClass>, i: nat, id: int, leaf: ChildClass -> bool)
    requires i < |nodes| && forall x :: leaf(x) <==> x.classid == id && x.children == []
    ensures HasLeaf([nodes[i]], id) <==> exists x :: x in All([nodes[i]]) && leaf(x)
    ensures HasLeafIn(nodes, i, id) <==> exists p :: IsPlace(nodes, p) && p[0] == i && leaf(ClassAt(nodes, p))
  {
  }

  /** The first tree that has the class decides: an inner class anywhere in it is an error, a leaf is found. */
  lemma {:induction false} DefaultMeaning(nodes: seq<ChildClass>, id: int)
    ensures FirstDefault(nodes, id) == Absent
            <==> forall i: nat :: i < |nodes| ==> !HasInnerIn(nodes, i, id) && !HasLeafIn(nodes, i, id)
    ensures forall i: nat :: IsFirstWith(nodes, i, id) ==>
              FirstDefault(nodes, id) == if HasInnerIn(nodes, i, id) then NotLeaf else Found
  {
    DefaultFrom(nodes, 0, id);
    assert nodes[0..] == nodes;
  }

  lemma {:induction false} DefaultFrom(nodes: seq<ChildClass>, k: nat, id: int)
    requires k <= |nodes|
    ensures FirstDefault(nodes[k..], id) == Absent
            <==> forall i: nat :: k <= i < |nodes| ==> !HasInnerIn(nodes, i, id) && !HasLeafIn(nodes, i, id)
    ensures forall i: nat :: k <= i && IsFirstWith(nodes, i, id) ==>
              FirstDefault(nodes[k..], id) == if HasInnerIn(nodes, i, id) then NotLeaf else Found
    decreases |nodes| - k
  {
    if k < |nodes| {
      DefaultFrom(nodes, k + 1, id);
      InnerInTree(nodes, k, id);
      hide HasInnerIn, HasLeafIn, HasInner, HasLeaf;
      assert nodes[k..][0] == nodes[k] && nodes[k..][1..] == nodes[k + 1..];
    }
  }

  /** Each check of the source, place by place. */
  lemma ChecksMeaning(nodes: seq<ChildClass>)
    ensures CeilsAboveRates(nodes) <==> CeilsCover(nodes)
    ensures RatesConsistent(nodes) <==> RatesNest(nodes)
    ensures CeilsConsistent(nodes) <==> CeilsNest(nodes)
  {
    forall x ensures x in All(nodes) <==> exists p :: IsPlace(nodes, p) && ClassAt(nodes, p) == x {
      AllMeaning(nodes, x);
    }
    forall x: ChildClass
      ensures MaxCeil(x.children) <= x.ceil <==> 0 <= x.ceil && forall c :: c in x.children ==> c.ceil <= x.ceil
    {
      MaxCeilBounds(x.children, x.ceil);
    }
    hide All, IsPlace, ClassAt, MaxCeil, SumRates;
    if CeilsAboveRates(nodes) {
      forall p | IsPlace(nodes, p) ensures ClassAt(nodes, p).ceil >= ClassAt(nodes, p).rate {
        assert ClassAt(nodes, p) in All(nodes);
      }
    }
    if RatesConsistent(nodes) {
      forall p | IsPlace(nodes, p) && ClassAt(nodes, p).children != []
        ensures SumRates(ClassAt(nodes, p).children) <= ClassAt(nodes, p).rate
      {
        assert ClassAt(nodes, p) in All(nodes);
      }
    }
    if CeilsConsistent(nodes) {
      forall p | IsPlace(nodes, p) && ClassAt(nodes, p).children != []
        ensures MaxCeil(ClassAt(nodes, p).children) <= ClassAt(nodes, p).ceil
      {
        assert ClassAt(nodes, p) in All(nodes);
      }
    }
  }

  /** The error of the first check that fails, in the order of the source. */
  ghost predicate IsVerdict(h: HtbInstance, v: Option<HtbError>) {
    var nodes := h.classes;
    if h.defaultClass.Some? && FirstDefault(nodes, h.defaultClass.value) == NotLeaf then v == Some(DefaultNotLeaf156)
    else if h.defaultClass.Some? && FirstDefault(nodes, h.defaultClass.value) == Absent then
      v == Some(DefaultMissing155)
    else if !KeysDiffer(nodes, (x: ChildClass) => x.priority) then v == Some(DuplicatePriority158)
    else if !CeilsCover(nodes) then v == Some(CeilBelowRate157)
    else if !KeysDiffer(nodes, (x: ChildClass) => x.classid) then v == Some(DuplicateClass159)
    else if !RatesNest(nodes) then v == Some(RateSum160)
    else if !CeilsNest(nodes) then v == Some(CeilBelowChild161)
    else v == None
  }

  lemma SameKeys(nodes: seq<ChildClass>, f: ChildClass -> int, g: ChildClass -> int)
    requires forall x :: f(x) == g(x)
    ensures KeysDiffer(nodes, f) <==> KeysDiffer(nodes, g)
  {
    hide IsPlace, ClassAt;
  }

  lemma PrioritiesDiffer(nodes: seq<ChildClass>)
    ensures NoDuplicates(KeysOf(nodes, Priority)) <==> KeysDiffer(nodes, (x: ChildClass) => x.priority)
    ensures NoDuplicates(KeysOf(nodes, ClassId)) <==> KeysDiffer(nodes, (x: ChildClass) => x.classid)
  {
    hide KeysOf, KeysDiffer, NoDuplicates;
    KeysMeaning(nodes, Priority);
    KeysMeaning(nodes, ClassId);
    SameKeys(nodes, Priority, (x: ChildClass) => x.priority);
    SameKeys(nodes, ClassId, (x: ChildClass) => x.classid);
  }

  lemma VerdictMeaning(h: HtbInstance)
    ensures IsVerdict(h, Verdict(h))
  {
    hide KeysOf, KeysDiffer, CeilsAboveRates, RatesConsistent, CeilsConsistent, CeilsCover, RatesNest, CeilsNest,
        FirstDefault, NoDuplicates;
    PrioritiesDiffer(h.classes);
    ChecksMeaning(h.classes);
  }
}
