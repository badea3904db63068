/**
 What the local, parent-and-children checks of `Htb` guarantee of the whole class tree, and of the
 link that carries it.
 */
module HtbGuarantees {
  import opened Htb
  import opened Wrappers
  import opened Graphs

  // ------------------------------------------------------------------ bandwidth

  /** The guaranteed rates of the leaf classes of a forest, added up. */
  function LeafRates(nodes: seq<ChildClass>): int {
    if nodes == [] then 0
    else
      var last := nodes[|nodes| - 1];
      LeafRates(nodes[..|nodes| - 1]) + if last.children == [] then last.rate else LeafRates(last.children)
  }

  lemma {:induction false} PrefixIsConsistent(nodes: seq<ChildClass>)
    requires nodes != [] && RatesConsistent(nodes)
    ensures RatesConsistent(nodes[..|nodes| - 1]) && RatesConsistent(nodes[|nodes| - 1].children)
    ensures nodes[|nodes| - 1].children != [] ==> SumRates(nodes[|nodes| - 1].children) <= nodes[|nodes| - 1].rate
  {
    assert nodes[|nodes| - 1] in All(nodes);
  }

  /** The leaves of a consistent forest are together guaranteed no more than its top classes. */
  lemma {:induction false} LeavesWithinTop(nodes: seq<ChildClass>)
    requires RatesConsistent(nodes)
    ensures LeafRates(nodes) <= SumRates(nodes)
  {
    if nodes != [] {
      PrefixIsConsistent(nodes);
      LeavesWithinTop(nodes[..|nodes| - 1]);
      LeavesWithinTop(nodes[|nodes| - 1].children);
    }
  }

  /** The leaves under any class, however deep, are together guaranteed no more than that class. */
  lemma LeavesWithinNode(nodes: seq<ChildClass>, x: ChildClass)
    requires RatesConsistent(nodes) && x in All(nodes) && x.children != []
    ensures LeafRates(x.children) <= x.rate
  {
    forall y | y in All(x.children) && y.children != [] ensures SumRates(y.children) <= y.rate {
      BelowIsTransitive(nodes, x, y);
    }
    LeavesWithinTop(x.children);
  }

  // ------------------------------------------------------------------ ceilings

  /** The documented rule: no child's ceiling exceeds its parent's. */
  predicate CeilsNested(nodes: seq<ChildClass>) {
    forall x, c :: x in All(nodes) && c in x.children ==> c.ceil <= x.ceil
  }

  predicate InnerCeilsNonNegative(nodes: seq<ChildClass>) {
    forall x :: x in All(nodes) && x.children != [] ==> x.ceil >= 0
  }

  /** The check enforces the documented rule, and also rejects a negative ceiling above any child. */
  lemma CeilCheckIff(nodes: seq<ChildClass>)
    ensures CeilsConsistent(nodes) <==> CeilsNested(nodes) && InnerCeilsNonNegative(nodes)
  {
    forall x | x in All(nodes) && x.children != []
      ensures MaxCeil(x.children) <= x.ceil <==> x.ceil >= 0 && forall c :: c in x.children ==> c.ceil <= x.ceil
    {
      MaxCeilBounds(x.children, x.ceil);
    }
    if CeilsConsistent(nodes) {
      forall x, c | x in All(nodes) && c in x.children ensures c.ceil <= x.ceil {
        assert x.children != [];
      }
    }
  }

  /** A forest that follows the documented rule and is still rejected. */
  lemma NegativeCeilIsRejected(child: ChildClass, parent: ChildClass)
    requires child == ChildClass(2, -3, -2, 2, []) && parent == ChildClass(1, -3, -1, 1, [child])
    ensures CeilsNested([parent]) && CeilsAboveRates([parent]) && !CeilsConsistent([parent])
  {
    AllOfOne(parent);
    AllOfOne(child);
    assert All([]) == [];
    assert All([parent]) == [parent, child];
    CeilCheckIff([parent]);
    assert parent in All([parent]);
  }

  /** No class may borrow beyond the ceiling of any class above it. */
  lemma {:induction false} DescendantsWithinCeil(nodes: seq<ChildClass>, x: ChildClass, d: ChildClass)
    requires CeilsNested(nodes) && x in All(nodes) && d in All(x.children)
    ensures d.ceil <= x.ceil
    decreases x
  {
    var child := ChildTowards(x.children, d);
    assert child.ceil <= x.ceil;
    if d != child {
      ChildIsBelow(nodes, x, child);
      DescendantsWithinCeil(nodes, child, d);
    }
  }

  lemma {:induction false} ChildTowards(children: seq<ChildClass>, d: ChildClass) returns (child: ChildClass)
    requires d in All(children)
    ensures child in children && IsBelow(child, d)
  {
    var n := |children| - 1;
    if d in All(children[..n]) {
      child := ChildTowards(children[..n], d);
    } else {
      child := children[n];
    }
  }

  lemma ChildIsBelow(nodes: seq<ChildClass>, x: ChildClass, child: ChildClass)
    requires x in All(nodes) && child in x.children
    ensures child in All(nodes)
  {
    var i :| 0 <= i < |x.children| && x.children[i] == child;
    BelowIsInForest(x.children, i, child);
    BelowIsTransitive(nodes, x, child);
  }

  /** The guaranteed rate of a class fits under the ceiling of every class above it. */
  lemma RateWithinCeilAbove(nodes: seq<ChildClass>, x: ChildClass, d: ChildClass)
    requires CeilsNested(nodes) && CeilsAboveRates(nodes) && x in All(nodes) && d in All(x.children)
    ensures d.rate <= d.ceil <= x.ceil
  {
    BelowIsTransitive(nodes, x, d);
    DescendantsWithinCeil(nodes, x, d);
  }

  // ------------------------------------------------------------------ the default class

  /** Exactly one class of the tree has this id, and it is a leaf. */
  ghost predicate IsTheOnlyLeaf(nodes: seq<ChildClass>, id: int) {
    exists k :: 0 <= k < |All(nodes)| && All(nodes)[k].classid == id && All(nodes)[k].children == []
                && forall m :: 0 <= m < |All(nodes)| && All(nodes)[m].classid == id ==> m == k
  }

  lemma {:induction false} FirstDefaultFound(nodes: seq<ChildClass>, id: int)
    ensures FirstDefault(nodes, id) == Found ==> HasLeaf(nodes, id)
    ensures HasLeaf(nodes, id) && !HasInner(nodes, id) ==> FirstDefault(nodes, id) == Found
  {
    if nodes != [] {
      FirstDefaultFound(nodes[1..], id);
      AllConcat([nodes[0]], nodes[1..]);
      assert nodes == [nodes[0]] + nodes[1..];
      assert All(nodes) == All([nodes[0]]) + All(nodes[1..]);
    }
  }

  /** The search may stop early or miss an inner match; with unique ids it still decides the rule. */
  lemma DefaultIsTheOnlyLeaf(nodes: seq<ChildClass>, id: int)
    requires NoDuplicates(KeysOf(nodes, ClassId))
    ensures FirstDefault(nodes, id) == Found <==> IsTheOnlyLeaf(nodes, id)
  {
    FirstDefaultFound(nodes, id);
    var all, ids := All(nodes), KeysOf(nodes, ClassId);
    assert forall k :: 0 <= k < |all| ==> ids[k] == all[k].classid;
    if HasLeaf(nodes, id) {
      var x :| x in all && x.classid == id && x.children == [];
      var k :| 0 <= k < |all| && all[k] == x;
      assert forall m :: 0 <= m < |all| && all[m].classid == id ==> ids[m] == ids[k];
    }
    if IsTheOnlyLeaf(nodes, id) {
      var k :| 0 <= k < |all| && all[k].classid == id && all[k].children == []
               && forall m :: 0 <= m < |all| && all[m].classid == id ==> m == k;
      assert all[k] in all;
      assert !HasInner(nodes, id);
    }
  }

  // ------------------------------------------------------------------ acceptance

  /** What an accepted configuration satisfies, said of the whole tree. */
  ghost predicate WellFormed(h: HtbInstance) {
    && (h.defaultClass.Some? ==> IsTheOnlyLeaf(h.classes, h.defaultClass.value))
    && NoDuplicates(KeysOf(h.classes, ClassId))
    && NoDuplicates(KeysOf(h.classes, Priority))
    && CeilsAboveRates(h.classes)
    && RatesConsistent(h.classes)
    && CeilsNested(h.classes)
    && InnerCeilsNonNegative(h.classes)
  }

  lemma AcceptedIff(h: HtbInstance)
    ensures Verdict(h).None? <==> WellFormed(h)
  {
    CeilCheckIff(h.classes);
    if NoDuplicates(KeysOf(h.classes, ClassId)) && h.defaultClass.Some? {
      DefaultIsTheOnlyLeaf(h.classes, h.defaultClass.value);
    }
  }

  // ------------------------------------------------------------------ the link

  /** A network interface: the token bucket of each of its compute nodes, if any. */
  datatype Interface = Interface(name: string, buckets: seq<Option<HtbInstance>>)

  function TopRates(buckets: seq<Option<HtbInstance>>): int {
    if buckets == [] then 0
    else
      var last := buckets[|buckets| - 1];
      TopRates(buckets[..|buckets| - 1]) + if last.Some? then SumRates(last.value.classes) else 0
  }

  function AllLeafRates(buckets: seq<Option<HtbInstance>>): int {
    if buckets == [] then 0
    else
      var last := buckets[|buckets| - 1];
      AllLeafRates(buckets[..|buckets| - 1]) + if last.Some? then LeafRates(last.value.classes) else 0
  }

  /** No interface, or a link without a speed, is not checked. */
  method ValidateHtb(comp: Option<Interface>, speed: Option<int>) returns (ok: bool)
    ensures ok <==> comp.None? || speed.None? || speed.value == 0 || TopRates(comp.value.buckets) <= speed.value
  {
    if comp.None? || speed.None? || speed.value == 0 {
      return true;
    }
    var buckets := comp.value.buckets;
    var sum := 0;
    for i := 0 to |buckets|
      invariant sum == TopRates(buckets[..i])
    {
      assert buckets[..i + 1][..i] == buckets[..i];
      if buckets[i].Some? {
        var classes := buckets[i].value.classes;
        for k := 0 to |classes|
          invariant sum == TopRates(buckets[..i]) + SumRates(classes[..k])
        {
          assert classes[..k + 1][..k] == classes[..k];
          sum := sum + classes[k].rate;
        }
        assert classes[..|classes|] == classes;
      }
    }
    assert buckets[..|buckets|] == buckets;
    ok := sum <= speed.value;
  }

  /** Accepted instances on an accepted link: all leaf classes of all nodes fit the speed of the link. */
  lemma {:induction false} LeavesWithinLink(buckets: seq<Option<HtbInstance>>)
    requires forall i :: 0 <= i < |buckets| && buckets[i].Some? ==> Verdict(buckets[i].value).None?
    ensures AllLeafRates(buckets) <= TopRates(buckets)
  {
    if buckets != [] {
      LeavesWithinLink(buckets[..|buckets| - 1]);
      var last := buckets[|buckets| - 1];
      if last.Some? {
        LeavesWithinTop(last.value.classes);
      }
    }
  }

  /** ... so on a link with a speed that passed `ValidateHtb`, the speed bounds every leaf's guarantee together. */
  lemma LeavesWithinSpeed(comp: Interface, speed: int)
    requires forall i :: 0 <= i < |comp.buckets| && comp.buckets[i].Some? ==> Verdict(comp.buckets[i].value).None?
    requires TopRates(comp.buckets) <= speed
    ensures AllLeafRates(comp.buckets) <= speed
  {
    LeavesWithinLink(comp.buckets);
  }
}
