/**
 Hierarchical token bucket configurations: the six recursive checks of an instance, what their
 acceptance means for the whole class tree, and the check against the speed of the link.
 */
module Htb {
  import opened Wrappers
  import opened Graphs
  import opened Sequences

  /** Rates and ceilings are unrestricted integers, in Mbps. */
  datatype ChildClass = ChildClass(classid: int, rate: int, ceil: int, priority: int, children: seq<ChildClass>)

  datatype HtbInstance = HtbInstance(rootId: string, defaultClass: Option<int>, classes: seq<ChildClass>)

  /** The classes of a forest in the order in which the recursive checks meet them. */
  function All(nodes: seq<ChildClass>): seq<ChildClass> {
    if nodes == [] then []
    else
      var last := nodes[|nodes| - 1];
      All(nodes[..|nodes| - 1]) + ([last] + All(last.children))
  }

  function Keys(nodes: seq<ChildClass>, key: ChildClass -> int): (r: seq<int>)
    ensures |r| == |nodes|
    ensures forall i :: 0 <= i < |nodes| ==> r[i] == key(nodes[i])
  {
    seq(|nodes|, i requires 0 <= i < |nodes| => key(nodes[i]))
  }

  function SumRates(nodes: seq<ChildClass>): int {
    if nodes == [] then 0 else SumRates(nodes[..|nodes| - 1]) + nodes[|nodes| - 1].rate
  }

  predicate IsBelow(node: ChildClass, x: ChildClass) {
    x == node || x in All(node.children)
  }

  lemma {:induction false} BelowIsInForest(nodes: seq<ChildClass>, i: nat, x: ChildClass)
    requires i < |nodes| && IsBelow(nodes[i], x)
    ensures x in All(nodes)
  {
    if i < |nodes| - 1 {
      BelowIsInForest(nodes[..|nodes| - 1], i, x);
    }
  }

  /** A class below a class of the forest is in the forest. */
  lemma {:induction false} BelowIsTransitive(nodes: seq<ChildClass>, x: ChildClass, y: ChildClass)
    requires x in All(nodes) && y in All(x.children)
    ensures y in All(nodes)
  {
    var n := |nodes| - 1;
    if x in All(nodes[..n]) {
      BelowIsTransitive(nodes[..n], x, y);
    } else if x in All(nodes[n].children) {
      BelowIsTransitive(nodes[n].children, x, y);
    }
  }

  // ------------------------------------------------------------------ the default class

  datatype DefaultResult = Found | Absent | NotLeaf

  predicate HasLeaf(nodes: seq<ChildClass>, id: int) {
    exists x :: x in All(nodes) && x.classid == id && x.children == []
  }

  predicate HasInner(nodes: seq<ChildClass>, id: int) {
    exists x :: x in All(nodes) && x.classid == id && x.children != []
  }

  /** What a search of the whole forest for `id` comes to. */
  function DefaultIn(nodes: seq<ChildClass>, id: int): DefaultResult {
    if HasInner(nodes, id) then NotLeaf else if HasLeaf(nodes, id) then Found else Absent
  }

  lemma DefaultOfPrefix(nodes: seq<ChildClass>, n: nat, id: int)
    requires n < |nodes|
    ensures HasLeaf(nodes[..n + 1], id) <==> HasLeaf(nodes[..n], id) || HasLeaf([nodes[n]], id)
    ensures HasInner(nodes[..n + 1], id) <==> HasInner(nodes[..n], id) || HasInner([nodes[n]], id)
  {
    assert nodes[..n + 1][..n] == nodes[..n];
    assert All(nodes[..n + 1]) == All(nodes[..n]) + ([nodes[n]] + All(nodes[n].children));
    AllOfOne(nodes[n]);
  }

  lemma AllOfOne(x: ChildClass)
    ensures All([x]) == [x] + All(x.children)
  {
    assert [x][..0] == [];
    assert All([x]) == All([]) + ([x] + All(x.children));
  }

  /** One tree: a match is not searched below, and no sibling is skipped. */
  method CheckDefault(x: ChildClass, id: int) returns (r: DefaultResult)
    ensures r == DefaultIn([x], id)
  {
    AllOfOne(x);
    if x.classid == id {
      assert x in All([x]);
      if x.children != [] {
        return NotLeaf;
      }
      assert All([x]) == [x];
      return Found;
    }
    var exists_ := false;
    for i := 0 to |x.children|
      invariant !HasInner(x.children[..i], id)
      invariant exists_ <==> HasLeaf(x.children[..i], id)
    {
      DefaultOfPrefix(x.children, i, id);
      var below := CheckDefault(x.children[i], id);
      if below == NotLeaf {
        InnerOfPrefix(x.children, i, id);
        return NotLeaf;
      }
      if below == Found {
        exists_ := true;
      }
    }
    assert x.children[..|x.children|] == x.children;
    r := if exists_ then Found else Absent;
  }

  lemma InnerOfPrefix(nodes: seq<ChildClass>, n: nat, id: int)
    requires n < |nodes| && HasInner(nodes[..n + 1], id)
    ensures HasInner(nodes, id)
  {
    var x :| x in All(nodes[..n + 1]) && x.classid == id && x.children != [];
    assert nodes == nodes[..n + 1] + nodes[n + 1..];
    AllConcat(nodes[..n + 1], nodes[n + 1..]);
  }

  /** The first top-level tree that has the default class decides; the trees after it are not searched. */
  function FirstDefault(nodes: seq<ChildClass>, id: int): DefaultResult {
    if nodes == [] then Absent
    else if DefaultIn([nodes[0]], id) != Absent then DefaultIn([nodes[0]], id)
    else FirstDefault(nodes[1..], id)
  }

  method FindDefault(nodes: seq<ChildClass>, id: int) returns (r: DefaultResult)
    ensures r == FirstDefault(nodes, id)
  {
    for i := 0 to |nodes|
      invariant FirstDefault(nodes, id) == FirstDefault(nodes[i..], id)
    {
      r := CheckDefault(nodes[i], id);
      if r != Absent {
        return;
      }
    }
    r := Absent;
  }

  // ------------------------------------------------------------------ the other checks

  predicate CeilsAboveRates(nodes: seq<ChildClass>) {
    forall x :: x in All(nodes) ==> x.ceil >= x.rate
  }

  method CheckCeilGreaterThanRate(x: ChildClass) returns (ok: bool)
    ensures ok <==> CeilsAboveRates([x])
  {
    AllOfOne(x);
    if x.ceil < x.rate {
      assert x in All([x]);
      return false;
    }
    for i := 0 to |x.children|
      invariant CeilsAboveRates(x.children[..i])
    {
      ForestOfPrefix(x.children, i);
      AllOfOne(x.children[i]);
      ok := CheckCeilGreaterThanRate(x.children[i]);
      if !ok {
        var bad :| bad in All([x.children[i]]) && bad.ceil < bad.rate;
        BelowIsInForest(x.children, i, bad);
        assert bad in All([x]);
        return;
      }
    }
    assert x.children[..|x.children|] == x.children;
    ok := true;
  }

  lemma ForestOfPrefix(nodes: seq<ChildClass>, n: nat)
    requires n < |nodes|
    ensures All(nodes[..n + 1]) == All(nodes[..n]) + ([nodes[n]] + All(nodes[n].children))
  {
    assert nodes[..n + 1][..n] == nodes[..n];
  }

  /** The forest from the front: first the leading trees, then the rest. */
  lemma {:induction false} AllConcat(a: seq<ChildClass>, b: seq<ChildClass>)
    ensures All(a + b) == All(a) + All(b)
    decreases |b|
  {
    if b == [] {
      assert a + b == a;
    } else {
      var n := |b| - 1;
      assert (a + b)[..|a + b| - 1] == a + b[..n] && (a + b)[|a + b| - 1] == b[n];
      AllConcat(a, b[..n]);
      ConcatIsAssociative(All(a), All(b[..n]), [b[n]] + All(b[n].children));
    }
  }

  /** The keys of a forest in the order in which they are met. */
  function KeysOf(nodes: seq<ChildClass>, key: ChildClass -> int): seq<int> {
    Keys(All(nodes), key)
  }

  /** The keys met before tree `n`, and the key of that tree. */
  function KeysUpTo(before: seq<int>, nodes: seq<ChildClass>, n: nat, key: ChildClass -> int): seq<int>
    requires n < |nodes|
  {
    before + KeysOf(nodes[..n], key) + [key(nodes[n])]
  }

  lemma KeysOfPrefix(before: seq<int>, nodes: seq<ChildClass>, n: nat, key: ChildClass -> int)
    requires n < |nodes|
    ensures before + KeysOf(nodes[..n + 1], key) == KeysUpTo(before, nodes, n, key) + KeysOf(nodes[n].children, key)
  {
    ForestOfPrefix(nodes, n);
  }

  lemma KeysOfWhole(before: seq<int>, nodes: seq<ChildClass>, n: nat, key: ChildClass -> int)
    requires n < |nodes|
    ensures before + KeysOf(nodes, key) == (before + KeysOf(nodes[..n + 1], key)) + KeysOf(nodes[n + 1..], key)
  {
    assert nodes == nodes[..n + 1] + nodes[n + 1..];
    AllConcat(nodes[..n + 1], nodes[n + 1..]);
  }

  lemma DuplicatesStay(a: seq<int>, b: seq<int>)
    requires !NoDuplicates(a)
    ensures !NoDuplicates(a + b)
  {
    var i, j :| 0 <= i < j < |a| && a[i] == a[j];
    assert (a + b)[i] == (a + b)[j];
  }

  lemma ChildrenFail(before: seq<int>, nodes: seq<ChildClass>, n: nat, key: ChildClass -> int)
    requires n < |nodes|
    requires !NoDuplicates(KeysUpTo(before, nodes, n, key) + KeysOf(nodes[n].children, key))
    ensures !NoDuplicates(before + KeysOf(nodes, key))
  {
    KeysOfPrefix(before, nodes, n, key);
    KeysOfWhole(before, nodes, n, key);
    DuplicatesStay(before + KeysOf(nodes[..n + 1], key), KeysOf(nodes[n + 1..], key));
  }

  lemma RepeatFails(before: seq<int>, nodes: seq<ChildClass>, n: nat, key: ChildClass -> int)
    requires n < |nodes| && key(nodes[n]) in before + KeysOf(nodes[..n], key)
    ensures !NoDuplicates(before + KeysOf(nodes, key))
  {
    var met, upTo := before + KeysOf(nodes[..n], key), KeysUpTo(before, nodes, n, key);
    var i :| 0 <= i < |met| && met[i] == key(nodes[n]);
    assert upTo[i] == upTo[|met|];
    DuplicatesStay(upTo, KeysOf(nodes[n].children, key));
    ChildrenFail(before, nodes, n, key);
  }

  /** The recursive uniqueness checks share one list of the keys met so far. */
  class UniqueKeys {
    var seen: seq<int>

    constructor ()
      ensures seen == []
    {
      seen := [];
    }

    method Check(nodes: seq<ChildClass>, key: ChildClass -> int) returns (ok: bool)
      requires NoDuplicates(seen)
      modifies this
      ensures ok <==> NoDuplicates(old(seen) + KeysOf(nodes, key))
      ensures ok ==> seen == old(seen) + KeysOf(nodes, key)
      decreases nodes
    {
      ghost var before := seen;
      for i := 0 to |nodes|
        invariant seen == before + KeysOf(nodes[..i], key)
        invariant NoDuplicates(seen)
      {
        if key(nodes[i]) in seen {
          RepeatFails(before, nodes, i, key);
          return false;
        }
        seen := seen + [key(nodes[i])];
        ok := Check(nodes[i].children, key);
        if !ok {
          ChildrenFail(before, nodes, i, key);
          return;
        }
        KeysOfPrefix(before, nodes, i, key);
      }
      assert nodes[..|nodes|] == nodes;
      ok := true;
    }
  }

  /** The children of every inner class are guaranteed no more than the class itself. */
  predicate RatesConsistent(nodes: seq<ChildClass>) {
    forall x :: x in All(nodes) && x.children != [] ==> SumRates(x.children) <= x.rate
  }

  method CheckRateConsistency(nodes: seq<ChildClass>) returns (ok: bool, rate: int)
    ensures ok <==> RatesConsistent(nodes)
    ensures ok ==> rate == SumRates(nodes)
  {
    ok, rate := true, 0;
    for i := 0 to |nodes|
      invariant rate == SumRates(nodes[..i])
      invariant ok && RatesConsistent(nodes[..i])
    {
      ForestOfPrefix(nodes, i);
      assert nodes[..i + 1][..i] == nodes[..i];
      BelowIsInForest(nodes, i, nodes[i]);
      if nodes[i].children != [] {
        var below: int;
        ok, below := CheckRateConsistency(nodes[i].children);
        if !ok {
          var bad :| bad in All(nodes[i].children) && bad.children != [] && SumRates(bad.children) > bad.rate;
          BelowIsInForest(nodes, i, bad);
          return;
        }
        if below > nodes[i].rate {
          return false, rate;
        }
      }
      rate := rate + nodes[i].rate;
    }
    assert nodes[..|nodes|] == nodes;
  }

  /** The ceiling of every inner class is at least each child's, and at least 0. */
  predicate CeilsConsistent(nodes: seq<ChildClass>) {
    forall x :: x in All(nodes) && x.children != [] ==> MaxCeil(x.children) <= x.ceil
  }

  /** The largest ceiling, counted from 0. */
  function MaxCeil(nodes: seq<ChildClass>): int {
    if nodes == [] then 0
    else
      var rest, last := MaxCeil(nodes[..|nodes| - 1]), nodes[|nodes| - 1].ceil;
      if last > rest then last else rest
  }

  lemma {:induction false} MaxCeilBounds(nodes: seq<ChildClass>, bound: int)
    ensures MaxCeil(nodes) <= bound <==> 0 <= bound && forall c :: c in nodes ==> c.ceil <= bound
  {
    if nodes != [] {
      var n := |nodes| - 1;
      MaxCeilBounds(nodes[..n], bound);
      assert nodes == nodes[..n] + [nodes[n]];
    }
  }

  method CheckCeilConsistency(nodes: seq<ChildClass>) returns (ok: bool, ceil: int)
    ensures ok <==> CeilsConsistent(nodes)
    ensures ok ==> ceil == MaxCeil(nodes)
  {
    ok, ceil := true, 0;
    for i := 0 to |nodes|
      invariant ceil == MaxCeil(nodes[..i])
      invariant ok && CeilsConsistent(nodes[..i])
    {
      ForestOfPrefix(nodes, i);
      assert nodes[..i + 1][..i] == nodes[..i];
      BelowIsInForest(nodes, i, nodes[i]);
      if nodes[i].children != [] {
        var below: int;
        ok, below := CheckCeilConsistency(nodes[i].children);
        if !ok {
          var bad :| bad in All(nodes[i].children) && bad.children != [] && MaxCeil(bad.children) > bad.ceil;
          BelowIsInForest(nodes, i, bad);
          return;
        }
        if below > nodes[i].ceil {
          return false, ceil;
        }
      }
      ceil := if nodes[i].ceil > ceil then nodes[i].ceil else ceil;
    }
    assert nodes[..|nodes|] == nodes;
  }

  // ------------------------------------------------------------------ the validator

  /** Error numbers of the source. */
  datatype HtbError =
    | DefaultMissing155
    | DefaultNotLeaf156
    | CeilBelowRate157
    | DuplicatePriority158
    | DuplicateClass159
    | RateSum160
    | CeilBelowChild161

  function Priority(x: ChildClass): int { x.priority }
  function ClassId(x: ChildClass): int { x.classid }

  /** The first failing check in the order of the source decides the error. */
  function Verdict(h: HtbInstance): Option<HtbError> {
    var default := if h.defaultClass.None? then Found else FirstDefault(h.classes, h.defaultClass.value);
    if default == NotLeaf then Some(DefaultNotLeaf156)
    else if default == Absent then Some(DefaultMissing155)
    else if !NoDuplicates(KeysOf(h.classes, Priority)) then Some(DuplicatePriority158)
    else if !CeilsAboveRates(h.classes) then Some(CeilBelowRate157)
    else if !NoDuplicates(KeysOf(h.classes, ClassId)) then Some(DuplicateClass159)
    else if !RatesConsistent(h.classes) then Some(RateSum160)
    else if !CeilsConsistent(h.classes) then Some(CeilBelowChild161)
    else None
  }

  method CheckUnique(nodes: seq<ChildClass>, key: ChildClass -> int) returns (ok: bool)
    ensures ok <==> NoDuplicates(KeysOf(nodes, key))
  {
    var keys := new UniqueKeys();
    ok := keys.Check(nodes, key);
    assert [] + KeysOf(nodes, key) == KeysOf(nodes, key);
  }

  method CheckAllCeils(nodes: seq<ChildClass>) returns (ok: bool)
    ensures ok <==> CeilsAboveRates(nodes)
  {
    for i := 0 to |nodes|
      invariant CeilsAboveRates(nodes[..i])
    {
      ForestOfPrefix(nodes, i);
      AllOfOne(nodes[i]);
      ok := CheckCeilGreaterThanRate(nodes[i]);
      if !ok {
        var bad :| bad in All([nodes[i]]) && bad.ceil < bad.rate;
        BelowIsInForest(nodes, i, bad);
        return;
      }
    }
    assert nodes[..|nodes|] == nodes;
    ok := true;
  }

  method ValidateHtbConfig(h: HtbInstance) returns (error: Option<HtbError>)
    ensures error == Verdict(h)
  {
    if h.defaultClass.Some? {
      var default := FindDefault(h.classes, h.defaultClass.value);
      if default == NotLeaf {
        return Some(DefaultNotLeaf156);
      }
      if default == Absent {
        return Some(DefaultMissing155);
      }
    }
    var ok := CheckUnique(h.classes, Priority);
    if !ok {
      return Some(DuplicatePriority158);
    }
    ok := CheckAllCeils(h.classes);
    if !ok {
      return Some(CeilBelowRate157);
    }
    ok := CheckUnique(h.classes, ClassId);
    if !ok {
      return Some(DuplicateClass159);
    }
    var sum;
    ok, sum := CheckRateConsistency(h.classes);
    if !ok {
      return Some(RateSum160);
    }
    ok, sum := CheckCeilConsistency(h.classes);
    if !ok {
      return Some(CeilBelowChild161);
    }
    return None;
  }
}
