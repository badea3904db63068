/** Bitwise operations on unbounded non-negative integers, and the laws that mask checks rest on. */
module Bits {

  function And(a: nat, b: nat): nat {
    if a == 0 || b == 0 then 0 else 2 * And(a / 2, b / 2) + (if a % 2 == 1 && b % 2 == 1 then 1 else 0)
  }

  function Or(a: nat, b: nat): nat
    decreases a + b
  {
    if a == 0 then b else if b == 0 then a
    else 2 * Or(a / 2, b / 2) + (if a % 2 == 1 || b % 2 == 1 then 1 else 0)
  }

  /** `a & ~b`. */
  function AndNot(a: nat, b: nat): nat {
    if a == 0 then 0 else 2 * AndNot(a / 2, b / 2) + (if a % 2 == 1 && b % 2 == 0 then 1 else 0)
  }

  /** `1 << n`. */
  function Pow2(n: nat): (r: nat)
    ensures r > 0
  {
    if n == 0 then 1 else 2 * Pow2(n - 1)
  }

  /** Every bit of `v` is a bit of `mask`. */
  predicate Inside(v: nat, mask: nat) {
    And(v, mask) == v
  }

  lemma {:induction false} OrIsZero(a: nat, b: nat)
    ensures Or(a, b) == 0 <==> a == 0 && b == 0
    decreases a + b
  {
    if a != 0 && b != 0 {
      OrIsZero(a / 2, b / 2);
    }
  }

  lemma {:induction false} AndOverOr(a: nat, b: nat, m: nat)
    ensures And(Or(a, b), m) == Or(And(a, m), And(b, m))
    decreases a + b
  {
    if a != 0 && b != 0 && m != 0 {
      AndOverOr(a / 2, b / 2, m / 2);
      OrParts(a, b);
      AndParts(a, m);
      AndParts(b, m);
      AndParts(Or(a, b), m);
      OrParts(And(a, m), And(b, m));
    }
  }

  lemma OrParts(a: nat, b: nat)
    ensures Or(a, b) / 2 == Or(a / 2, b / 2)
    ensures Or(a, b) % 2 == 1 <==> a % 2 == 1 || b % 2 == 1
  {
  }

  lemma AndParts(a: nat, b: nat)
    ensures And(a, b) / 2 == And(a / 2, b / 2)
    ensures And(a, b) % 2 == 1 <==> a % 2 == 1 && b % 2 == 1
  {
  }

  lemma AndNotParts(a: nat, b: nat)
    ensures AndNot(a, b) / 2 == AndNot(a / 2, b / 2)
    ensures AndNot(a, b) % 2 == 1 <==> a % 2 == 1 && b % 2 == 0
  {
  }

  lemma {:induction false} InsideItself(m: nat)
    ensures Inside(m, m) && Inside(0, m)
  {
    if m != 0 {
      InsideItself(m / 2);
    }
  }

  /** A value inside one mask shares no bit with a disjoint mask. */
  lemma {:induction false} InsideStaysClear(v: nat, m: nat, other: nat)
    requires Inside(v, m) && And(m, other) == 0
    ensures And(v, other) == 0
  {
    if v != 0 && m != 0 && other != 0 {
      AndParts(v, m);
      AndParts(m, other);
      AndParts(v, other);
      InsideStaysClear(v / 2, m / 2, other / 2);
    }
  }

  lemma {:induction false} AndIsSymmetric(a: nat, b: nat)
    ensures And(a, b) == And(b, a)
  {
    if a != 0 && b != 0 {
      AndIsSymmetric(a / 2, b / 2);
    }
  }

  /** No bit outside the mask is the same as lying inside it. */
  lemma {:induction false} AndNotIsZero(v: nat, mask: nat)
    ensures AndNot(v, mask) == 0 <==> Inside(v, mask)
  {
    if v != 0 {
      AndNotParts(v, mask);
      AndParts(v, mask);
      AndNotIsZero(v / 2, mask / 2);
    }
  }

  lemma {:induction false} OrInside(a: nat, b: nat, mask: nat)
    ensures Inside(Or(a, b), mask) <==> Inside(a, mask) && Inside(b, mask)
    decreases a + b
  {
    if a != 0 && b != 0 {
      OrParts(a, b);
      AndParts(a, mask);
      AndParts(b, mask);
      AndParts(Or(a, b), mask);
      OrInside(a / 2, b / 2, mask / 2);
    }
  }

  /** Or-ing stays below a power of two. */
  lemma {:induction false} OrBelowPow2(a: nat, b: nat, n: nat)
    requires a < Pow2(n) && b < Pow2(n)
    ensures Or(a, b) < Pow2(n)
  {
    if n > 0 {
      OrParts(a, b);
      OrBelowPow2(a / 2, b / 2, n - 1);
    }
  }

  lemma {:induction false} InsideIsSmaller(v: nat, mask: nat)
    requires Inside(v, mask)
    ensures v <= mask
  {
    if v != 0 {
      AndParts(v, mask);
      InsideIsSmaller(v / 2, mask / 2);
    }
  }

  // ------------------------------------------------------------------ many values

  function OrAll(values: seq<nat>): nat {
    if values == [] then 0 else Or(OrAll(values[..|values| - 1]), values[|values| - 1])
  }

  predicate DisjointMasks(masks: seq<nat>) {
    forall i, j :: 0 <= i < j < |masks| ==> And(masks[i], masks[j]) == 0
  }

  /** A mask is clear of the accumulated mask exactly when it is clear of each part. */
  lemma {:induction false} ClearOfAll(values: seq<nat>, m: nat)
    ensures And(OrAll(values), m) == 0 <==> forall i :: 0 <= i < |values| ==> And(values[i], m) == 0
  {
    if values != [] {
      var n := |values| - 1;
      ClearOfAll(values[..n], m);
      AndOverOr(OrAll(values[..n]), values[n], m);
      OrIsZero(And(OrAll(values[..n]), m), And(values[n], m));
    }
  }

  lemma {:induction false} OrAllBelowPow2(values: seq<nat>, n: nat)
    requires forall i :: 0 <= i < |values| ==> values[i] < Pow2(n)
    ensures OrAll(values) < Pow2(n)
  {
    if values != [] {
      OrAllBelowPow2(values[..|values| - 1], n);
      OrBelowPow2(OrAll(values[..|values| - 1]), values[|values| - 1], n);
    }
  }

  /** Values put together inside disjoint masks can be taken apart again, each with its own mask. */
  lemma {:induction false} MaskSelects(values: seq<nat>, masks: seq<nat>, i: nat)
    requires |values| == |masks| && i < |masks| && DisjointMasks(masks)
    requires forall k :: 0 <= k < |masks| ==> Inside(values[k], masks[k])
    ensures And(OrAll(values), masks[i]) == values[i]
  {
    var n := |values| - 1;
    var rest, last := OrAll(values[..n]), values[n];
    AndOverOr(rest, last, masks[i]);
    if i < n {
      MaskSelects(values[..n], masks[..n], i);
      AndIsSymmetric(masks[i], masks[n]);
      InsideStaysClear(last, masks[n], masks[i]);
    } else {
      forall k | 0 <= k < n ensures And(values[..n][k], masks[n]) == 0 {
        InsideStaysClear(values[k], masks[k], masks[n]);
      }
      ClearOfAll(values[..n], masks[n]);
    }
  }
}
