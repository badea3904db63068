/** Masks and values bit by bit: what the arithmetic of the encodings and their checks come to. */
module ValueMeaning {
  import opened Bits
  import opened ValueEncoding
  import opened Graphs
  import opened Wrappers

  // ------------------------------------------------------------------ bits

  /** Bit `k` of `a`, counted from the lowest. */
  predicate Bit(a: nat, k: nat) {
    if k == 0 then a % 2 == 1 else Bit(a / 2, k - 1)
  }

  lemma {:induction false} ZeroHasNoBits(k: nat)
    ensures !Bit(0, k)
  {
    if k > 0 {
      ZeroHasNoBits(k - 1);
    }
  }

  lemma {:induction false} AndBits(a: nat, b: nat, k: nat)
    ensures Bit(And(a, b), k) <==> Bit(a, k) && Bit(b, k)
  {
    AndParts(a, b);
    if k > 0 {
      AndBits(a / 2, b / 2, k - 1);
    }
  }

  lemma {:induction false} OrBits(a: nat, b: nat, k: nat)
    ensures Bit(Or(a, b), k) <==> Bit(a, k) || Bit(b, k)
  {
    OrParts(a, b);
    if k > 0 {
      OrBits(a / 2, b / 2, k - 1);
    }
  }

  lemma {:induction false} AndNotBits(a: nat, b: nat, k: nat)
    ensures Bit(AndNot(a, b), k) <==> Bit(a, k) && !Bit(b, k)
  {
    AndNotParts(a, b);
    if k > 0 {
      AndNotBits(a / 2, b / 2, k - 1);
    }
  }

  ghost predicate SameBits(a: nat, b: nat) {
    forall k: nat :: Bit(a, k) <==> Bit(b, k)
  }

  /** A number is its bits. */
  lemma {:induction false} BitsDecide(a: nat, b: nat)
    ensures a == b <==> SameBits(a, b)
    decreases a + b
  {
    if SameBits(a, b) && (a != 0 || b != 0) {
      assert Bit(a, 0) <==> Bit(b, 0);
      forall k: nat ensures Bit(a / 2, k) <==> Bit(b / 2, k) {
        assert Bit(a, k + 1) <==> Bit(b, k + 1);
      }
      BitsDecide(a / 2, b / 2);
    }
  }

  /** No bit of `a` at `n` or above is set. */
  ghost predicate NoBitsFrom(a: nat, n: nat) {
    forall k: nat :: n <= k ==> !Bit(a, k)
  }

  lemma NoBitsIsZero(a: nat)
    ensures a == 0 <==> NoBitsFrom(a, 0)
  {
    forall k: nat ensures !Bit(0, k) {
      ZeroHasNoBits(k);
    }
    BitsDecide(a, 0);
    if NoBitsFrom(a, 0) {
      forall k: nat ensures Bit(a, k) <==> Bit(0, k) {
        ZeroHasNoBits(k);
      }
    }
  }

  /** Below `1 << n` lie the numbers with no bit at `n` or above. */
  lemma {:induction false} PowMeaning(a: nat, n: nat)
    ensures a < Pow2(n) <==> NoBitsFrom(a, n)
  {
    if n == 0 {
      NoBitsIsZero(a);
    } else {
      PowMeaning(a / 2, n - 1);
      if NoBitsFrom(a, n) {
        forall k: nat | n - 1 <= k ensures !Bit(a / 2, k) {
          assert !Bit(a, k + 1);
        }
      }
      if NoBitsFrom(a / 2, n - 1) {
        forall k: nat | n <= k ensures !Bit(a, k) {
          assert !Bit(a / 2, k - 1);
        }
      }
    }
  }

  ghost predicate BitsWithin(v: nat, mask: nat) {
    forall k: nat :: Bit(v, k) ==> Bit(mask, k)
  }

  lemma InsideMeaning(v: nat, mask: nat)
    ensures Inside(v, mask) <==> BitsWithin(v, mask)
  {
    BitsDecide(And(v, mask), v);
    forall k: nat ensures Bit(And(v, mask), k) <==> Bit(v, k) && Bit(mask, k) {
      AndBits(v, mask, k);
    }
  }

  /** No bit belongs to both. */
  ghost predicate ShareNoBit(a: nat, b: nat) {
    forall k: nat :: !(Bit(a, k) && Bit(b, k))
  }

  lemma DisjointMeaning(a: nat, b: nat)
    ensures And(a, b) == 0 <==> ShareNoBit(a, b)
  {
    NoBitsIsZero(And(a, b));
    forall k: nat ensures Bit(And(a, b), k) <==> Bit(a, k) && Bit(b, k) {
      AndBits(a, b, k);
    }
    if ShareNoBit(a, b) {
      assert NoBitsFrom(And(a, b), 0);
    }
  }

  lemma {:induction false} OrAllBits(values: seq<nat>, k: nat)
    ensures Bit(OrAll(values), k) <==> exists i :: 0 <= i < |values| && Bit(values[i], k)
  {
    if values == [] {
      ZeroHasNoBits(k);
    } else {
      var n := |values| - 1;
      OrAllBits(values[..n], k);
      OrBits(OrAll(values[..n]), values[n], k);
      assert forall i :: 0 <= i < n ==> values[..n][i] == values[i];
      if i :| 0 <= i < n && Bit(values[..n][i], k) {
        assert Bit(values[i], k);
      }
      if i :| 0 <= i < |values| && Bit(values[i], k) {
        assert i < n ==> Bit(values[..n][i], k);
      }
    }
  }

  // ------------------------------------------------------------------ flags

  /** Labels differ, and no two masks share a bit. */
  ghost predicate FlagsDiffer(flags: seq<Flag>) {
    forall i, j :: 0 <= i < j < |flags| ==>
      flags[i].text != flags[j].text && ShareNoBit(flags[i].mask, flags[j].mask)
  }

  lemma MasksMeaning(masks: seq<nat>)
    ensures DisjointMasks(masks) <==> forall i, j :: 0 <= i < j < |masks| ==> ShareNoBit(masks[i], masks[j])
  {
    forall a, b ensures And(a, b) == 0 <==> ShareNoBit(a, b) {
      DisjointMeaning(a, b);
    }
    hide And, ShareNoBit;
  }

  lemma FlagsMeaning(flags: seq<Flag>)
    ensures FlagsAreValid(flags) <==> FlagsDiffer(flags)
  {
    var masks, labels := Masks(flags), Labels(flags);
    MasksMeaning(masks);
    hide ShareNoBit, DisjointMasks, Masks, Labels;
    if FlagsAreValid(flags) {
      forall i, j | 0 <= i < j < |flags|
        ensures flags[i].text != flags[j].text && ShareNoBit(flags[i].mask, flags[j].mask)
      {
        assert labels[i] != labels[j] && ShareNoBit(masks[i], masks[j]);
      }
    }
  }

  lemma RangeMeaning(masks: seq<nat>, bitLength: ValueEncoding.positive)
    ensures MasksInRange(masks, bitLength) <==> forall i :: 0 <= i < |masks| ==> NoBitsFrom(masks[i], bitLength)
  {
    forall i | 0 <= i < |masks| ensures masks[i] < Pow2(bitLength) <==> NoBitsFrom(masks[i], bitLength) {
      PowMeaning(masks[i], bitLength);
    }
  }

  /** The raw value of a choice of flags has the bits of their masks. */
  lemma RawMeaning(flags: seq<Flag>, chosen: set<string>, k: nat)
    ensures Bit(RawOf(flags, chosen), k)
            <==> exists i :: 0 <= i < |flags| && flags[i].text in chosen && Bit(flags[i].mask, k)
  {
    var values := ChosenMasks(flags, chosen);
    OrAllBits(values, k);
    ZeroHasNoBits(k);
    if i :| 0 <= i < |flags| && flags[i].text in chosen && Bit(flags[i].mask, k) {
      assert Bit(values[i], k);
    }
  }

  /** A flag is active exactly if all bits of its mask are set. */
  lemma ActiveMeaning(raw: nat, f: Flag)
    ensures IsActive(raw, f) <==> BitsWithin(f.mask, raw)
  {
    AndIsSymmetric(raw, f.mask);
    InsideMeaning(f.mask, raw);
  }

  // ------------------------------------------------------------------ states

  predicate IsValueOf(v: nat, s: State) {
    s.from <= v <= s.to
  }

  /** Labels differ, the bounds have no bit outside the mask, and no value belongs to two states. */
  ghost predicate StatesDiffer(g: ValueEncoding.Group) {
    && (forall i, j :: 0 <= i < j < |g.states| ==> g.states[i].text != g.states[j].text)
    && (forall i :: 0 <= i < |g.states| ==>
          BitsWithin(g.states[i].from, g.mask) && BitsWithin(g.states[i].to, g.mask))
    && forall i, j, v: nat :: 0 <= i < j < |g.states| && IsValueOf(v, g.states[i]) ==> !IsValueOf(v, g.states[j])
  }

  lemma OverlapMeaning(a: State, b: State)
    requires StateIsOrdered(a) && StateIsOrdered(b)
    ensures StatesOverlap(a, b) <==> exists v: nat :: IsValueOf(v, a) && IsValueOf(v, b)
  {
    var low := if a.from < b.from then b.from else a.from;
    if StatesOverlap(a, b) {
      assert IsValueOf(low, a) && IsValueOf(low, b);
    }
  }

  /** A group whose states are ordered is accepted exactly if they differ in this way. */
  lemma GroupMeaning(g: ValueEncoding.Group)
    requires forall i :: 0 <= i < |g.states| ==> StateIsOrdered(g.states[i])
    ensures GroupIsValid(g) <==> StatesDiffer(g)
  {
    forall v: nat ensures Inside(v, g.mask) <==> BitsWithin(v, g.mask) {
      InsideMeaning(v, g.mask);
    }
    forall i, j | 0 <= i < j < |g.states|
      ensures StatesOverlap(g.states[i], g.states[j])
              <==> exists v: nat :: IsValueOf(v, g.states[i]) && IsValueOf(v, g.states[j])
    {
      OverlapMeaning(g.states[i], g.states[j]);
    }
    hide Inside, BitsWithin, StatesOverlap, IsValueOf;
    if GroupIsValid(g) {
      forall i, j, v: nat | 0 <= i < j < |g.states| && IsValueOf(v, g.states[i]) ensures !IsValueOf(v, g.states[j]) {
        assert !StatesOverlap(g.states[i], g.states[j]);
      }
    }
  }

  /** Every group differs in itself; names differ, and no two masks share a bit. */
  ghost predicate GroupsDiffer(groups: seq<ValueEncoding.Group>) {
    && (forall i :: 0 <= i < |groups| ==> StatesDiffer(groups[i]))
    && forall i, j :: 0 <= i < j < |groups| ==>
         groups[i].name != groups[j].name && ShareNoBit(groups[i].mask, groups[j].mask)
  }

  lemma TableMeaning(groups: seq<ValueEncoding.Group>)
    requires forall g, s :: g in groups && s in g.states ==> StateIsOrdered(s)
    ensures TableIsValid(groups) <==> GroupsDiffer(groups)
  {
    forall i | 0 <= i < |groups| ensures GroupIsValid(groups[i]) <==> StatesDiffer(groups[i]) {
      GroupMeaning(groups[i]);
    }
    var masks, names := GroupMasks(groups), GroupNames(groups);
    MasksMeaning(masks);
    hide ShareNoBit, DisjointMasks, GroupMasks, GroupNames, GroupIsValid, StatesDiffer;
    if TableIsValid(groups) {
      forall i, j | 0 <= i < j < |groups|
        ensures groups[i].name != groups[j].name && ShareNoBit(groups[i].mask, groups[j].mask)
      {
        assert names[i] != names[j] && ShareNoBit(masks[i], masks[j]);
      }
    }
  }
}
