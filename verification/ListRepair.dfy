/**
 The repair loop on a list somewhere in the data, with errors that name its items by index: when a round
 removes the items that were meant, and when the loop gives up on a list it could have repaired.
 */
module ListRepair {
  import opened Wrappers
  import opened Trees
  import opened Repair
  import opened ListDeletion
  import opened Graphs
  import opened Sequences

  /** The error makes the loop remove item `i` of the list at `p`: it is about the item, or about a field it lacks. */
  predicate RemovesItem(e: Error, p: Loc, i: nat) {
    RemoveLoc(e) == p + [Index(i)] && (IsFatal(e) ==> |e.loc| > 1)
  }

  predicate RemoveItems(errors: seq<Error>, p: Loc, named: seq<nat>) {
    |errors| == |named| && forall j :: 0 <= j < |errors| ==> RemovesItem(errors[j], p, named[j])
  }

  /** Nothing has been removed yet at the items that the errors name, or at their locations. */
  ghost predicate AreNew(s: State, errors: seq<Error>) {
    forall e :: e in errors ==> RemoveLoc(e) !in s.removed && e.loc !in s.major
  }

  // ------------------------------------------------------------------ one round

  lemma ItemLocs(p: Loc, i: nat, k: nat)
    ensures p + [Index(i)] == p + [Index(k)] <==> i == k
    ensures |p + [Index(i)]| == |p| + 1
  {
    assert (p + [Index(i)])[|p|] == Index(i) && (p + [Index(k)])[|p|] == Index(k);
  }

  lemma PopAtLocation(t: Tree, p: Loc, items: seq<Tree>, i: nat)
    requires At(t, p) == Some(List(items))
    ensures DeleteAt(t, p + [Index(i)]) == PutAt(t, p, List(Pop(items, i)))
  {
    DeleteBelow(t, p, [Index(i)]);
  }

  /** What holds after the errors that name `named`, starting from a state `s`. */
  ghost predicate Popped(s: State, t: State, p: Loc, items: seq<Tree>, named: seq<nat>)
    requires At(s.working, p).Some?
  {
    && t.working == PutAt(s.working, p, List(PopAll(items, FirstOf(named))))
    && (forall i: nat :: p + [Index(i)] in t.removed <==> p + [Index(i)] in s.removed || i in named)
    && (forall l :: l in t.major ==> l in s.major || |l| == |p| + 1)
  }

  lemma NextFirst(named: seq<nat>, i: nat)
    ensures FirstOf(named + [i]) == if i in named then FirstOf(named) else FirstOf(named) + [i]
  {
    assert (named + [i])[..|named|] == named;
  }

  lemma NextPop<T>(xs: seq<T>, named: seq<nat>, i: nat)
    ensures PopAll(xs, named + [i]) == Pop(PopAll(xs, named), i)
  {
    assert (named + [i])[..|named|] == named;
  }

  /** An error is skipped exactly when the item it removes has been removed. */
  lemma SkippedIff(s: State, t: State, p: Loc, items: seq<Tree>, named: seq<nat>, e: Error, i: nat)
    requires At(s.working, p).Some? && Popped(s, t, p, items, named)
    requires RemovesItem(e, p, i) && p + [Index(i)] !in s.removed && e.loc !in s.major
    ensures Blocked(t, e) <==> i in named
    ensures Step(t, e) == t || (
              && Step(t, e).working == DeleteAt(t.working, p + [Index(i)])
              && Step(t, e).removed == t.removed + {p + [Index(i)]}
              && Step(t, e).major <= t.major + {p + [Index(i)]})
    ensures Step(t, e) == t <==> i in named
  {
    ItemLocs(p, i, i);
  }

  lemma WorkingPops(s: State, p: Loc, items: seq<Tree>, left: seq<Tree>, t: Tree, i: nat)
    requires At(s.working, p) == Some(List(items)) && t == PutAt(s.working, p, List(left))
    ensures DeleteAt(t, p + [Index(i)]) == PutAt(s.working, p, List(Pop(left, i)))
  {
    AtPut(s.working, p, List(left));
    PopAtLocation(t, p, left, i);
    PutTwice(s.working, p, List(left), List(Pop(left, i)));
  }

  lemma RemovedPops(s: State, t: State, p: Loc, items: seq<Tree>, named: seq<nat>, i: nat)
    requires At(s.working, p).Some? && Popped(s, t, p, items, named)
    ensures forall k: nat ::
              p + [Index(k)] in t.removed + {p + [Index(i)]} <==> p + [Index(k)] in s.removed || k in named + [i]
  {
    forall k: nat ensures p + [Index(k)] in t.removed + {p + [Index(i)]}
      <==> p + [Index(k)] in s.removed || k in named + [i] {
      ItemLocs(p, i, k);
    }
  }

  lemma SameMembers(named: seq<nat>, i: nat)
    requires i in named
    ensures forall k: nat :: k in named + [i] <==> k in named
  {
  }

  lemma RepeatPops(s: State, t: State, p: Loc, items: seq<Tree>, named: seq<nat>, i: nat)
    requires At(s.working, p).Some? && Popped(s, t, p, items, named) && i in named
    ensures Popped(s, t, p, items, named + [i])
  {
    NextFirst(named, i);
    SameMembers(named, i);
  }

  lemma StepPops(s: State, t: State, p: Loc, items: seq<Tree>, named: seq<nat>, e: Error, i: nat)
    requires At(s.working, p) == Some(List(items)) && Popped(s, t, p, items, named)
    requires RemovesItem(e, p, i) && p + [Index(i)] !in s.removed && e.loc !in s.major
    ensures Popped(s, Step(t, e), p, items, named + [i])
  {
    hide At, PutAt, DeleteAt, Step, Blocked, FirstOf, PopAll;
    SkippedIff(s, t, p, items, named, e, i);
    if i in named {
      RepeatPops(s, t, p, items, named, i);
    } else {
      NextFirst(named, i);
      NextPop(items, FirstOf(named), i);
      WorkingPops(s, p, items, PopAll(items, FirstOf(named)), t.working, i);
      RemovedPops(s, t, p, items, named, i);
      ItemLocs(p, i, i);
    }
  }

  lemma NothingPopped(s: State, p: Loc, items: seq<Tree>)
    requires At(s.working, p) == Some(List(items))
    ensures Popped(s, s, p, items, [])
  {
    PutSame(s.working, p);
  }

  /**
   A round of errors about the items of one list pops the named indices one after the other, a repeated one
   only once, and leaves everything else in the data alone.
   */
  lemma {:induction false} RoundPops(s: State, p: Loc, items: seq<Tree>, errors: seq<Error>, named: seq<nat>)
    requires At(s.working, p) == Some(List(items)) && RemoveItems(errors, p, named) && AreNew(s, errors)
    ensures Popped(s, Process(s, errors), p, items, named)
    decreases |errors|
  {
    hide At, PutAt, Step, FirstOf, PopAll, Popped;
    if errors == [] {
      NothingPopped(s, p, items);
    } else {
      var m := |errors| - 1;
      var t := Process(s, errors[..m]);
      RoundPops(s, p, items, errors[..m], named[..m]);
      assert RemovesItem(errors[m], p, named[m]) && errors[m] in errors;
      StepPops(s, t, p, items, named[..m], errors[m], named[m]);
      SplitLast(named);
    }
  }

  /**
   For a list anywhere in the data, in any round: the positions left are exactly the unnamed ones if and only
   if the indices, each at its first occurrence, come in descending order.
   */
  lemma RoundRemovesNamedIff(s: State, p: Loc, items: seq<Tree>, errors: seq<Error>, named: seq<nat>)
    requires At(s.working, p) == Some(List(items)) && RemoveItems(errors, p, named) && AreNew(s, errors)
    requires InRange(|items|, named)
    ensures Process(s, errors).working == PutAt(s.working, p, List(PopAll(items, FirstOf(named))))
    ensures RemovesNamed(|items|, FirstOf(named)) <==> Descending(FirstOf(named))
    ensures NoDuplicates(items) ==>
              ((forall q: nat :: q < |items| ==> (items[q] in PopAll(items, FirstOf(named)) <==> q !in named))
               <==> Descending(FirstOf(named)))
  {
    RoundPops(s, p, items, errors, named);
    FirstOfMembers(named);
    RemovesNamedIff(|items|, FirstOf(named));
    SurvivorsInOrder(|items|, FirstOf(named));
    if NoDuplicates(items) {
      forall q: nat | q < |items| ensures items[q] in PopAll(items, FirstOf(named))
        <==> q in Survivors(|items|, FirstOf(named)) {
        SurvivingItems(items, FirstOf(named), q);
      }
    }
  }

  /** Validation reports the bad items of a list first to last: then a round removes them only if there is just one. */
  lemma AscendingRoundIff(s: State, p: Loc, items: seq<Tree>, errors: seq<Error>, named: seq<nat>)
    requires At(s.working, p) == Some(List(items)) && RemoveItems(errors, p, named) && AreNew(s, errors)
    requires InRange(|items|, named) && Ascending(named)
    ensures Process(s, errors).working == PutAt(s.working, p, List(PopAll(items, named)))
    ensures RemovesNamed(|items|, named) <==> |named| <= 1
  {
    RoundRemovesNamedIff(s, p, items, errors, named);
    FirstOfDistinct(named);
    if |named| > 1 {
      assert named[0] < named[1];
    }
  }

  lemma {:induction false} FirstOfDistinct(named: seq<nat>)
    requires NoDuplicates(named)
    ensures FirstOf(named) == named
  {
    if named != [] {
      var m := |named| - 1;
      FirstOfDistinct(named[..m]);
      NextFirst(named[..m], named[m]);
      assert named == named[..m] + [named[m]];
    }
  }

  /** Two bad items reported first to last: the good item behind them goes, the second bad one stays. */
  lemma AscendingRoundHitsWrongItem(s: State, p: Loc, bad: Tree, worse: Tree, good: Tree, errors: seq<Error>)
    requires At(s.working, p) == Some(List([bad, worse, good])) && RemoveItems(errors, p, [0, 1]) && AreNew(s, errors)
    ensures Process(s, errors).working == PutAt(s.working, p, List([worse]))
  {
    AscendingRoundIff(s, p, [bad, worse, good], errors, [0, 1]);
    assert [0, 1][..1] == [0] && [0][..0] == [];
    assert PopAll([bad, worse, good], [0]) == [worse, good];
    assert Pop([worse, good], 1) == [worse];
  }
}
