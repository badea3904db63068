/**
 Whole runs of the repair loop on a list somewhere in the data when validation reports all bad items of the
 list, first to last, as it does. The run is the run of the machine of `ListCleaning`.
 */
module AllReportRuns {
  import opened Wrappers
  import opened Trees
  import opened Repair
  import opened ListDeletion
  import opened ListRepair
  import opened ListCleaning
  import opened ListRepairRuns
  import opened Graphs
  import opened Sequences

  // ------------------------------------------------------------------ the first round

  function Each(report: nat -> Error, named: seq<nat>): (r: seq<Error>)
    ensures |r| == |named|
  {
    seq(|named|, j requires 0 <= j < |named| => report(named[j]))
  }

  /** Validation reports every bad item of the list at `p`, first to last. */
  ghost predicate ReportsAll<M(!new)>(v: Validator<M>, p: Loc, bad: Tree -> bool, report: nat -> Error) {
    forall n: nat, t :: AnswersAll(v, p, bad, report, n, t)
  }

  ghost predicate AnswersAll<M(!new)>(v: Validator<M>, p: Loc, bad: Tree -> bool, report: nat -> Error, n: nat,
                                      t: Tree) {
    At(t, p).Some? && At(t, p).value.List? ==>
      var named := BadIndices(At(t, p).value.items, bad);
      if named == [] then v.verdict(n, t).Accepted? else v.verdict(n, t) == Rejected(Each(report, named))
  }

  lemma {:induction false} UniqueOfDistinct(errors: seq<Error>)
    requires NoDuplicates(errors)
    ensures Unique(errors) == errors
  {
    if errors != [] {
      var n := |errors| - 1;
      UniqueOfDistinct(errors[..n]);
      assert errors == errors[..n] + [errors[n]];
    }
  }

  lemma EachIsDistinct(report: nat -> Error, p: Loc, named: seq<nat>)
    requires Reports(report, p) && NoDuplicates(named)
    ensures NoDuplicates(Each(report, named)) && RemoveItems(Each(report, named), p, named)
    ensures NoneAtTop(Each(report, named))
  {
    var errors := Each(report, named);
    forall j | 0 <= j < |errors| ensures RemovesItem(errors[j], p, named[j]) {
      assert RemovesItem(report(named[j]), p, named[j]);
    }
    forall i, j | 0 <= i < j < |errors| ensures errors[i] != errors[j] {
      assert RemovesItem(errors[i], p, named[i]) && RemovesItem(errors[j], p, named[j]);
      ItemLocs(p, named[i], named[j]);
    }
  }

  predicate NoneAtTop(errors: seq<Error>) {
    forall e :: e in errors ==> IsFatal(e) ==> |e.loc| > 1
  }

  lemma RoundContinues<M(!new)>(v: Validator<M>, data: Tree, n: nat, s: State, errors: seq<Error>, l: Loc)
    requires s == After(v, data, n) && v.verdict(n, s.working) == Rejected(errors)
    requires NoDuplicates(errors) && NoneAtTop(errors) && l in Process(s, errors).removed && l !in s.removed
    ensures Continues(v, data, n) && After(v, data, n + 1) == Process(s, errors)
  {
    hide Process;
    UniqueOfDistinct(errors);
  }

  lemma RoundGivesUp<M(!new)>(v: Validator<M>, data: Tree, n: nat, s: State, errors: seq<Error>)
    requires s == After(v, data, n) && v.verdict(n, s.working) == Rejected(errors)
    requires NoDuplicates(errors) && NoneAtTop(errors) && forall e :: e in errors ==> Blocked(s, e)
    ensures !Continues(v, data, n)
    ensures forall outcome :: Ends(v, data, n, outcome) ==> outcome.Returned? && outcome.model.None?
  {
    hide Process, Blocked;
    UniqueOfDistinct(errors);
    NoProgressIff(s, errors);
  }

  /** The round with all reports: what it removes, and from where. */
  lemma AllReported<M(!new)>(v: Validator<M>, data: Tree, p: Loc, items: seq<Tree>, bad: Tree -> bool,
                             report: nat -> Error, named: seq<nat>)
    requires At(data, p) == Some(List(items)) && Reports(report, p) && ReportsAll(v, p, bad, report)
    requires named == BadIndices(items, bad) && named != []
    ensures Continues(v, data, 0)
    ensures Popped(Initial(data), After(v, data, 1), p, items, named) && FirstOf(named) == named
  {
    hide Process, BadIndices, Each, Continues, FirstOf, PopAll, PutAt;
    var errors, s := Each(report, named), Initial(data);
    BadIndicesMeaning(items, bad);
    EachIsDistinct(report, p, named);
    assert AnswersAll(v, p, bad, report, 0, data);
    RoundPops(s, p, items, errors, named);
    FirstOfDistinct(named);
    assert named[0] in named;
    RoundContinues(v, data, 0, s, errors, p + [Index(named[0])]);
  }

  lemma BadItemStays(items: seq<Tree>, bad: Tree -> bool, named: seq<nat>) returns (k: nat)
    requires named == BadIndices(items, bad) && |named| >= 2
    ensures k < |PopAll(items, named)| && bad(PopAll(items, named)[k])
  {
    var n := |items|;
    BadIndicesMeaning(items, bad);
    AscendingSurvivors(n, named);
    PopsFollowPositions(items, named);
    assert named[1] in named;
    assert !Slips(named, named[1]) by {
      forall j | 0 <= j < |named| ensures named[1] != named[j] + j {
        assert j > 1 ==> named[1] < named[j];
      }
    }
    k :| 0 <= k < |Survivors(n, named)| && Survivors(n, named)[k] == named[1];
  }

  /** The round with all reports leaves exactly the good items if and only if there was a single bad one. */
  lemma AllReportedIff<M(!new)>(v: Validator<M>, data: Tree, p: Loc, items: seq<Tree>, bad: Tree -> bool,
                                report: nat -> Error, named: seq<nat>)
    requires At(data, p) == Some(List(items)) && Reports(report, p) && ReportsAll(v, p, bad, report)
    requires named == BadIndices(items, bad) && named != []
    ensures After(v, data, 1).working == PutAt(data, p, List(PopAll(items, named)))
    ensures forall q: nat :: q in Survivors(|items|, named) <==> q < |items| && !Slips(named, q)
    ensures PopAll(items, named) == Good(items, bad) <==> |named| == 1
  {
    AllReported(v, data, p, items, bad, report, named);
    BadIndicesMeaning(items, bad);
    AscendingSurvivors(|items|, named);
    if |named| == 1 {
      assert named == [named[0]];
      GoodOfOne(items, bad, named[0]);
      PopsOfTwo(items, named[0], named[0]);
    } else {
      var k := BadItemStays(items, bad, named);
    }
  }

  lemma AllBlocked(s: State, p: Loc, report: nat -> Error, named: seq<nat>)
    requires Reports(report, p) && forall i :: i in named ==> p + [Index(i)] in s.removed
    ensures forall e :: e in Each(report, named) ==> Blocked(s, e)
  {
    forall j | 0 <= j < |named| ensures Blocked(s, report(named[j])) {
      assert RemovesItem(report(named[j]), p, named[j]);
    }
  }

  // ------------------------------------------------------------------ every round is a round of the machine

  /** The list at `p` reads as the machine says, and only items have been removed, at the indices that are gone. */
  ghost predicate Holds(s: State, data: Tree, p: Loc, r: Remaining<Tree>)
    requires At(data, p).Some?
  {
    && s.working == PutAt(data, p, List(r.left)) && OnlyItems(s, p)
    && forall i: nat :: p + [Index(i)] in s.removed <==> i in r.gone
  }

  lemma NextReport(r: Remaining<Tree>, named: seq<nat>, i: nat)
    requires i !in named
    ensures Next(r, named + [i]).gone == Next(r, named).gone + {i}
    ensures Next(r, named + [i]).left == if i in r.gone then Next(r, named).left else Pop(Next(r, named).left, i)
  {
    FreshAppend(named, [i], r.gone);
    FreshOfOne(i, r.gone);
    hide Fresh, PopAll;
    assert Fresh(named, r.gone) + [] == Fresh(named, r.gone);
    PopAllAppend(r.left, Fresh(named, r.gone), [i]);
    PopsOfTwo(PopAll(r.left, Fresh(named, r.gone)), i, i);
    assert Elements(named + [i]) == Elements(named) + {i};
  }

  lemma ReportStep(s: State, data: Tree, p: Loc, items: seq<Tree>, r: Remaining<Tree>, named: seq<nat>, e: Error,
                   i: nat)
    requires At(data, p) == Some(List(items)) && Holds(s, data, p, Next(r, named)) && i !in named
             && RemovesItem(e, p, i)
    ensures Holds(Step(s, e), data, p, Next(r, named + [i]))
  {
    hide PutAt, At, DeleteAt, Next;
    ItemIsFree(s, p, e, i);
    NextReport(r, named, i);
    assert i in Next(r, named).gone <==> i in r.gone by { GoneOrNamed(r, named, i); }
    if i in r.gone {
      BlockedChangesNothing(s, e);
    } else {
      WorkingPops(Initial(data), p, items, Next(r, named).left, s.working, i);
      forall k: nat ensures p + [Index(k)] in Step(s, e).removed <==> k in Next(r, named + [i]).gone {
        ItemLocs(p, i, k);
      }
    }
  }

  lemma BlockedChangesNothing(s: State, e: Error)
    requires Blocked(s, e)
    ensures Step(s, e) == s
  {
  }

  lemma GoneOrNamed(r: Remaining<Tree>, named: seq<nat>, i: nat)
    ensures i in Next(r, named).gone <==> i in r.gone || i in named
  {
  }

  /** The errors of one round do what the machine does with their indices. */
  lemma {:induction false} ReportedRound(s: State, data: Tree, p: Loc, items: seq<Tree>, r: Remaining<Tree>,
                                         errors: seq<Error>, named: seq<nat>)
    requires At(data, p) == Some(List(items)) && Holds(s, data, p, r) && RemoveItems(errors, p, named)
             && NoDuplicates(named)
    ensures Holds(Process(s, errors), data, p, Next(r, named))
    decreases |errors|
  {
    hide PutAt, At, Holds, Step;
    if errors == [] {
      NoReport(r);
    } else {
      var m := |errors| - 1;
      ReportedRound(s, data, p, items, r, errors[..m], named[..m]);
      assert RemovesItem(errors[m], p, named[m]);
      ReportStep(Process(s, errors[..m]), data, p, items, r, named[..m], errors[m], named[m]);
      SplitLast(named);
    }
  }

  lemma NoReport(r: Remaining<Tree>)
    ensures Next(r, []) == r
  {
  }

  /** What one round of the run comes to. */
  lemma MachineRound<M(!new)>(v: Validator<M>, data: Tree, p: Loc, items: seq<Tree>, bad: Tree -> bool,
                              report: nat -> Error,
                              n: nat, s: State, r: Remaining<Tree>, named: seq<nat>)
    requires At(data, p) == Some(List(items)) && Reports(report, p) && ReportsAll(v, p, bad, report)
    requires s == After(v, data, n) && Holds(s, data, p, r) && named == BadIndices(r.left, bad)
    ensures named == [] ==> v.verdict(n, s.working).Accepted?
    ensures named != [] && Fresh(named, r.gone) == [] ==>
              !Continues(v, data, n)
                && forall outcome :: Ends(v, data, n, outcome) ==> outcome.Returned? && outcome.model.None?
    ensures Fresh(named, r.gone) != [] ==>
              Continues(v, data, n) && Holds(After(v, data, n + 1), data, p, Next(r, named))
  {
    hide BadIndices, Each, After, Ends, Reports, Blocked, Process, Continues, PutAt, Next, Fresh;
    var errors := Each(report, named);
    AtPut(data, p, List(r.left));
    BadIndicesMeaning(r.left, bad);
    EachIsDistinct(report, p, named);
    assert AnswersAll(v, p, bad, report, n, s.working);
    FreshMembers(named, r.gone);
    if named != [] {
      if Fresh(named, r.gone) == [] {
        AllBlocked(s, p, report, named);
        RoundGivesUp(v, data, n, s, errors);
      } else {
        var i := Fresh(named, r.gone)[0];
        ReportedRound(s, data, p, items, r, errors, named);
        GoneOrNamed(r, named, i);
        RoundContinues(v, data, n, s, errors, p + [Index(i)]);
      }
    } else {
      NothingFresh(r.gone);
    }
  }

  /** Round `m` is the last one: validation accepts the cleaned list, or the loop gives up. */
  ghost predicate Finishes<M(!new)>(v: Validator<M>, data: Tree, p: Loc, m: nat, cleaned: Option<seq<Tree>>)
    requires At(data, p).Some?
  {
    !Continues(v, data, m) &&
    if cleaned.Some? then
      v.verdict(m, After(v, data, m).working).Accepted?
        && After(v, data, m).working == PutAt(data, p, List(cleaned.value))
    else
      forall outcome :: Ends(v, data, m, outcome) ==> outcome.Returned? && outcome.model.None?
  }

  lemma AcceptedIsLast<M(!new)>(v: Validator<M>, data: Tree, n: nat)
    requires v.verdict(n, After(v, data, n).working).Accepted?
    ensures !Continues(v, data, n)
  {
  }

  lemma {:induction false} RunFrom<M(!new)>(v: Validator<M>, data: Tree, p: Loc, items: seq<Tree>, bad: Tree -> bool,
                                            report: nat -> Error,
                                            n: nat, r: Remaining<Tree>)
    returns (m: nat)
    requires At(data, p) == Some(List(items)) && Reports(report, p) && ReportsAll(v, p, bad, report)
    requires Holds(After(v, data, n), data, p, r) && AllContinue(v, data, n)
    ensures AllContinue(v, data, m) && Finishes(v, data, p, m, Cleaned(r, bad))
    decreases Open(r)
  {
    hide After, Continues, BadIndices, Fresh, Reports, ReportsAll, Next, Ends, At;
    var named := BadIndices(r.left, bad);
    MachineRound(v, data, p, items, bad, report, n, After(v, data, n), r, named);
    if named == [] || Fresh(named, r.gone) == [] {
      m := n;
      if named == [] {
        AcceptedIsLast(v, data, n);
      }
    } else {
      OpenShrinks(r, bad);
      m := RunFrom(v, data, p, items, bad, report, n + 1, Next(r, named));
    }
  }

  /** The run accepts the list that the machine leaves, if it leaves one, and otherwise gives up. */
  lemma AllReportedRun<M(!new)>(v: Validator<M>, data: Tree, p: Loc, items: seq<Tree>, bad: Tree -> bool,
                                report: nat -> Error)
    returns (n: nat)
    requires At(data, p) == Some(List(items)) && Reports(report, p) && ReportsAll(v, p, bad, report)
    ensures AllContinue(v, data, n) && Finishes(v, data, p, n, Cleaned(Whole(items), bad))
  {
    PutSame(data, p);
    n := RunFrom(v, data, p, items, bad, report, 0, Whole(items));
  }

  /** When the first two bad items are neighbours, the loop gives up, whatever the rest of the list is. */
  lemma NeighboursGiveUp<M(!new)>(v: Validator<M>, data: Tree, p: Loc, items: seq<Tree>, bad: Tree -> bool,
                                  report: nat -> Error, i: nat)
    returns (n: nat)
    requires At(data, p) == Some(List(items)) && Reports(report, p) && ReportsAll(v, p, bad, report)
    requires i + 1 < |items| && bad(items[i]) && bad(items[i + 1]) && forall k :: 0 <= k < i ==> !bad(items[k])
    ensures AllContinue(v, data, n) && !Continues(v, data, n)
    ensures forall outcome :: Ends(v, data, n, outcome) ==> outcome.Returned? && outcome.model.None?
  {
    n := AllReportedRun(v, data, p, items, bad, report);
    NeighboursStay(items, bad, i);
  }

  /**
   A list with exactly two bad items: the run accepts if and only if they are not neighbours, and what is left
   are exactly the good items if and only if, besides, the second one was the last item.
   */
  lemma TwoReportedIff<M(!new)>(v: Validator<M>, data: Tree, p: Loc, items: seq<Tree>, bad: Tree -> bool,
                                report: nat -> Error, i: nat, j: nat)
    returns (n: nat)
    requires At(data, p) == Some(List(items)) && Reports(report, p) && ReportsAll(v, p, bad, report)
    requires i < j && BadAt(items, bad, [i, j])
    ensures AllContinue(v, data, n) && !Continues(v, data, n)
    ensures j == i + 1 ==> forall outcome :: Ends(v, data, n, outcome) ==> outcome.Returned? && outcome.model.None?
    ensures j > i + 1 ==> v.verdict(n, After(v, data, n).working).Accepted?
    ensures j > i + 1 ==> (After(v, data, n).working == PutAt(data, p, List(Good(items, bad))) <==> j == |items| - 1)
  {
    hide At, After, Ends, Cleaned, Good, BadAt, Reports, ReportsAll;
    n := AllReportedRun(v, data, p, items, bad, report);
    TwoBadItems(items, bad, i, j);
    if j > i + 1 {
      TwoBadItemsExact(items, bad, i, j);
      var cleaned := Cleaned(Whole(items), bad).value;
      AtPut(data, p, List(cleaned));
      AtPut(data, p, List(Good(items, bad)));
    }
  }
}
