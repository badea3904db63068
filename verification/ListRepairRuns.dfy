/**
 Whole runs of the repair loop on a list somewhere in the data some of whose items are bad. A validator that
 reports one bad item a round has the list cleaned exactly when no two bad items are neighbours.
 */
module ListRepairRuns {
  import opened Wrappers
  import opened Trees
  import opened Repair
  import opened ListDeletion
  import opened ListRepair
  import opened ListCleaning
  import opened Graphs

  // ------------------------------------------------------------------ good and bad items

  /** The index of the first bad item, the length of the list when there is none. */
  function FirstBad(items: seq<Tree>, bad: Tree -> bool): (r: nat)
    ensures r <= |items|
    ensures forall i :: 0 <= i < r ==> !bad(items[i])
    ensures r < |items| ==> bad(items[r])
  {
    if items == [] || bad(items[0]) then 0 else 1 + FirstBad(items[1..], bad)
  }

  /** No two bad items are neighbours. */
  ghost predicate Apart(items: seq<Tree>, bad: Tree -> bool) {
    forall i, j :: 0 <= i < j < |items| && j == i + 1 ==> !(bad(items[i]) && bad(items[j]))
  }

  /** What is left of the list when its first `c` items have been cleaned. */
  function CleanedTo(items: seq<Tree>, bad: Tree -> bool, c: nat): seq<Tree>
    requires c <= |items|
  {
    Good(items[..c], bad) + items[c..]
  }

  lemma FirstBadOfCleaned(items: seq<Tree>, bad: Tree -> bool, c: nat) returns (b: nat)
    requires c <= |items|
    ensures c <= b <= |items| && (forall i :: c <= i < b ==> !bad(items[i])) && (b < |items| ==> bad(items[b]))
    ensures FirstBad(CleanedTo(items, bad, c), bad) == |Good(items[..c], bad)| + (b - c)
    ensures |CleanedTo(items, bad, c)| == |Good(items[..c], bad)| + (|items| - c)
  {
    var left, g := CleanedTo(items, bad, c), |Good(items[..c], bad)|;
    var f := FirstBad(left, bad);
    assert forall i :: 0 <= i < g ==> left[i] == Good(items[..c], bad)[i];
    b := c + (f - g);
    forall i | c <= i < b ensures !bad(items[i]) {
      assert left[g + (i - c)] == items[i];
    }
    if b < |items| {
      assert left[f] == items[b];
    }
  }

  lemma CleanedEnd(items: seq<Tree>, bad: Tree -> bool, c: nat)
    requires c <= |items| && forall i :: c <= i < |items| ==> !bad(items[i])
    ensures CleanedTo(items, bad, c) == Good(items, bad)
  {
    GoodRun(items, bad, c, |items|);
    assert items[..|items|] == items && items[c..|items|] == items[c..];
  }

  /** Popping the next bad item cleans the list further. */
  lemma CleanedNext(items: seq<Tree>, bad: Tree -> bool, c: nat, b: nat, left: seq<Tree>, i: nat)
    requires c <= b < |items| && (forall i :: c <= i < b ==> !bad(items[i])) && bad(items[b])
    requires left == CleanedTo(items, bad, c) && i == |Good(items[..c], bad)| + (b - c)
    ensures |Good(items[..b + 1], bad)| == i && CleanedTo(items, bad, b + 1) == Pop(left, i)
  {
    GoodRun(items, bad, c, b);
    assert items[..b + 1][..b] == items[..b];
    assert left[..i] == Good(items[..c], bad) + items[c..b];
    assert left[i + 1..] == items[b + 1..];
  }

  // ------------------------------------------------------------------ one report a round

  /** `report(i)` is an error that makes the loop remove item `i` of the list at `p`. */
  ghost predicate Reports(report: nat -> Error, p: Loc) {
    forall i: nat :: RemovesItem(report(i), p, i)
  }

  /** Validation stops at the first bad item of the list at `p`, and accepts when there is none. */
  ghost predicate ReportsFirst<M(!new)>(v: Validator<M>, p: Loc, bad: Tree -> bool, report: nat -> Error) {
    forall n: nat, t :: AnswersFirst(v, p, bad, report, n, t)
  }

  ghost predicate AnswersFirst<M(!new)>(v: Validator<M>, p: Loc, bad: Tree -> bool, report: nat -> Error, n: nat,
                                        t: Tree) {
    At(t, p).Some? && At(t, p).value.List? ==>
      var items := At(t, p).value.items;
      var i := FirstBad(items, bad);
      if i == |items| then v.verdict(n, t).Accepted? else v.verdict(n, t) == Rejected([report(i)])
  }

  /**
   After `n` rounds the list at `p` reads `left`, its first `g` items are clean, and only items at indices up
   to `g` have been removed, the last one at index `g`.
   */
  ghost predicate Cleaning(s: State, data: Tree, p: Loc, left: seq<Tree>, g: nat, n: nat)
    requires At(data, p).Some?
  {
    && s.working == PutAt(data, p, List(left))
    && OnlyItems(s, p)
    && (forall i: nat :: p + [Index(i)] in s.removed ==> n > 0 && i <= g)
    && (n > 0 ==> p + [Index(g)] in s.removed)
  }

  /** Only locations of the depth of the items of the list at `p` have been removed. */
  ghost predicate OnlyItems(s: State, p: Loc) {
    s.major <= s.removed && forall l :: l in s.removed ==> |l| == |p| + 1
  }

  lemma StartsCleaning(data: Tree, p: Loc, items: seq<Tree>)
    requires At(data, p) == Some(List(items))
    ensures Cleaning(Initial(data), data, p, items, 0, 0)
  {
    PutSame(data, p);
  }

  lemma SingleRound(s: State, e: Error)
    ensures Unique([e]) == [e] && Process(s, [e]) == Step(s, e)
    ensures Process(s, [e]).removed != s.removed <==> !Blocked(s, e)
  {
    assert [e][..0] == [];
  }

  lemma ItemIsFree(s: State, p: Loc, e: Error, i: nat)
    requires RemovesItem(e, p, i) && OnlyItems(s, p)
    ensures Blocked(s, e) <==> p + [Index(i)] in s.removed
    ensures !Blocked(s, e) ==> Step(s, e).working == DeleteAt(s.working, p + [Index(i)])
                               && Step(s, e).removed == s.removed + {p + [Index(i)]}
                               && OnlyItems(Step(s, e), p)
  {
    ItemLocs(p, i, i);
  }

  lemma RemovedUpTo(removed: set<Loc>, p: Loc, g: nat, i: nat)
    requires forall k: nat :: p + [Index(k)] in removed ==> k <= g
    requires g <= i
    ensures forall k: nat :: p + [Index(k)] in removed + {p + [Index(i)]} ==> k <= i
  {
    forall k: nat | p + [Index(k)] in removed + {p + [Index(i)]} ensures k <= i {
      ItemLocs(p, i, k);
    }
  }

  lemma CleaningGoesOn(s: State, data: Tree, p: Loc, items: seq<Tree>, left: seq<Tree>, g: nat, n: nat, i: nat,
                       e: Error)
    requires At(data, p) == Some(List(items)) && Cleaning(s, data, p, left, g, n)
    requires RemovesItem(e, p, i) && g <= i && (n > 0 ==> g < i)
    ensures !Blocked(s, e) && Cleaning(Step(s, e), data, p, Pop(left, i), i, n + 1)
  {
    ItemIsFree(s, p, e, i);
    WorkingPops(Initial(data), p, items, left, s.working, i);
    RemovedUpTo(s.removed, p, g, i);
  }

  /** A round with a single report that is not blocked goes on. */
  lemma SingleRoundContinues<M(!new)>(v: Validator<M>, data: Tree, n: nat, e: Error)
    requires v.verdict(n, After(v, data, n).working) == Rejected([e]) && !Blocked(After(v, data, n), e)
    requires (IsFatal(e) ==> |e.loc| > 1) && AllContinue(v, data, n)
    ensures AllContinue(v, data, n + 1) && After(v, data, n + 1) == Step(After(v, data, n), e)
  {
    SingleRound(After(v, data, n), e);
  }

  /** What validation says of the list as far as it is clean. */
  lemma CleanedVerdict<M(!new)>(v: Validator<M>, data: Tree, p: Loc, left: seq<Tree>, bad: Tree -> bool,
                                report: nat -> Error, n: nat, t: Tree, i: nat)
    requires At(data, p).Some? && ReportsFirst(v, p, bad, report) && t == PutAt(data, p, List(left))
             && i == FirstBad(left, bad)
    requires Reports(report, p)
    ensures i == |left| ==> v.verdict(n, t).Accepted?
    ensures i < |left| ==> v.verdict(n, t) == Rejected([report(i)]) && RemovesItem(report(i), p, i)
  {
    AtPut(data, p, List(left));
    assert AnswersFirst(v, p, bad, report, n, t);
  }

  /**
   Round `m` is the last one. Without bad neighbours, validation then accepts the data with exactly the good
   items in the list; otherwise it rejects, and every error is blocked.
   */
  ghost predicate Finishes<M(!new)>(v: Validator<M>, data: Tree, p: Loc, items: seq<Tree>, bad: Tree -> bool, m: nat)
    requires At(data, p).Some?
  {
    var s := After(v, data, m);
    var verdict := v.verdict(m, s.working);
    if Apart(items, bad) then verdict.Accepted? && s.working == PutAt(data, p, List(Good(items, bad)))
    else verdict.Rejected? && |verdict.errors| == 1 && IsStuck(s, verdict.errors[0])
  }

  predicate IsStuck(s: State, e: Error) {
    Blocked(s, e) && (IsFatal(e) ==> |e.loc| > 1)
  }

  /** After a number of rounds the first `c` items are clean, and the last of them was a bad one. */
  ghost predicate CleanTo(items: seq<Tree>, bad: Tree -> bool, n: nat, c: nat) {
    n <= c <= |items| && Apart(items[..c], bad) && if n == 0 then c == 0 else c > 0 && bad(items[c - 1])
  }

  /** In state `s`, `n` rounds have cleaned the first `c` items. */
  ghost predicate InProgress(s: State, data: Tree, p: Loc, items: seq<Tree>, bad: Tree -> bool, n: nat, c: nat)
    requires At(data, p).Some?
  {
    CleanTo(items, bad, n, c) && Cleaning(s, data, p, CleanedTo(items, bad, c), |Good(items[..c], bad)|, n)
  }

  lemma CleaningStep(s: State, data: Tree, p: Loc, items: seq<Tree>, bad: Tree -> bool, n: nat, c: nat, b: nat, i: nat,
                     e: Error)
    requires At(data, p) == Some(List(items)) && InProgress(s, data, p, items, bad, n, c)
    requires c <= b < |items| && (forall i :: c <= i < b ==> !bad(items[i])) && bad(items[b]) && (n == 0 || c < b)
    requires i == |Good(items[..c], bad)| + (b - c) && RemovesItem(e, p, i)
    ensures !Blocked(s, e) && InProgress(Step(s, e), data, p, items, bad, n + 1, b + 1)
  {
    var left, g := CleanedTo(items, bad, c), |Good(items[..c], bad)|;
    CleaningGoesOn(s, data, p, items, left, g, n, i, e);
    NoMoreNeighbours(items, bad, c, b);
    CleanedNext(items, bad, c, b, left, i);
  }

  lemma CleaningRound<M(!new)>(v: Validator<M>, data: Tree, p: Loc, items: seq<Tree>, bad: Tree -> bool, s: State,
                               n: nat, c: nat, b: nat, i: nat, e: Error)
    requires At(data, p) == Some(List(items)) && InProgress(s, data, p, items, bad, n, c) && s == After(v, data, n)
    requires c <= b < |items| && (forall i :: c <= i < b ==> !bad(items[i])) && bad(items[b]) && (n == 0 || c < b)
    requires i == |Good(items[..c], bad)| + (b - c) && RemovesItem(e, p, i)
    requires AllContinue(v, data, n) && v.verdict(n, s.working) == Rejected([e])
    ensures InProgress(After(v, data, n + 1), data, p, items, bad, n + 1, b + 1) && AllContinue(v, data, n + 1)
  {
    CleaningStep(s, data, p, items, bad, n, c, b, i, e);
    SingleRoundContinues(v, data, n, e);
  }

  /** The next item to be reported: item `b` of the list as it was, item `i` of what is left of it. */
  lemma NextReport<M(!new)>(v: Validator<M>, data: Tree, p: Loc, items: seq<Tree>, bad: Tree -> bool,
                            report: nat -> Error, n: nat, c: nat, s: State)
    returns (b: nat, i: nat)
    requires At(data, p) == Some(List(items)) && Reports(report, p) && ReportsFirst(v, p, bad, report)
    requires InProgress(s, data, p, items, bad, n, c)
    ensures c <= b <= |items| && (forall i :: c <= i < b ==> !bad(items[i])) && (b < |items| ==> bad(items[b]))
    ensures i == |Good(items[..c], bad)| + (b - c) && RemovesItem(report(i), p, i)
    ensures if b == |items| then v.verdict(n, s.working).Accepted? else v.verdict(n, s.working) == Rejected([report(i)])
  {
    b := FirstBadOfCleaned(items, bad, c);
    i := |Good(items[..c], bad)| + (b - c);
    CleanedVerdict(v, data, p, CleanedTo(items, bad, c), bad, report, n, s.working, i);
  }

  lemma LastReport<M(!new)>(v: Validator<M>, data: Tree, p: Loc, items: seq<Tree>, bad: Tree -> bool, n: nat, c: nat,
                            s: State, b: nat, i: nat, e: Error)
    requires At(data, p) == Some(List(items)) && s == After(v, data, n) && InProgress(s, data, p, items, bad, n, c)
    requires c <= b <= |items| && (forall i :: c <= i < b ==> !bad(items[i])) && (b < |items| ==> bad(items[b]))
    requires i == |Good(items[..c], bad)| + (b - c) && RemovesItem(e, p, i)
    requires if b == |items| then v.verdict(n, s.working).Accepted? else v.verdict(n, s.working) == Rejected([e])
    requires b == |items| || (n > 0 && b == c)
    ensures Finishes(v, data, p, items, bad, n)
  {
    if b == |items| {
      CleanedEnd(items, bad, c);
      NoMoreNeighbours(items, bad, c, b);
    } else {
      BadNeighbour(s, data, p, items, bad, CleanedTo(items, bad, c), i, n, c, e);
    }
  }

  lemma NextRound<M(!new)>(v: Validator<M>, data: Tree, p: Loc, items: seq<Tree>, bad: Tree -> bool,
                           report: nat -> Error, s: State, n: nat, c: nat)
    returns (finished: bool, d: nat)
    requires At(data, p) == Some(List(items)) && Reports(report, p) && ReportsFirst(v, p, bad, report)
    requires InProgress(s, data, p, items, bad, n, c) && s == After(v, data, n) && AllContinue(v, data, n)
    ensures finished ==> Finishes(v, data, p, items, bad, n)
    ensures !finished ==>
              AllContinue(v, data, n + 1) && InProgress(After(v, data, n + 1), data, p, items, bad, n + 1, d)
  {
    hide *;
    var b, i := NextReport(v, data, p, items, bad, report, n, c, s);
    finished, d := b == |items| || (n > 0 && b == c), b + 1;
    if finished {
      LastReport(v, data, p, items, bad, n, c, s, b, i, report(i));
    } else {
      CleaningRound(v, data, p, items, bad, s, n, c, b, i, report(i));
    }
  }

  lemma FirstRound(data: Tree, p: Loc, items: seq<Tree>, bad: Tree -> bool)
    requires At(data, p) == Some(List(items))
    ensures InProgress(Initial(data), data, p, items, bad, 0, 0)
  {
    StartsCleaning(data, p, items);
    assert items[..0] == [] && items[0..] == items && CleanedTo(items, bad, 0) == items;
  }

  /** The run finishes in some round `m` before round `n`, or else `n` rounds have cleaned the first `c` items. */
  lemma {:induction false} Rounds<M(!new)>(v: Validator<M>, data: Tree, p: Loc, items: seq<Tree>, bad: Tree -> bool,
                                           report: nat -> Error, n: nat)
    returns (finished: bool, m: nat, c: nat)
    requires At(data, p) == Some(List(items)) && Reports(report, p) && ReportsFirst(v, p, bad, report)
    ensures finished ==> AllContinue(v, data, m) && Finishes(v, data, p, items, bad, m)
    ensures !finished ==> AllContinue(v, data, n) && InProgress(After(v, data, n), data, p, items, bad, n, c)
  {
    hide InProgress, Finishes, Reports, ReportsFirst;
    if n == 0 {
      finished, m, c := false, 0, 0;
      FirstRound(data, p, items, bad);
    } else {
      finished, m, c := Rounds(v, data, p, items, bad, report, n - 1);
      if !finished {
        m := n - 1;
        finished, c := NextRound(v, data, p, items, bad, report, After(v, data, n - 1), n - 1, c);
      }
    }
  }

  /** A bad item right behind the one removed last has moved to its index, where it cannot be removed. */
  lemma BadNeighbour(s: State, data: Tree, p: Loc, items: seq<Tree>, bad: Tree -> bool, left: seq<Tree>, g: nat,
                     n: nat, c: nat, e: Error)
    requires At(data, p).Some? && Cleaning(s, data, p, left, g, n) && n > 0
    requires CleanTo(items, bad, n, c) && c < |items| && bad(items[c]) && RemovesItem(e, p, g)
    ensures IsStuck(s, e) && !Apart(items, bad)
  {
    ItemIsFree(s, p, e, g);
    assert bad(items[c - 1]) && bad(items[c]);
  }

  lemma NoMoreNeighbours(items: seq<Tree>, bad: Tree -> bool, c: nat, b: nat)
    requires c <= b <= |items| && Apart(items[..c], bad) && (forall i :: c <= i < b ==> !bad(items[i]))
    requires b < |items| ==> c == 0 || c < b
    ensures b == |items| ==> Apart(items, bad)
    ensures b < |items| ==> Apart(items[..b + 1], bad)
  {
    forall i, j | 0 <= i < j < c && j == i + 1 ensures !(bad(items[i]) && bad(items[j])) {
      assert items[..c][i] == items[i] && items[..c][j] == items[j];
    }
  }

  lemma FinishedIsLast<M(!new)>(v: Validator<M>, data: Tree, p: Loc, items: seq<Tree>, bad: Tree -> bool, m: nat)
    requires At(data, p).Some? && Finishes(v, data, p, items, bad, m)
    ensures !Continues(v, data, m)
  {
    hide At, PutAt, Apart, Good;
    var s := After(v, data, m);
    var verdict := v.verdict(m, s.working);
    if verdict.Rejected? {
      assert verdict.errors == [verdict.errors[0]];
      SingleRound(s, verdict.errors[0]);
    }
  }

  /** The run that gets one report a round accepts if and only if no two bad items are neighbours. */
  lemma FirstReportIff<M(!new)>(v: Validator<M>, data: Tree, p: Loc, items: seq<Tree>, bad: Tree -> bool,
                                report: nat -> Error)
    returns (n: nat)
    requires At(data, p) == Some(List(items)) && Reports(report, p) && ReportsFirst(v, p, bad, report)
    ensures AllContinue(v, data, n) && !Continues(v, data, n)
    ensures v.verdict(n, After(v, data, n).working).Accepted? <==> Apart(items, bad)
    ensures Apart(items, bad) ==> After(v, data, n).working == PutAt(data, p, List(Good(items, bad)))
    ensures !Apart(items, bad) ==>
              forall outcome :: Ends(v, data, n, outcome) ==> outcome.Returned? && outcome.model.None?
  {
    hide Reports, ReportsFirst, Apart, Good;
    var finished, c;
    finished, n, c := Rounds(v, data, p, items, bad, report, |items| + 1);
    FinishedIsLast(v, data, p, items, bad, n);
  }
}
