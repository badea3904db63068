/**
 The retry loop that validates parsed data, deletes what the validator complains about,
 and validates again.

 The validator is an arbitrary oracle: what it answers may depend on the data and on the
 round. Errors carry a location, a type and a message.
 */
module Repair {
  import opened Wrappers
  import opened Trees
  import opened TreeSize
  import Graphs

  /** An error text, or the note that replaces the text of a native constraint error. */
  datatype Message = Text(text: string) | RemovalNote(field: Option<Key>)

  datatype Error = Error(loc: Loc, kind: string, msg: Message)

  datatype Verdict<M> = Accepted(model: M) | Rejected(errors: seq<Error>) | Crashed

  /** What validation answers in a round on given data, and the warnings it leaves behind. */
  datatype Validator<!M(!new)> = Validator(verdict: (nat, Tree) -> Verdict<M>, warnings: (nat, Tree) -> seq<Error>)

  datatype Outcome<M> = Returned(model: Option<M>, errors: seq<Error>) | Raised(errors: seq<Error>)

  predicate IsFatal(e: Error) {
    e.kind in {"extra_forbid", "extra_forbidden", "fatal", "missing"}
  }

  predicate IsFlyncKind(e: Error) {
    IsFatal(e) || e.kind in {"minor", "major", "warning"}
  }

  /** Native constraint errors are reported as major, at the same location. */
  function Wrap(e: Error): Error {
    Error(e.loc, "major", RemovalNote(if e.loc == [] then None else Some(e.loc[|e.loc| - 1])))
  }

  function Reported(e: Error): Error {
    if IsFlyncKind(e) then e else Wrap(e)
  }

  /** A nested fatal error removes the enclosing object; any other error removes its own location. */
  function RemoveLoc(e: Error): Loc {
    if IsFatal(e) && |e.loc| > 1 then Parent(e.loc) else e.loc
  }

  // ------------------------------------------------------------------ de-duplication

  /** The errors of `errors` in order, each kept at its first occurrence. */
  function Unique(errors: seq<Error>): (r: seq<Error>)
    ensures forall e :: e in r <==> e in errors
  {
    if errors == [] then []
    else
      var n := |errors| - 1;
      assert errors == errors[..n] + [errors[n]];
      if errors[n] in errors[..n] then Unique(errors[..n]) else Unique(errors[..n]) + [errors[n]]
  }

  lemma {:induction false} UniqueIsDistinct(errors: seq<Error>)
    ensures Graphs.NoDuplicates(Unique(errors))
  {
    if errors != [] {
      UniqueIsDistinct(errors[..|errors| - 1]);
    }
  }

  method GetUniqueErrors(errors: seq<Error>) returns (unique: seq<Error>)
    ensures unique == Unique(errors) && Graphs.NoDuplicates(unique)
  {
    var seen: set<Error> := {};
    unique := [];
    for i := 0 to |errors|
      invariant unique == Unique(errors[..i])
      invariant forall e :: e in seen <==> e in errors[..i]
    {
      assert errors[..i + 1][..i] == errors[..i];
      if errors[i] !in seen {
        seen := seen + {errors[i]};
        unique := unique + [errors[i]];
      }
    }
    assert errors[..|errors|] == errors;
    UniqueIsDistinct(errors);
  }

  // ------------------------------------------------------------------ one error, one round

  datatype State = State(working: Tree, collected: seq<Error>, removed: set<Loc>, major: set<Loc>)

  function Initial(data: Tree): State {
    State(data, [], {}, {})
  }

  /** `e` falls on a location removed earlier, while the place it would remove is still there. */
  predicate IsCascade(s: State, e: Error) {
    RemoveLoc(e) !in s.removed && e.loc in s.removed
  }

  predicate Blocked(s: State, e: Error) {
    RemoveLoc(e) in s.removed || (IsCascade(s, e) && IsFatal(e) && e.loc in s.major)
  }

  predicate Escalates(s: State, e: Error) {
    IsCascade(s, e) && !Blocked(s, e)
  }

  function Step(s: State, e: Error): State {
    var l := RemoveLoc(e);
    if Blocked(s, e) then s
    else if IsCascade(s, e) then s.(working := DeleteAt(s.working, l), removed := s.removed + {l})
    else State(DeleteAt(s.working, l), s.collected + [Reported(e)], s.removed + {l},
               if e.kind == "major" then s.major + {l} else s.major)
  }

  function Process(s: State, errors: seq<Error>): State {
    if errors == [] then s else Step(Process(s, errors[..|errors| - 1]), errors[|errors| - 1])
  }

  predicate HasTopLevelFatal(errors: seq<Error>, removed: set<Loc>) {
    exists e :: e in errors && IsFatal(e) && |e.loc| <= 1 && e.loc !in removed
  }

  // ------------------------------------------------------------------ invariants of a step

  ghost predicate Accountable(s: State) {
    forall l :: l in s.removed ==> exists e :: e in s.collected && l <= e.loc
  }

  /** `t` holds exactly the places of `data` at or below no removed location. */
  ghost predicate ExactlyWithout(data: Tree, t: Tree, removed: set<Loc>) {
    && AllDicts(t)
    && (forall p :: At(t, p).Some? <==> At(data, p).Some? && !Covered(removed, p))
    && (forall p :: At(t, p).Some? && At(data, p).value.Leaf? ==> At(t, p) == At(data, p))
  }

  /** Some removed location other than the whole document is `p` or lies above it. */
  ghost predicate Covered(removed: set<Loc>, p: Loc) {
    exists l :: l in removed && l != [] && l <= p
  }

  ghost predicate Sound(data: Tree, s: State) {
    && Accountable(s)
    && s.major <= s.removed
    && Pruned(data, s.working)
    && (AllDicts(data) ==> ExactlyWithout(data, s.working, s.removed))
  }

  lemma InitialIsSound(data: Tree)
    ensures Sound(data, Initial(data))
  {
    PrunedReflexive(data);
  }

  lemma StepIsSound(data: Tree, s: State, e: Error)
    requires Sound(data, s)
    ensures Sound(data, Step(s, e))
  {
    var l, t := RemoveLoc(e), Step(s, e);
    if !Blocked(s, e) {
      StepIsAccountable(s, e);
      DeleteAtPrunes(s.working, l);
      PrunedTransitive(data, s.working, t.working);
      if AllDicts(data) {
        DeletionIsExact(data, s, l);
      }
    }
  }

  lemma StepIsAccountable(s: State, e: Error)
    requires Accountable(s)
    ensures Accountable(Step(s, e))
  {
    var l, t := RemoveLoc(e), Step(s, e);
    if !Blocked(s, e) {
      assert l <= e.loc;
      if IsCascade(s, e) {
        var c :| c in s.collected && e.loc <= c.loc;
        assert l <= c.loc;
      } else {
        assert t.collected[|s.collected|] == Reported(e);
        assert Reported(e) in t.collected;
      }
      forall k | k in t.removed ensures exists c :: c in t.collected && k <= c.loc {
        if k in s.removed {
          var c :| c in s.collected && k <= c.loc;
          assert c in t.collected;
        }
      }
    }
  }

  lemma DeletionIsExact(data: Tree, s: State, l: Loc)
    requires AllDicts(data) && ExactlyWithout(data, s.working, s.removed)
    ensures ExactlyWithout(data, DeleteAt(s.working, l), s.removed + {l})
  {
    var t := DeleteAt(s.working, l);
    forall p
      ensures At(t, p).Some? <==> At(data, p).Some? && !Covered(s.removed + {l}, p)
      ensures At(t, p).Some? && At(data, p).value.Leaf? ==> At(t, p) == At(data, p)
    {
      assert Covered(s.removed + {l}, p) <==> Covered(s.removed, p) || (l != [] && l <= p) by {
        if l != [] && l <= p { assert l in s.removed + {l}; }
        if Covered(s.removed, p) {
          var k :| k in s.removed && k != [] && k <= p;
          assert k in s.removed + {l};
        }
      }
      if l != [] {
        DeleteAtIsExact(s.working, l, p);
      }
    }
    if l != [] {
      DeleteAtIsExact(s.working, l, l);
    }
  }

  lemma {:induction false} ProcessIsSound(data: Tree, s: State, errors: seq<Error>)
    requires Sound(data, s)
    ensures Sound(data, Process(s, errors))
  {
    if errors != [] {
      ProcessIsSound(data, s, errors[..|errors| - 1]);
      StepIsSound(data, Process(s, errors[..|errors| - 1]), errors[|errors| - 1]);
    }
  }

  // ------------------------------------------------------------------ progress

  /** A round that removes nothing new meets only blocked errors, and then changes nothing at all. */
  lemma {:induction false} NoProgressIff(s: State, errors: seq<Error>)
    ensures s.removed <= Process(s, errors).removed
    ensures Process(s, errors).removed == s.removed <==> forall e :: e in errors ==> Blocked(s, e)
    ensures Process(s, errors).removed == s.removed ==> Process(s, errors) == s
  {
    if errors != [] {
      var n := |errors| - 1;
      var t := Process(s, errors[..n]);
      NoProgressIff(s, errors[..n]);
      assert errors == errors[..n] + [errors[n]];
      if !Blocked(t, errors[n]) {
        assert RemoveLoc(errors[n]) in Step(t, errors[n]).removed - t.removed;
      }
    }
  }

  /** A location removed for another reason than a major error never becomes major-removed. */
  lemma {:induction false} NeverBecomesMajor(s: State, errors: seq<Error>, l: Loc)
    requires l in s.removed && l !in s.major
    ensures l in Process(s, errors).removed && l !in Process(s, errors).major
  {
    if errors != [] {
      NeverBecomesMajor(s, errors[..|errors| - 1], l);
    }
  }

  ghost predicate PrefixClosed(u: set<Loc>) {
    forall l :: l in u && l != [] ==> Parent(l) in u
  }

  lemma {:induction false} RemovedStaysInside(s: State, errors: seq<Error>, u: set<Loc>)
    requires PrefixClosed(u) && s.removed <= u && forall e :: e in errors ==> e.loc in u
    ensures Process(s, errors).removed <= u
  {
    if errors != [] {
      var n := |errors| - 1;
      assert errors[n] in errors;
      assert forall e :: e in errors[..n] ==> e in errors;
      RemovedStaysInside(s, errors[..n], u);
    }
  }

  // ------------------------------------------------------------------ whole runs

  /** The state after `n` rounds in which validation kept rejecting. */
  ghost function After<M(!new)>(v: Validator<M>, data: Tree, n: nat): State {
    if n == 0 then Initial(data)
    else
      var s := After(v, data, n - 1);
      match v.verdict(n - 1, s.working)
      case Rejected(errors) => Process(s, Unique(errors))
      case _ => s
  }

  /** Round `n` rejects, has no fatal error at the top, and removes something new. */
  ghost predicate Continues<M(!new)>(v: Validator<M>, data: Tree, n: nat) {
    var s := After(v, data, n);
    var verdict := v.verdict(n, s.working);
    && verdict.Rejected?
    && !HasTopLevelFatal(Unique(verdict.errors), s.removed)
    && Process(s, Unique(verdict.errors)).removed != s.removed
  }

  ghost predicate AllContinue<M(!new)>(v: Validator<M>, data: Tree, n: nat) {
    forall k :: 0 <= k < n ==> Continues(v, data, k)
  }

  ghost function Warnings<M(!new)>(v: Validator<M>, data: Tree, n: nat): seq<Error> {
    if n == 0 then [] else Warnings(v, data, n - 1) + v.warnings(n - 1, After(v, data, n - 1).working)
  }

  /** The error that stands for an exception other than a validation error. */
  function UnhandledException(): Error {
    Error([], "fatal", Text("unhandled exception caught"))
  }

  /** How the loop leaves in round `n`. */
  ghost predicate Ends<M(!new)>(v: Validator<M>, data: Tree, n: nat, outcome: Outcome<M>) {
    var s := After(v, data, n);
    var warnings := Warnings(v, data, n + 1);
    match v.verdict(n, s.working)
    case Accepted(m) => outcome == Returned(Some(m), Unique(s.collected + warnings))
    case Rejected(errors) =>
      if HasTopLevelFatal(Unique(errors), s.removed) then outcome == Raised(Unique(errors))
      else outcome == Returned(None, Unique(s.collected + warnings)) && Process(s, Unique(errors)) == s
    case Crashed => outcome == Raised(Unique(s.collected) + [UnhandledException()])
  }

  lemma {:induction false} RunIsSound<M(!new)>(v: Validator<M>, data: Tree, n: nat)
    ensures Sound(data, After(v, data, n))
  {
    if n == 0 {
      InitialIsSound(data);
    } else {
      RunIsSound(v, data, n - 1);
      var s := After(v, data, n - 1);
      var verdict := v.verdict(n - 1, s.working);
      if verdict.Rejected? {
        ProcessIsSound(data, s, Unique(verdict.errors));
      }
    }
  }

  /** Every error location the validator ever names lies in `u`. */
  ghost predicate NamesOnly<M(!new)>(v: Validator<M>, u: set<Loc>) {
    forall n: nat, t, e :: v.verdict(n, t).Rejected? && e in v.verdict(n, t).errors ==> e.loc in u
  }

  /** Each continuing round removes a location of `u` not removed before. */
  lemma {:induction false} RoundsAreBounded<M(!new)>(v: Validator<M>, data: Tree, n: nat, u: set<Loc>)
    requires PrefixClosed(u) && NamesOnly(v, u)
    requires AllContinue(v, data, n)
    ensures After(v, data, n).removed <= u && n <= |After(v, data, n).removed|
  {
    if n > 0 {
      RoundsAreBounded(v, data, n - 1, u);
      var s, t := After(v, data, n - 1), After(v, data, n);
      assert Continues(v, data, n - 1);
      var errors := Unique(v.verdict(n - 1, s.working).errors);
      NoProgressIff(s, errors);
      RemovedStaysInside(s, errors, u);
      ProperSubsetIsSmaller(s.removed, t.removed);
    }
  }

  lemma ProperSubsetIsSmaller<T>(a: set<T>, b: set<T>)
    requires a < b
    ensures |a| < |b|
  {
    assert b == a + (b - a) && b - a != {};
  }

  // ------------------------------------------------------------------ validators that look at the data only

  /** Validation of the same data gives the same answer in every round. */
  ghost predicate IsDetermined<M(!new)>(v: Validator<M>) {
    forall m: nat, n: nat, t :: v.verdict(m, t) == v.verdict(n, t)
  }

  lemma BlockedStays(s: State, e: Error, f: Error)
    requires Blocked(s, e)
    ensures Blocked(Step(s, f), e)
  {
  }

  /** After a round every error of the round is blocked. */
  lemma {:induction false} RoundBlocks(s: State, errors: seq<Error>)
    ensures forall e :: e in errors ==> Blocked(Process(s, errors), e)
  {
    if errors != [] {
      var n := |errors| - 1;
      var t := Process(s, errors[..n]);
      RoundBlocks(s, errors[..n]);
      assert errors == errors[..n] + [errors[n]];
      forall e | e in errors[..n] ensures Blocked(Step(t, errors[n]), e) {
        BlockedStays(t, e, errors[n]);
      }
    }
  }

  /** A round leaves the data alone or makes it smaller. */
  lemma {:induction false} RoundShrinks(s: State, errors: seq<Error>)
    ensures Process(s, errors).working == s.working || Size(Process(s, errors).working) < Size(s.working)
  {
    if errors != [] {
      var n := |errors| - 1;
      RoundShrinks(s, errors[..n]);
      DeletionShrinks(Process(s, errors[..n]).working, RemoveLoc(errors[n]));
    }
  }

  /** A round that leaves the data alone is the last one: the same errors come again, and all are blocked. */
  lemma StalledRoundIsLast<M(!new)>(v: Validator<M>, data: Tree, n: nat)
    requires IsDetermined(v) && Continues(v, data, n)
    requires After(v, data, n + 1).working == After(v, data, n).working
    ensures !Continues(v, data, n + 1)
  {
    var s := After(v, data, n);
    var errors := Unique(v.verdict(n, s.working).errors);
    RoundBlocks(s, errors);
    assert v.verdict(n + 1, s.working) == v.verdict(n, s.working);
    NoProgressIff(After(v, data, n + 1), errors);
  }

  ghost function SizeAfter<M(!new)>(v: Validator<M>, data: Tree, n: nat): nat {
    Size(After(v, data, n).working)
  }

  ghost function SizesAfter<M(!new)>(v: Validator<M>, data: Tree, n: nat): (r: seq<nat>)
    ensures |r| == n + 1
    ensures forall k :: 0 <= k <= n ==> r[k] == SizeAfter(v, data, k)
  {
    seq(n + 1, k requires 0 <= k <= n => SizeAfter(v, data, k))
  }

  lemma NextRoundShrinks<M(!new)>(v: Validator<M>, data: Tree, n: nat)
    requires Continues(v, data, n)
    ensures SizeAfter(v, data, n + 1) < SizeAfter(v, data, n)
            || After(v, data, n + 1).working == After(v, data, n).working
  {
    var s := After(v, data, n);
    RoundShrinks(s, Unique(v.verdict(n, s.working).errors));
  }

  lemma TwoRoundsShrink<M(!new)>(v: Validator<M>, data: Tree, n: nat)
    requires IsDetermined(v) && Continues(v, data, n) && Continues(v, data, n + 1)
    ensures SizeAfter(v, data, n + 1) < SizeAfter(v, data, n)
  {
    NextRoundShrinks(v, data, n);
    if After(v, data, n + 1).working == After(v, data, n).working {
      StalledRoundIsLast(v, data, n);
      assert false;
    }
  }

  /** All steps but the last go down. */
  lemma {:induction false} Countdown(sizes: seq<nat>)
    requires sizes != [] && forall k :: 0 <= k < |sizes| - 2 ==> sizes[k + 1] < sizes[k]
    requires |sizes| > 1 ==> sizes[|sizes| - 1] <= sizes[|sizes| - 2]
    ensures |sizes| - 1 + sizes[|sizes| - 1] <= sizes[0] + 1
  {
    if |sizes| > 2 {
      Countdown(sizes[1..]);
    }
  }

  lemma ContinuesAt<M(!new)>(v: Validator<M>, data: Tree, n: nat, k: nat)
    requires AllContinue(v, data, n) && k < n
    ensures Continues(v, data, k)
  {
  }

  lemma EarlierRoundShrinks<M(!new)>(v: Validator<M>, data: Tree, n: nat, k: nat)
    requires IsDetermined(v) && AllContinue(v, data, n) && k + 1 < n
    ensures SizeAfter(v, data, k + 1) < SizeAfter(v, data, k)
  {
    ContinuesAt(v, data, n, k);
    ContinuesAt(v, data, n, k + 1);
    TwoRoundsShrink(v, data, k);
  }

  lemma LastRoundShrinks<M(!new)>(v: Validator<M>, data: Tree, n: nat)
    requires AllContinue(v, data, n) && n > 0
    ensures SizeAfter(v, data, n) <= SizeAfter(v, data, n - 1)
  {
    ContinuesAt(v, data, n, n - 1);
    NextRoundShrinks(v, data, n - 1);
  }

  /** A validator that looks at the data only keeps the loop running for no more rounds than the data has nodes. */
  lemma DeterminedRunsAreBounded<M(!new)>(v: Validator<M>, data: Tree, n: nat)
    requires IsDetermined(v) && AllContinue(v, data, n)
    ensures n <= Size(data)
  {
    var sizes := SizesAfter(v, data, n);
    forall k | 0 <= k < n - 1 ensures sizes[k + 1] < sizes[k] {
      EarlierRoundShrinks(v, data, n, k);
    }
    if n > 0 {
      LastRoundShrinks(v, data, n);
    }
    Countdown(sizes);
    EndsOfCount(v, data, n);
  }

  lemma EndsOfCount<M(!new)>(v: Validator<M>, data: Tree, n: nat)
    ensures SizeAfter(v, data, 0) == Size(data) && SizeAfter(v, data, n) > 0
  {
  }

  /** No run goes on for more than `bound` rounds. */
  ghost predicate IsBound<M(!new)>(v: Validator<M>, data: Tree, bound: nat) {
    forall n: nat :: AllContinue(v, data, n) ==> n <= bound
  }

  lemma LocationsBound<M(!new)>(v: Validator<M>, data: Tree, u: set<Loc>)
    requires PrefixClosed(u) && NamesOnly(v, u)
    ensures IsBound(v, data, |u|)
  {
    forall n: nat | AllContinue(v, data, n) ensures n <= |u| {
      RoundsAreBounded(v, data, n, u);
      Graphs.SubsetCardinality(After(v, data, n).removed, u);
    }
  }

  lemma SizeBound<M(!new)>(v: Validator<M>, data: Tree)
    requires IsDetermined(v)
    ensures IsBound(v, data, Size(data))
  {
    forall n: nat | AllContinue(v, data, n) ensures n <= Size(data) {
      DeterminedRunsAreBounded(v, data, n);
    }
  }

  // ------------------------------------------------------------------ the loop

  class RepairLoop {
    var working: Tree
    var collected: seq<Error>
    var removed: set<Loc>
    var majorRemoved: set<Loc>

    ghost function Abstract(): State
      reads this
    {
      State(working, collected, removed, majorRemoved)
    }

    constructor (data: Tree)
      ensures Abstract() == Initial(data)
    {
      working, collected, removed, majorRemoved := data, [], {}, {};
    }

    /** Records `e` and excises its location from the working data. */
    method CollectOriginalError(e: Error, removeLoc: Loc)
      requires removeLoc == RemoveLoc(e) && removeLoc !in removed && e.loc !in removed
      modifies this
      ensures Abstract() == Step(old(Abstract()), e)
    {
      collected := collected + [Reported(e)];
      working := DeleteAt(working, removeLoc);
      removed := removed + {removeLoc};
      if e.kind == "major" {
        majorRemoved := majorRemoved + {removeLoc};
      }
    }

    /** Removes what the errors of one round name; `progress` says whether anything new was removed. */
    method ProcessErrorList(errors: seq<Error>) returns (progress: bool)
      modifies this
      ensures Abstract() == Process(old(Abstract()), errors)
      ensures progress <==> removed != old(removed)
      ensures !progress ==> Abstract() == old(Abstract())
    {
      progress := false;
      for i := 0 to |errors|
        invariant Abstract() == Process(old(Abstract()), errors[..i])
        invariant progress <==> removed != old(removed)
        invariant old(removed) <= removed
      {
        assert errors[..i + 1][..i] == errors[..i];
        var e := errors[i];
        var fatal := IsFatal(e);
        var removeLoc := if fatal && |e.loc| > 1 then Parent(e.loc) else e.loc;
        if removeLoc in removed {
          continue;
        }
        var cascade := e.loc in removed;
        if cascade {
          if !(fatal && e.loc in majorRemoved) {
            working := DeleteAt(working, removeLoc);
            removed := removed + {removeLoc};
            progress := true;
          }
        } else {
          CollectOriginalError(e, removeLoc);
          progress := true;
        }
      }
      assert errors[..|errors|] == errors;
      NoProgressIff(old(Abstract()), errors);
    }

    /** One turn of the loop: validate, then either leave with an outcome or repair and go on. */
    method Attempt<M(!new)>(v: Validator<M>, ghost data: Tree, n: nat, earlier: seq<Error>)
      returns (done: Option<Outcome<M>>, warnings: seq<Error>)
      requires Abstract() == After(v, data, n) && earlier == Warnings(v, data, n)
      modifies this
      ensures warnings == Warnings(v, data, n + 1)
      ensures done.None? ==> Continues(v, data, n) && Abstract() == After(v, data, n + 1)
      ensures done.Some? ==> Abstract() == old(Abstract()) && Ends(v, data, n, done.value)
    {
      var verdict := v.verdict(n, working);
      warnings := earlier + v.warnings(n, working);
      match verdict
      case Accepted(m) =>
        var errors := GetUniqueErrors(collected + warnings);
        done := Some(Returned(Some(m), errors));
      case Crashed =>
        var errors := GetUniqueErrors(collected);
        done := Some(Raised(errors + [UnhandledException()]));
      case Rejected(found) =>
        var errors := GetUniqueErrors(found);
        if HasTopLevelFatal(errors, removed) {
          done := Some(Raised(errors));
        } else {
          var progress := ProcessErrorList(errors);
          if progress {
            done := None;
          } else {
            var all := GetUniqueErrors(collected + warnings);
            done := Some(Returned(None, all));
          }
        }
    }

    /** After `n` rounds, all of which went on: the state, and the warnings so far. */
    ghost predicate Running<M(!new)>(v: Validator<M>, data: Tree, n: nat, warnings: seq<Error>)
      reads this
    {
      Abstract() == After(v, data, n) && warnings == Warnings(v, data, n) && AllContinue(v, data, n)
    }

    /** One turn, counted. */
    method Turn<M(!new)>(v: Validator<M>, ghost data: Tree, ghost bound: nat, n: nat, earlier: seq<Error>)
      returns (done: Option<Outcome<M>>, warnings: seq<Error>)
      requires Running(v, data, n, earlier) && IsBound(v, data, bound)
      modifies this
      ensures done.None? ==> Running(v, data, n + 1, warnings) && n < bound
      ensures done.Some? ==> Abstract() == old(Abstract()) && Ends(v, data, n, done.value)
    {
      done, warnings := Attempt(v, data, n, earlier);
      assert done.None? ==> AllContinue(v, data, n + 1);
    }

    /** The loop, for a validator whose runs are bounded. */
    method Retry<M(!new)>(v: Validator<M>, ghost data: Tree, ghost bound: nat) returns (outcome: Outcome<M>,
                          ghost rounds: nat)
      requires Abstract() == Initial(data) && IsBound(v, data, bound)
      modifies this
      ensures Abstract() == After(v, data, rounds) && Ends(v, data, rounds, outcome) && AllContinue(v, data, rounds)
    {
      var round := 0;
      var warnings := [];
      while true
        invariant Running(v, data, round, warnings)
        decreases bound - round
      {
        var done: Option<Outcome<M>>;
        done, warnings := Turn(v, data, bound, round, warnings);
        if done.Some? {
          return done.value, round;
        }
        round := round + 1;
      }
    }

    /**
     Validates, repairs and retries until validation accepts, crashes, reports a fatal error at the top, or a
     round removes nothing new. That comes about when the validator looks at the data only, within as many
     rounds as the data has nodes, and when all locations it ever names lie in `u`, within as many as `u` has.
     */
    method ValidateWithPolicy<M(!new)>(v: Validator<M>, ghost data: Tree, ghost u: set<Loc>)
      returns (outcome: Outcome<M>, ghost rounds: nat)
      requires Abstract() == Initial(data)
      requires IsDetermined(v) || (PrefixClosed(u) && NamesOnly(v, u))
      modifies this
      ensures Abstract() == After(v, data, rounds) && Ends(v, data, rounds, outcome) && AllContinue(v, data, rounds)
      ensures IsDetermined(v) ==> rounds <= Size(data)
      ensures PrefixClosed(u) && NamesOnly(v, u) ==> rounds <= |u|
    {
      ghost var bound := |u|;
      if IsDetermined(v) {
        SizeBound(v, data);
        bound := Size(data);
      }
      if PrefixClosed(u) && NamesOnly(v, u) {
        LocationsBound(v, data, u);
      }
      outcome, rounds := Retry(v, data, bound);
    }
  }
}
