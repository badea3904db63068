/**
 What a run of the repair loop guarantees about the errors it returns, the data it leaves and its outcome.
 */
module RepairGuarantees {
  import opened Wrappers
  import opened Trees
  import opened Repair
  import opened Graphs

  /** No silent loss: whatever was removed lies at or above the location of a returned error. */
  lemma NoSilentLoss<M(!new)>(v: Validator<M>, data: Tree, n: nat, outcome: Outcome<M>, l: Loc)
    requires Ends(v, data, n, outcome) && outcome.Returned? && l in After(v, data, n).removed
    ensures exists e :: e in outcome.errors && l <= e.loc
  {
    RunIsSound(v, data, n);
    var s := After(v, data, n);
    var e :| e in s.collected && l <= e.loc;
    assert e in s.collected + Warnings(v, data, n + 1);
  }

  /** The repaired data is the input with deletions only; on list-free input exactly the removed locations are gone. */
  lemma OnlyDeletions<M(!new)>(v: Validator<M>, data: Tree, n: nat)
    ensures Pruned(data, After(v, data, n).working)
    ensures AllDicts(data) ==> ExactlyWithout(data, After(v, data, n).working, After(v, data, n).removed)
  {
    RunIsSound(v, data, n);
  }

  /** Whoever accepted, accepted the repaired data; and giving up means every reported error is stuck. */
  lemma OutcomeMeaning<M(!new)>(v: Validator<M>, data: Tree, n: nat, outcome: Outcome<M>)
    requires Ends(v, data, n, outcome) && outcome.Returned?
    ensures outcome.model.Some? ==> v.verdict(n, After(v, data, n).working) == Accepted(outcome.model.value)
    ensures outcome.model.None? ==>
              var verdict := v.verdict(n, After(v, data, n).working);
              verdict.Rejected? && forall e :: e in verdict.errors ==> Blocked(After(v, data, n), e)
  {
    var s := After(v, data, n);
    var verdict := v.verdict(n, s.working);
    if verdict.Rejected? {
      NoProgressIff(s, Unique(verdict.errors));
      assert forall e :: e in verdict.errors ==> e in Unique(verdict.errors);
    }
  }

  lemma {:induction false} StaysUnmajor<M(!new)>(v: Validator<M>, data: Tree, k: nat, m: nat, l: Loc)
    requires k <= m && l in After(v, data, k).removed && l !in After(v, data, k).major
    ensures l in After(v, data, m).removed && l !in After(v, data, m).major
  {
    if k < m {
      StaysUnmajor(v, data, k, m - 1, l);
      var s := After(v, data, m - 1);
      var verdict := v.verdict(m - 1, s.working);
      if verdict.Rejected? {
        NeverBecomesMajor(s, Unique(verdict.errors), l);
      }
    }
  }

  lemma ProcessLast(s: State, errors: seq<Error>)
    requires errors != []
    ensures Process(s, errors) == Step(Process(s, errors[..|errors| - 1]), errors[|errors| - 1])
  {
    hide Step;
  }

  lemma {:induction false} ProcessSplit(s: State, errors: seq<Error>, i: nat)
    requires i <= |errors|
    ensures Process(s, errors) == Process(Process(s, errors[..i]), errors[i..])
  {
    if i < |errors| {
      var n := |errors| - 1;
      ProcessLast(s, errors);
      ProcessLast(Process(s, errors[..i]), errors[i..]);
      hide Process, Step;
      ProcessSplit(s, errors[..n], i);
      assert errors[..n][..i] == errors[..i];
      assert errors[i..][..n - i] == errors[..n][i..];
    } else {
      assert errors[..i] == errors;
    }
  }

  lemma EscalationInRound(s: State, errors: seq<Error>, i: nat)
    requires i < |errors| && Escalates(Process(s, errors[..i]), errors[i])
    ensures IsFatal(errors[i]) && |errors[i].loc| > 1
    ensures errors[i].loc in Process(s, errors).removed && errors[i].loc !in Process(s, errors).major
    ensures Parent(errors[i].loc) in Process(s, errors).removed
  {
    var e, t := errors[i], Process(s, errors[..i]);
    ProcessSplit(s, errors, i);
    NeverBecomesMajor(t, errors[i..], e.loc);
    ProcessSplit(t, errors[i..], 1);
    assert errors[i..][..1] == [e] && [e][..0] == [];
    assert Process(t, [e]) == Step(Process(t, [e][..0]), e);
    NoProgressIff(Step(t, e), errors[i..][1..]);
  }

  /**
   A silent escalation to the enclosing object starts from a location removed earlier that
   is not major-removed, neither then nor in any later round.
   */
  lemma EscalationNeverStartsAtMajor<M(!new)>(v: Validator<M>, data: Tree, k: nat, i: nat, m: nat)
    requires k < m && v.verdict(k, After(v, data, k).working).Rejected?
    requires var errors := Unique(v.verdict(k, After(v, data, k).working).errors);
             i < |errors| && Escalates(Process(After(v, data, k), errors[..i]), errors[i])
    ensures var e := Unique(v.verdict(k, After(v, data, k).working).errors)[i];
            IsFatal(e) && |e.loc| > 1 && e.loc in After(v, data, m).removed
              && Parent(e.loc) in After(v, data, m).removed
            && e.loc !in After(v, data, m).major
  {
    var s := After(v, data, k);
    var errors := Unique(v.verdict(k, s.working).errors);
    EscalationInRound(s, errors, i);
    assert After(v, data, k + 1) == Process(s, errors);
    StaysUnmajor(v, data, k + 1, m, errors[i].loc);
    RemovedGrows(v, data, k + 1, m);
  }

  lemma {:induction false} RemovedGrows<M(!new)>(v: Validator<M>, data: Tree, k: nat, m: nat)
    requires k <= m
    ensures After(v, data, k).removed <= After(v, data, m).removed
  {
    if k < m {
      RemovedGrows(v, data, k, m - 1);
      var s := After(v, data, m - 1);
      var verdict := v.verdict(m - 1, s.working);
      if verdict.Rejected? {
        NoProgressIff(s, Unique(verdict.errors));
      }
    }
  }

  // ------------------------------------------------------------------ an oracle that answers by round

  function NumberedError(n: nat): Error {
    Error([Index(n)], "minor", Text(""))
  }

  /** An oracle that answers by the round, whatever the data: it names a new location each time. */
  ghost predicate IsEndless(v: Validator<bool>) {
    forall n: nat, t :: v.verdict(n, t) == Rejected([NumberedError(n)])
  }

  /** Of an oracle that is not determined by the data, some bound on its locations has to be known. */
  lemma {:induction false} EndlessRun(v: Validator<bool>, data: Tree, n: nat)
    requires IsEndless(v)
    ensures Continues(v, data, n)
    ensures forall i: nat :: n <= i ==> [Index(i)] !in After(v, data, n).removed
  {
    if n > 0 {
      EndlessRun(v, data, n - 1);
      SingleError(After(v, data, n - 1), NumberedError(n - 1));
    }
    SingleError(After(v, data, n), NumberedError(n));
  }

  lemma SingleError(s: State, e: Error)
    requires !IsFatal(e)
    ensures Unique([e]) == [e] && Process(s, [e]) == Step(s, e)
    ensures Process(s, [e]).removed == s.removed + {e.loc}
  {
    assert [e][..0] == [];
  }

  /** Such an oracle exists, and the data does not determine it. */
  lemma EndlessValidatorExists() returns (v: Validator<bool>)
    ensures IsEndless(v) && !IsDetermined(v)
  {
    v := Validator((n, t) => Rejected([NumberedError(n)]), (n, t) => []);
    assert v.verdict(0, Leaf("")) != v.verdict(1, Leaf("")) by {
      assert NumberedError(0).loc[0] != NumberedError(1).loc[0];
      assert [NumberedError(0)][0] != [NumberedError(1)][0];
    }
  }
}
