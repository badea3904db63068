/**
 What one error, one round and a whole run of the repair loop do, read off the errors themselves: which place
 an error takes away, what is recorded of it, and how the loop leaves.
 */
module RepairSteps {
  import opened Wrappers
  import opened Trees
  import opened Repair
  import opened ListDeletion
  import opened ListCleaning
  import opened Graphs

  // ------------------------------------------------------------------ one error

  /** These errors take away the object around their place, if there is one other than the document. */
  predicate TakesEnclosing(e: Error) {
    e.kind in {"extra_forbid", "extra_forbidden", "fatal", "missing"} && |e.loc| > 1
  }

  /** `l` is the place that `e` takes away. */
  predicate Takes(e: Error, l: Loc) {
    if TakesEnclosing(e) then |l| == |e.loc| - 1 && forall k :: 0 <= k < |l| ==> l[k] == e.loc[k]
    else l == e.loc
  }

  predicate StopsHere(s: State, e: Error) {
    e.kind in {"extra_forbid", "extra_forbidden", "fatal", "missing"} && e.loc in s.major
  }

  /** `c` is recorded for `e`: the error itself, or a major one at its place where its kind is a foreign one. */
  predicate Records(e: Error, c: Error) {
    if e.kind in {"extra_forbid", "extra_forbidden", "fatal", "missing", "minor", "major", "warning"} then c == e
    else c == Error(e.loc, "major", RemovalNote(if e.loc == [] then None else Some(e.loc[|e.loc| - 1])))
  }

  /** The error is met at a place that is still there: it is recorded, and what it takes away is deleted. */
  ghost predicate Removal(s: State, e: Error, l: Loc, t: State) {
    && l !in s.removed && e.loc !in s.removed
    && t.working == DeleteAt(s.working, l)
    && t.removed == s.removed + {l}
    && t.major == (if e.kind == "major" then s.major + {l} else s.major)
    && |t.collected| == |s.collected| + 1 && t.collected[..|s.collected|] == s.collected
    && Records(e, t.collected[|s.collected|])
  }

  /** The error follows from an earlier removal: the enclosing place goes too, and nothing is recorded. */
  ghost predicate SilentRemoval(s: State, e: Error, l: Loc, t: State) {
    && l !in s.removed && e.loc in s.removed && !StopsHere(s, e)
    && t == State(DeleteAt(s.working, l), s.collected, s.removed + {l}, s.major)
  }

  /** Its place is gone already, or it follows from the removal of a major error: nothing happens. */
  ghost predicate NoRemoval(s: State, e: Error, l: Loc, t: State) {
    (l in s.removed || (e.loc in s.removed && StopsHere(s, e))) && t == s
  }

  ghost predicate IsStep(s: State, e: Error, t: State) {
    exists l :: Takes(e, l) && (Removal(s, e, l, t) || SilentRemoval(s, e, l, t) || NoRemoval(s, e, l, t))
  }

  lemma TakesOne(e: Error, l: Loc)
    ensures Takes(e, l) <==> l == if TakesEnclosing(e) then e.loc[..|e.loc| - 1] else e.loc
  {
  }

  /** One error is handled in exactly this way. */
  lemma StepMeaning(s: State, e: Error, t: State)
    ensures t == Step(s, e) <==> IsStep(s, e, t)
  {
    var l := if TakesEnclosing(e) then e.loc[..|e.loc| - 1] else e.loc;
    forall k ensures Takes(e, k) <==> k == l {
      TakesOne(e, k);
    }
    hide Takes, TakesEnclosing;
    assert l == RemoveLoc(e) by { RemovesTaken(e, l); }
    if Removal(s, e, l, t) {
      assert t.collected == t.collected[..|s.collected|] + [t.collected[|s.collected|]];
    }
    assert t == Step(s, e) <==> Removal(s, e, l, t) || SilentRemoval(s, e, l, t) || NoRemoval(s, e, l, t);
  }

  lemma RemovesTaken(e: Error, l: Loc)
    ensures Takes(e, l) <==> l == RemoveLoc(e)
  {
    TakesOne(e, l);
  }

  // ------------------------------------------------------------------ one round

  /** `states` leads from `s` to `t`, one step for each error in turn. */
  ghost predicate LeadsThrough(s: State, errors: seq<Error>, t: State, states: seq<State>) {
    && |states| == |errors| + 1 && states[0] == s && states[|errors|] == t
    && forall i :: 0 <= i < |errors| ==> IsStep(states[i], errors[i], states[i + 1])
  }

  ghost predicate IsRound(s: State, errors: seq<Error>, t: State) {
    exists states :: LeadsThrough(s, errors, t, states)
  }

  lemma {:induction false} ThroughIsProcess(s: State, errors: seq<Error>, t: State, states: seq<State>)
    requires LeadsThrough(s, errors, t, states)
    ensures t == Process(s, errors)
  {
    hide IsStep;
    if errors != [] {
      var n := |errors| - 1;
      ThroughIsProcess(s, errors[..n], states[n], states[..n + 1]);
      StepMeaning(states[n], errors[n], t);
    }
  }

  lemma {:induction false} ProcessLeads(s: State, errors: seq<Error>) returns (states: seq<State>)
    ensures LeadsThrough(s, errors, Process(s, errors), states)
  {
    hide IsStep;
    if errors == [] {
      states := [s];
    } else {
      var n := |errors| - 1;
      var before := ProcessLeads(s, errors[..n]);
      StepMeaning(before[n], errors[n], Process(s, errors));
      states := before + [Process(s, errors)];
    }
  }

  /** A round handles its errors in turn. */
  lemma RoundMeaning(s: State, errors: seq<Error>, t: State)
    ensures t == Process(s, errors) <==> IsRound(s, errors, t)
  {
    if states :| LeadsThrough(s, errors, t, states) {
      ThroughIsProcess(s, errors, t, states);
    }
    var states := ProcessLeads(s, errors);
  }

  /** No earlier error is the same. */
  predicate IsFirst(errors: seq<Error>, k: nat) {
    k < |errors| && forall j :: 0 <= j < k ==> errors[j] != errors[k]
  }

  /** `at` are, in order, the positions in `errors` at which an error occurs for the first time. */
  ghost predicate FirstPlaces(errors: seq<Error>, at: seq<nat>) {
    Ascending(at) && forall k: nat :: k in at <==> IsFirst(errors, k)
  }

  /** `r` holds the errors at these positions. */
  predicate HoldsAt(errors: seq<Error>, at: seq<nat>, r: seq<Error>) {
    |r| == |at| && forall i :: 0 <= i < |at| ==> at[i] < |errors| && r[i] == errors[at[i]]
  }

  /** `r` holds every error once, in the order of their first occurrences. */
  ghost predicate HoldsFirstOnes(errors: seq<Error>, r: seq<Error>) {
    exists at :: FirstPlaces(errors, at) && HoldsAt(errors, at, r)
  }

  lemma FirstUpTo(errors: seq<Error>, k: nat)
    requires errors != []
    ensures IsFirst(errors, k) <==>
              IsFirst(errors[..|errors| - 1], k)
              || (k == |errors| - 1 && errors[|errors| - 1] !in errors[..|errors| - 1])
  {
    var n := |errors| - 1;
    if k == n && errors[n] in errors[..n] {
      var j :| 0 <= j < n && errors[..n][j] == errors[n];
    }
  }

  lemma AscendingAppend(at: seq<nat>, n: nat)
    requires Ascending(at) && forall k :: k in at ==> k < n
    ensures Ascending(at + [n])
  {
    assert forall i :: 0 <= i < |at| ==> at[i] in at;
  }

  /** The places for one more error. */
  lemma PlacesAppend(errors: seq<Error>, before: seq<nat>, at: seq<nat>)
    requires errors != [] && FirstPlaces(errors[..|errors| - 1], before)
    requires at == before + if errors[|errors| - 1] in errors[..|errors| - 1] then [] else [|errors| - 1]
    ensures FirstPlaces(errors, at)
  {
    var n := |errors| - 1;
    forall k | k in before ensures k < n {
      assert IsFirst(errors[..n], k);
    }
    AscendingAppend(before, n);
    assert before + [] == before;
    hide Ascending, IsFirst;
    forall k: nat ensures k in at <==> IsFirst(errors, k) {
      FirstUpTo(errors, k);
    }
  }

  lemma {:induction false} UniqueFirst(errors: seq<Error>) returns (at: seq<nat>)
    ensures FirstPlaces(errors, at) && HoldsAt(errors, at, Unique(errors))
  {
    hide FirstPlaces;
    if errors == [] {
      at := [];
      NoPlaces(errors);
    } else {
      var n := |errors| - 1;
      var before := UniqueFirst(errors[..n]);
      at := before + if errors[n] in errors[..n] then [] else [n];
      PlacesAppend(errors, before, at);
    }
  }

  lemma NoPlaces(errors: seq<Error>)
    requires errors == []
    ensures FirstPlaces(errors, [])
  {
  }

  /** The errors without repetitions are exactly that. */
  lemma UniqueMeaning(errors: seq<Error>, r: seq<Error>)
    ensures r == Unique(errors) <==> HoldsFirstOnes(errors, r)
  {
    hide Unique, Ascending, IsFirst;
    var at := UniqueFirst(errors);
    if other :| FirstPlaces(errors, other) && HoldsAt(errors, other, r) {
      AscendingUnique(at, other);
    }
  }

  // ------------------------------------------------------------------ whole runs

  /** The next round: the data is rejected, and its errors, without repetitions, are handled in turn. */
  ghost predicate Advances<M(!new)>(v: Validator<M>, n: nat, s: State, t: State) {
    && v.verdict(n, s.working).Rejected?
    && exists errors :: HoldsFirstOnes(v.verdict(n, s.working).errors, errors) && IsRound(s, errors, t)
  }

  /** `states` are those before each round of a run, and the last one. */
  ghost predicate IsRunOf<M(!new)>(v: Validator<M>, data: Tree, states: seq<State>) {
    && states != [] && states[0] == State(data, [], {}, {})
    && forall k :: 0 <= k < |states| - 1 ==> Advances(v, k, states[k], states[k + 1])
  }

  lemma AdvancesMeaning<M(!new)>(v: Validator<M>, n: nat, s: State, t: State)
    ensures Advances(v, n, s, t)
            <==> v.verdict(n, s.working).Rejected? && t == Process(s, Unique(v.verdict(n, s.working).errors))
  {
    hide HoldsFirstOnes, IsRound, Unique, Process;
    if v.verdict(n, s.working).Rejected? {
      var all := v.verdict(n, s.working).errors;
      UniqueMeaning(all, Unique(all));
      RoundMeaning(s, Unique(all), t);
      forall errors ensures HoldsFirstOnes(all, errors) <==> errors == Unique(all) {
        UniqueMeaning(all, errors);
      }
    }
  }

  lemma {:induction false} RunIsAfter<M(!new)>(v: Validator<M>, data: Tree, states: seq<State>, k: nat)
    requires IsRunOf(v, data, states) && k < |states|
    ensures states[k] == After(v, data, k)
  {
    hide Advances, Process, Unique;
    if k > 0 {
      RunIsAfter(v, data, states, k - 1);
      AdvancesMeaning(v, k - 1, states[k - 1], states[k - 1 + 1]);
    }
  }

  lemma {:induction false} RunOfRounds<M(!new)>(v: Validator<M>, data: Tree, n: nat) returns (states: seq<State>)
    requires AllContinue(v, data, n)
    ensures IsRunOf(v, data, states) && |states| == n + 1 && states[n] == After(v, data, n)
    decreases n
  {
    hide Advances, Process, Unique, HasTopLevelFatal;
    if n == 0 {
      states := [After(v, data, 0)];
    } else {
      var before := RunOfRounds(v, data, n - 1);
      assert Continues(v, data, n - 1);
      AdvancesMeaning(v, n - 1, before[n - 1], After(v, data, n));
      states := before + [After(v, data, n)];
    }
  }

  /** The loop raises where it stands: an error at the top or at one of its fields, of a kind that is fatal. */
  predicate RaisesAt(errors: seq<Error>, removed: set<Loc>) {
    exists k :: 0 <= k < |errors| && errors[k].kind in {"extra_forbid", "extra_forbidden", "fatal", "missing"}
                && |errors[k].loc| <= 1 && errors[k].loc !in removed
  }

  lemma RaisesMeaning(errors: seq<Error>, removed: set<Loc>)
    ensures HasTopLevelFatal(Unique(errors), removed) <==> RaisesAt(errors, removed)
  {
    if RaisesAt(errors, removed) {
      var k :| 0 <= k < |errors| && errors[k].kind in {"extra_forbid", "extra_forbidden", "fatal", "missing"}
               && |errors[k].loc| <= 1 && errors[k].loc !in removed;
      assert errors[k] in Unique(errors);
    }
  }

  /** Warnings of `n` rounds, in order. */
  ghost predicate AreWarnings<M(!new)>(v: Validator<M>, states: seq<State>, parts: seq<seq<Error>>) {
    && |parts| == |states|
    && forall k :: 0 <= k < |states| ==> parts[k] == v.warnings(k, states[k].working)
  }

  function Joined(parts: seq<seq<Error>>): seq<Error> {
    if parts == [] then [] else parts[0] + Joined(parts[1..])
  }

  lemma {:induction false} JoinedAppend(parts: seq<seq<Error>>, last: seq<Error>)
    ensures Joined(parts + [last]) == Joined(parts) + last
  {
    if parts == [] {
      assert [last][1..] == [] && Joined([last]) == last + Joined([]);
    } else {
      assert (parts + [last])[1..] == parts[1..] + [last];
      JoinedAppend(parts[1..], last);
    }
  }

  lemma {:induction false} WarningsMeaning<M(!new)>(v: Validator<M>, data: Tree, states: seq<State>)
    returns (parts: seq<seq<Error>>)
    requires forall k :: 0 <= k < |states| ==> states[k] == After(v, data, k)
    ensures AreWarnings(v, states, parts) && Joined(parts) == Warnings(v, data, |states|)
  {
    hide After;
    if states == [] {
      parts := [];
    } else {
      var n := |states| - 1;
      var before := WarningsMeaning(v, data, states[..n]);
      parts := before + [v.warnings(n, states[n].working)];
      JoinedAppend(before, v.warnings(n, states[n].working));
    }
  }

  /**
   The way out after a run: an accepted model and the recorded errors and warnings; the reported errors, raised;
   no model, because every reported error leaves the state as it is; or the recorded errors and a note of the
   exception, raised.
   */
  ghost predicate IsOutcome<M(!new)>(v: Validator<M>, s: State, n: nat, warnings: seq<Error>, outcome: Outcome<M>) {
    match v.verdict(n, s.working)
    case Accepted(m) =>
      outcome.Returned? && outcome.model == Some(m) && HoldsFirstOnes(s.collected + warnings, outcome.errors)
    case Rejected(errors) =>
      if RaisesAt(errors, s.removed) then outcome.Raised? && HoldsFirstOnes(errors, outcome.errors)
      else
        && (forall e :: e in errors ==> IsStep(s, e, s))
        && outcome.Returned? && outcome.model == None && HoldsFirstOnes(s.collected + warnings, outcome.errors)
    case Crashed =>
      && outcome.Raised? && outcome.errors != []
      && HoldsFirstOnes(s.collected, outcome.errors[..|outcome.errors| - 1])
      && outcome.errors[|outcome.errors| - 1] == Error([], "fatal", Text("unhandled exception caught"))
  }

  lemma StuckErrors(s: State, errors: seq<Error>)
    ensures Process(s, Unique(errors)) == s <==> forall e :: e in errors ==> IsStep(s, e, s)
  {
    hide IsStep;
    NoProgressIff(s, Unique(errors));
    forall e ensures Blocked(s, e) <==> IsStep(s, e, s) {
      StepMeaning(s, e, s);
      StuckStep(s, e);
    }
  }

  lemma StuckStep(s: State, e: Error)
    ensures Step(s, e) == s <==> Blocked(s, e)
  {
    if !Blocked(s, e) {
      assert RemoveLoc(e) in Step(s, e).removed - s.removed;
    }
  }

  lemma RaisedSplit<T>(r: seq<T>, a: seq<T>, last: T)
    ensures r == a + [last] <==> r != [] && r[..|r| - 1] == a && r[|r| - 1] == last
  {
    if r != [] && r[..|r| - 1] == a && r[|r| - 1] == last {
      assert r == r[..|r| - 1] + [r[|r| - 1]];
    }
  }

  lemma OutcomeIsEnd<M(!new)>(v: Validator<M>, data: Tree, n: nat, warnings: seq<Error>, outcome: Outcome<M>)
    requires warnings == Warnings(v, data, n + 1)
    ensures Ends(v, data, n, outcome) <==> IsOutcome(v, After(v, data, n), n, warnings, outcome)
  {
    hide After, HoldsFirstOnes, IsStep, RaisesAt, HasTopLevelFatal, Unique, Process, Warnings;
    var s := After(v, data, n);
    UniqueMeaning(s.collected + warnings, outcome.errors);
    match v.verdict(n, s.working)
    case Accepted(_) =>
    case Crashed =>
      RaisedSplit(outcome.errors, Unique(s.collected), UnhandledException());
      if outcome.errors != [] {
        UniqueMeaning(s.collected, outcome.errors[..|outcome.errors| - 1]);
      }
    case Rejected(errors) =>
      RaisesMeaning(errors, s.removed);
      UniqueMeaning(errors, outcome.errors);
      StuckErrors(s, errors);
  }

  /** What the whole loop does: rounds one after the other, and then a way out. */
  lemma RunMeaning<M(!new)>(v: Validator<M>, data: Tree, n: nat, outcome: Outcome<M>)
    returns (states: seq<State>, parts: seq<seq<Error>>)
    requires AllContinue(v, data, n) && Ends(v, data, n, outcome)
    ensures IsRunOf(v, data, states) && |states| == n + 1 && states[n] == After(v, data, n)
    ensures AreWarnings(v, states, parts) && IsOutcome(v, states[n], n, Joined(parts), outcome)
  {
    hide Advances, IsOutcome, Ends;
    states := RunOfRounds(v, data, n);
    forall k | 0 <= k < |states| ensures states[k] == After(v, data, k) {
      RunIsAfter(v, data, states, k);
    }
    parts := WarningsMeaning(v, data, states);
    OutcomeIsEnd(v, data, n, Joined(parts), outcome);
  }

  // ------------------------------------------------------------------ what is gone after a round, and after a run

  /** After a round nothing is left at the place that an error takes away, unless a major error had taken its own. */
  lemma TakenIsGone(data: Tree, s: State, errors: seq<Error>, e: Error, l: Loc)
    requires AllDicts(data) && Sound(data, s) && e in errors && Takes(e, l) && l != []
    ensures var t := Process(s, errors);
            At(t.working, l).None? || (TakesEnclosing(e) && e.loc in t.major && At(t.working, e.loc).None?)
  {
    var t := Process(s, errors);
    ProcessIsSound(data, s, errors);
    RoundBlocks(s, errors);
    RemovesTaken(e, l);
    if l in t.removed {
      assert Covered(t.removed, l);
    } else {
      assert e.loc in t.removed && e.loc in t.major && IsFatal(e);
      assert Covered(t.removed, e.loc);
    }
  }

  /** Nothing is removed that no reported error takes away. */
  lemma {:induction false} RemovedIsTaken(s: State, errors: seq<Error>, l: Loc)
    requires l in Process(s, errors).removed && l !in s.removed
    ensures exists e :: e in errors && Takes(e, l)
  {
    var n := |errors| - 1;
    var t := Process(s, errors[..n]);
    assert errors == errors[..n] + [errors[n]];
    if l in t.removed {
      RemovedIsTaken(s, errors[..n], l);
      var e :| e in errors[..n] && Takes(e, l);
      assert e in errors;
    } else {
      RemovesTaken(errors[n], l);
      assert errors[n] in errors;
    }
  }

  /** Whatever is removed after a run was taken away by an error of some earlier round. */
  lemma {:induction false} RemovedWasReported<M(!new)>(v: Validator<M>, data: Tree, n: nat, l: Loc)
    requires l in After(v, data, n).removed
    ensures exists k, e :: 0 <= k < n && v.verdict(k, After(v, data, k).working).Rejected?
                           && e in v.verdict(k, After(v, data, k).working).errors && Takes(e, l)
  {
    if n > 0 {
      var s := After(v, data, n - 1);
      var verdict := v.verdict(n - 1, s.working);
      if l in s.removed {
        RemovedWasReported(v, data, n - 1, l);
      } else if verdict.Rejected? {
        RemovedIsTaken(s, Unique(verdict.errors), l);
      }
    }
  }

  /** A document that is valid but for one error: what the error takes away is deleted, and the rest is returned. */
  lemma OneErrorIsRepaired<M(!new)>(v: Validator<M>, data: Tree, e: Error, l: Loc, m: M, outcome: Outcome<M>)
    requires v.verdict(0, data) == Rejected([e]) && !RaisesAt([e], {}) && Takes(e, l)
    requires v.verdict(1, DeleteAt(data, l)) == Accepted(m)
    ensures AllContinue(v, data, 1) && After(v, data, 1).working == DeleteAt(data, l)
    ensures Ends(v, data, 1, outcome) ==> outcome.Returned? && outcome.model == Some(m)
  {
    var s := Initial(data);
    RaisesMeaning([e], {});
    RemovesTaken(e, l);
    assert [e][..0] == [] && Unique([e]) == [e];
    assert Process(s, [e]) == Step(s, e);
    assert After(v, data, 0) == s && After(v, data, 1) == Step(s, e);
    assert l in Step(s, e).removed;
    assert Continues(v, data, 0);
  }

  /** An object that lacks a field it needs is dropped whole, and the document without it is returned. */
  lemma IncompleteObjectIsDropped<M(!new)>(v: Validator<M>, data: Tree, outer: Key, field: Key, m: M,
                                           outcome: Outcome<M>)
    requires v.verdict(0, data) == Rejected([Error([outer, field], "missing", Text(""))])
    requires v.verdict(1, DeleteAt(data, [outer])) == Accepted(m)
    ensures AllContinue(v, data, 1) && After(v, data, 1).working == DeleteAt(data, [outer])
    ensures Ends(v, data, 1, outcome) ==> outcome.Returned? && outcome.model == Some(m)
  {
    var e := Error([outer, field], "missing", Text(""));
    assert [e][0] == e;
    OneErrorIsRepaired(v, data, e, [outer], m, outcome);
  }
}
