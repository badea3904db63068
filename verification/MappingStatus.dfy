/** Evidence for a mapping, and the status that is calculated from nothing but the evidence. */
module MappingStatus {

  datatype MatchResult = Matched | Mismatched | Absent | Unresolved | Ambiguity | Transformed | Supporting

  datatype Evidence = Evidence(kind: string, result: MatchResult, required: bool)

  datatype Status = Mapped | Partial | NotMapped

  const WEAK_KINDS: set<string> := {"short-name", "element-type", "candidate-context"}

  predicate Fails(e: Evidence) {
    e.required && e.result != Matched
  }

  predicate IsStrong(e: Evidence) {
    e.result == Matched && e.kind !in WEAK_KINDS
  }

  predicate HasFailure(evidence: seq<Evidence>) {
    exists e :: e in evidence && Fails(e)
  }

  predicate HasStrong(evidence: seq<Evidence>) {
    exists e :: e in evidence && IsStrong(e)
  }

  predicate HasAmbiguity(evidence: seq<Evidence>) {
    exists e :: e in evidence && e.result == Ambiguity
  }

  function CalculateStatus(candidateCount: nat, evidence: seq<Evidence>): Status {
    if candidateCount == 0 then NotMapped
    else if !HasFailure(evidence) && HasStrong(evidence) && !HasAmbiguity(evidence) then Mapped
    else Partial
  }

  lemma ConcatFailure(a: seq<Evidence>, b: seq<Evidence>)
    ensures HasFailure(a + b) <==> HasFailure(a) || HasFailure(b)
    ensures HasStrong(a + b) <==> HasStrong(a) || HasStrong(b)
    ensures HasAmbiguity(a + b) <==> HasAmbiguity(a) || HasAmbiguity(b)
  {
  }
}
