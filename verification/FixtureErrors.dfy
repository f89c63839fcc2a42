/** What each error of the router fixture's check says, of any phases, objects or not. */
module FixtureErrors {
  import opened Texts
  import opened RouterFixture

  /** The domain of the last object before phase `i`. */
  function DomainBefore(phases: seq<Phase>, i: nat): Option<Text>
    requires i <= |phases|
  {
    if i == 0 then None
    else if phases[i - 1].Phase? then Some(phases[i - 1].domain) else DomainBefore(phases, i - 1)
  }

  ghost predicate PhaseError(phases: seq<Phase>, e: Error) {
    match e
    case NotObject(i) => i < |phases| && phases[i].NotAnObject?
    case StepsOf(i) => i < |phases| && phases[i].Phase? && phases[i].steps != Some(10)
    case RequeryInside(i) =>
      i < |phases| && phases[i].Phase? && phases[i].requery && DomainBefore(phases, i) == Some(phases[i].domain)
    case _ => false
  }

  /** Phases that are objects and re-query; that go on in the domain of the last object without. */
  function Requeries(phases: seq<Phase>): nat {
    if phases == [] then 0
    else
      var last := phases[|phases| - 1];
      Requeries(phases[..|phases| - 1]) + (if last.Phase? && last.requery then 1 else 0)
  }

  function GoingOn(phases: seq<Phase>): nat {
    if phases == [] then 0
    else
      var n := |phases| - 1;
      var goesOn := phases[n].Phase? && !phases[n].requery && DomainBefore(phases, n) == Some(phases[n].domain);
      GoingOn(phases[..n]) + (if goesOn then 1 else 0)
  }

  function TenSteps(phases: seq<Phase>): nat {
    if phases == [] then 0
    else
      var last := phases[|phases| - 1];
      TenSteps(phases[..|phases| - 1]) + (if last.Phase? && last.steps == Some(10) then 1 else 0)
  }

  lemma {:induction false} BeforeInFront(phases: seq<Phase>, n: nat, i: nat)
    requires i <= n <= |phases|
    ensures DomainBefore(phases[..n], i) == DomainBefore(phases, i)
  {
    if i > 0 {
      BeforeInFront(phases, n, i - 1);
    }
  }

  lemma PhaseErrorSplit(phases: seq<Phase>, e: Error)
    requires phases != []
    ensures var n := |phases| - 1;
      PhaseError(phases, e) <==>
        PhaseError(phases[..n], e)
        || (phases[n].NotAnObject? && e == NotObject(n))
        || (phases[n].Phase? && phases[n].steps != Some(10) && e == StepsOf(n))
        || (phases[n].Phase? && phases[n].requery && DomainBefore(phases, n) == Some(phases[n].domain) && e == RequeryInside(n))
  {
    if e.RequeryInside? && e.index < |phases| {
      BeforeInFront(phases, |phases| - 1, e.index);
    }
  }

  lemma NoteHolds(errors: seq<Error>, bad: bool, e: Error, x: Error)
    ensures x in Note(errors, bad, e) <==> x in errors || (bad && x == e)
  {
  }

  /** The loop, on any phases, objects or not: what it counts, and which errors it finds where. */
  lemma {:induction false} ScanFinds(phases: seq<Phase>)
    ensures var s := ScanPhases(phases);
      && s.previous == DomainBefore(phases, |phases|)
      && (s.steps, s.required, s.negatives) == (10 * TenSteps(phases), Requeries(phases), GoingOn(phases))
      && forall e :: e in s.errors <==> PhaseError(phases, e)
  {
    if phases != [] {
      var n := |phases| - 1;
      var s := ScanPhases(phases[..n]);
      ScanFinds(phases[..n]);
      BeforeInFront(phases, n, n);
      forall e ensures e in ScanPhases(phases).errors <==> PhaseError(phases, e) {
        PhaseErrorSplit(phases, e);
      }
    }
  }

  /** An error is reported exactly when it holds of the fixture. */
  lemma ErrorsMean(phases: seq<Phase>, threshold: int, e: Error)
    ensures e in Errors(phases, threshold) <==>
      match e
      case PhaseCount => |phases| != 10
      case TooFewRequeries => Requeries(phases) < threshold
      case TooFewNegatives => GoingOn(phases) < 2
      case StepTotal => TenSteps(phases) != 10
      case _ => PhaseError(phases, e)
  {
    var s := ScanPhases(phases);
    ScanFinds(phases);
    var found := Note([], |phases| != 10, PhaseCount) + s.errors;
    assert e in found <==> (|phases| != 10 && e == PhaseCount) || PhaseError(phases, e);
    var more := Note(found, s.required < threshold, TooFewRequeries);
    NoteHolds(found, s.required < threshold, TooFewRequeries, e);
    NoteHolds(more, s.negatives < 2, TooFewNegatives, e);
    NoteHolds(Note(more, s.negatives < 2, TooFewNegatives), s.steps != 100, StepTotal, e);
  }
}
