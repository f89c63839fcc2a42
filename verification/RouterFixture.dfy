/** The 100-step guidance fixture: the checking loop, what it decides, and the
    bounds its verdict forces. */
module RouterFixture {
  import opened Texts
  import Sequences

  /** A phase that is not an object, or one with the length of its steps list (if it is a list),
      its domain ("" when absent) and whether it requires a re-query. */
  datatype Phase = NotAnObject | Phase(steps: Option<nat>, domain: Text, requery: bool)

  datatype Error =
    | PhaseCount
    | NotObject(index: nat)
    | StepsOf(index: nat)
    | RequeryInside(index: nat)
    | TooFewRequeries
    | TooFewNegatives
    | StepTotal

  datatype Scan = Scan(steps: nat, required: nat, negatives: nat, previous: Option<Text>, errors: seq<Error>)

  const START: Scan := Scan(0, 0, 0, None, [])

  function Note(errors: seq<Error>, bad: bool, e: Error): seq<Error> {
    if bad then errors + [e] else errors
  }

  function ScanPhase(s: Scan, index: nat, p: Phase): Scan {
    if p.NotAnObject? then s.(errors := s.errors + [NotObject(index)])
    else
      var same := s.previous == Some(p.domain);
      Scan(
        s.steps + (if p.steps == Some(10) then 10 else 0),
        s.required + (if p.requery then 1 else 0),
        s.negatives + (if same && !p.requery then 1 else 0),
        Some(p.domain),
        Note(Note(s.errors, p.steps != Some(10), StepsOf(index)), same && p.requery, RequeryInside(index)))
  }

  function ScanPhases(phases: seq<Phase>): Scan {
    if phases == [] then START
    else ScanPhase(ScanPhases(phases[..|phases| - 1]), |phases| - 1, phases[|phases| - 1])
  }

  function Errors(phases: seq<Phase>, threshold: int): seq<Error> {
    var s := ScanPhases(phases);
    var found := Note([], |phases| != 10, PhaseCount) + s.errors;
    Note(Note(Note(found, s.required < threshold, TooFewRequeries), s.negatives < 2, TooFewNegatives),
         s.steps != 100, StepTotal)
  }

  datatype Report = Report(ok: bool, phaseCount: nat, steps: nat, required: nat, negatives: nat, errors: seq<Error>)

  /** `None` is the assertion that the fixture holds a phases list. */
  method Verify(payload: Option<seq<Phase>>, threshold: int) returns (r: Option<Report>)
    ensures payload.None? ==> r.None?
    ensures payload.Some? ==>
      var s, errors := ScanPhases(payload.value), Errors(payload.value, threshold);
      r == Some(Report(errors == [], |payload.value|, s.steps, s.required, s.negatives, errors))
  {
    if payload.None? { return None; }
    var phases := payload.value;
    var errors: seq<Error> := [];
    if |phases| != 10 { errors := errors + [PhaseCount]; }
    var totalSteps, required, negatives := 0, 0, 0;
    var previous: Option<Text> := None;
    ghost var counted := errors;
    ghost var scan := START;
    for index := 0 to |phases|
      invariant scan == ScanPhases(phases[..index])
      invariant errors == counted + scan.errors
      invariant totalSteps == scan.steps && required == scan.required
      invariant negatives == scan.negatives && previous == scan.previous
    {
      ScanOneMore(phases, index);
      NoteAfter(counted, scan, index, phases[index]);
      scan := ScanPhase(scan, index, phases[index]);
      var p := phases[index];
      if p.NotAnObject? {
        errors := errors + [NotObject(index)];
        continue;
      }
      if p.steps != Some(10) {
        errors := errors + [StepsOf(index)];
      } else {
        totalSteps := totalSteps + 10;
      }
      if p.requery {
        required := required + 1;
      }
      if previous == Some(p.domain) && !p.requery {
        negatives := negatives + 1;
      }
      if previous == Some(p.domain) && p.requery {
        errors := errors + [RequeryInside(index)];
      }
      previous := Some(p.domain);
    }
    assert phases[..|phases|] == phases;
    if required < threshold { errors := errors + [TooFewRequeries]; }
    if negatives < 2 { errors := errors + [TooFewNegatives]; }
    if totalSteps != 100 { errors := errors + [StepTotal]; }
    r := Some(Report(errors == [], |phases|, totalSteps, required, negatives, errors));
  }

  lemma NoteAfter(counted: seq<Error>, s: Scan, index: nat, p: Phase)
    ensures counted + ScanPhase(s, index, p).errors == ScanPhase(s.(errors := counted + s.errors), index, p).errors
  {
    Sequences.Associate(counted, s.errors, [NotObject(index)]);
    Sequences.Associate(counted, s.errors, [StepsOf(index)]);
    Sequences.Associate(counted, s.errors, [RequeryInside(index)]);
    Sequences.Associate(counted, s.errors + [StepsOf(index)], [RequeryInside(index)]);
  }

  lemma ScanOneMore(phases: seq<Phase>, index: nat)
    requires index < |phases|
    ensures ScanPhases(phases[..index + 1]) == ScanPhase(ScanPhases(phases[..index]), index, phases[index])
  {
    assert phases[..index + 1][..index] == phases[..index];
  }

  // ---- the declarative reading ----

  predicate Repeats(phases: seq<Phase>, i: nat)
    requires i < |phases| && forall j :: 0 <= j < |phases| ==> phases[j].Phase?
  {
    i > 0 && phases[i - 1].domain == phases[i].domain
  }

  predicate AllObjects(phases: seq<Phase>) { forall i :: 0 <= i < |phases| ==> phases[i].Phase? }

  /** Objects of ten steps, none re-querying inside a run of its domain. */
  predicate Clean(phases: seq<Phase>) {
    AllObjects(phases) && forall i :: 0 <= i < |phases| ==>
      phases[i].steps == Some(10) && (Repeats(phases, i) ==> !phases[i].requery)
  }

  function Required(phases: seq<Phase>): nat
    requires AllObjects(phases)
  {
    if phases == [] then 0
    else Required(phases[..|phases| - 1]) + (if phases[|phases| - 1].requery then 1 else 0)
  }

  /** Phases that go on in the domain before without a re-query. */
  function Negatives(phases: seq<Phase>): nat
    requires AllObjects(phases)
  {
    if phases == [] then 0
    else
      var goesOn := Repeats(phases, |phases| - 1) && !phases[|phases| - 1].requery;
      Negatives(phases[..|phases| - 1]) + (if goesOn then 1 else 0)
  }

  /** Maximal runs of one domain. */
  function Runs(phases: seq<Phase>): nat
    requires AllObjects(phases)
  {
    if phases == [] then 0
    else Runs(phases[..|phases| - 1]) + (if Repeats(phases, |phases| - 1) then 0 else 1)
  }

  lemma {:induction false} ScanMeans(phases: seq<Phase>)
    ensures var s := ScanPhases(phases);
      && (s.errors == [] <==> Clean(phases))
      && (s.errors == [] ==> s.steps == 10 * |phases|)
      && (AllObjects(phases) ==> s.required == Required(phases) && s.negatives == Negatives(phases))
      && (AllObjects(phases) ==> s.previous == if phases == [] then None else Some(phases[|phases| - 1].domain))
  {
    if phases != [] {
      var front, n := phases[..|phases| - 1], |phases| - 1;
      ScanMeans(front);
      CleanSplit(phases);
    }
  }

  lemma CleanSplit(phases: seq<Phase>)
    requires phases != []
    ensures var front, n := phases[..|phases| - 1], |phases| - 1;
      && (AllObjects(phases) <==> AllObjects(front) && phases[n].Phase?)
      && (Clean(phases) <==>
            Clean(front) && phases[n].Phase? && phases[n].steps == Some(10)
            && (n > 0 && front[n - 1].domain == phases[n].domain ==> !phases[n].requery))
  {
    var front, n := phases[..|phases| - 1], |phases| - 1;
    assert forall i :: 0 <= i < n ==> front[i] == phases[i];
    if Clean(phases) {
      forall i | 0 <= i < |front| ensures front[i].steps == Some(10) && (Repeats(front, i) ==> !front[i].requery) {
        assert Repeats(phases, i) == Repeats(front, i);
      }
      assert n > 0 && front[n - 1].domain == phases[n].domain ==> Repeats(phases, n);
    }
    if Clean(front) && phases[n].Phase? {
      forall i | 0 <= i < n ensures Repeats(phases, i) ==> !phases[i].requery {
        assert Repeats(phases, i) == Repeats(front, i);
      }
    }
  }

  /** The loop accepts exactly the fixtures that read as the documentation says. */
  lemma VerdictMeans(phases: seq<Phase>, threshold: int)
    ensures Errors(phases, threshold) == [] <==>
      && |phases| == 10 && Clean(phases)
      && Required(phases) >= threshold && Negatives(phases) >= 2
  {
    ScanMeans(phases);
  }

  lemma {:induction false} CleanCounts(phases: seq<Phase>)
    requires Clean(phases)
    ensures Runs(phases) + Negatives(phases) == |phases| && Required(phases) <= Runs(phases)
  {
    if phases != [] {
      CleanSplit(phases);
      CleanCounts(phases[..|phases| - 1]);
    }
  }

  /** An accepted fixture has at most eight domain runs, and no more re-queries than runs. */
  lemma AcceptanceForcesBounds(phases: seq<Phase>, threshold: int)
    requires Errors(phases, threshold) == []
    ensures AllObjects(phases)
    ensures Negatives(phases) == 10 - Runs(phases)
    ensures threshold <= Required(phases) <= Runs(phases) <= 8
  {
    VerdictMeans(phases, threshold);
    CleanCounts(phases);
  }

  /** Eight runs of domains, the first three phases long, each re-querying where it starts. */
  function Densest(n: nat): seq<Phase>
    requires n <= 10
  {
    if n == 0 then [] else Densest(n - 1) + [Phase(Some(10), RunDomain(n), n == 1 || n > 3)]
  }

  function RunDomain(n: nat): Text
    requires n <= 10
  {
    var c: CodePoint := if n <= 3 then 3 else n;
    [c]
  }

  function DensestScan(n: nat): Scan
    requires n <= 10
  {
    if n == 0 then START
    else if n <= 3 then Scan(10 * n, 1, n - 1, Some(RunDomain(n)), [])
    else Scan(10 * n, n - 2, 2, Some(RunDomain(n)), [])
  }

  lemma {:induction false} DensestScans(n: nat)
    requires n <= 10
    ensures |Densest(n)| == n && ScanPhases(Densest(n)) == DensestScan(n)
  {
    if n > 0 {
      DensestScans(n - 1);
      assert Densest(n)[..n - 1] == Densest(n - 1);
    }
  }

  /** Some fixture passes exactly when the threshold is at most eight. */
  lemma ThresholdCeiling(threshold: int)
    ensures (exists phases :: Errors(phases, threshold) == []) <==> threshold <= 8
  {
    forall phases | Errors(phases, threshold) == [] ensures threshold <= 8 {
      AcceptanceForcesBounds(phases, threshold);
    }
    if threshold <= 8 {
      DensestScans(10);
      assert Errors(Densest(10), threshold) == [];
    }
  }

  /** The 100-step error never comes alone. */
  lemma StepTotalNeverAlone(phases: seq<Phase>, threshold: int)
    requires StepTotal in Errors(phases, threshold)
    ensures exists e :: e in Errors(phases, threshold) && e != StepTotal
  {
    ScanMeans(phases);
    NoStepTotalInScan(phases);
    var s := ScanPhases(phases);
    if |phases| != 10 {
      assert PhaseCount in Errors(phases, threshold);
    } else if s.errors != [] {
      assert s.errors[0] in Errors(phases, threshold);
    }
  }

  lemma {:induction false} NoStepTotalInScan(phases: seq<Phase>)
    ensures StepTotal !in ScanPhases(phases).errors
  {
    if phases != [] {
      NoStepTotalInScan(phases[..|phases| - 1]);
    }
  }
}
