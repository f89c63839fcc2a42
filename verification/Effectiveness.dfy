/** The effectiveness run: how one scenario's probe is classified, the rates over
    all of them, and what the gate on those rates lets through. */
module Effectiveness {
  import opened Texts
  import Percentiles

  datatype Scenario = Scenario(
    expected: seq<Text>, forbidden: seq<Text>, expectNoSkill: bool, expectedTier: Option<int>)

  datatype Privacy = Privacy(promptLeak: bool, pathLeak: bool, bodyLeak: bool)

  /** What came back: candidate names best first, the name on the card ("" for none). */
  datatype Probe = Probe(hitNames: seq<Text>, cardSkill: Text, elapsed: real, privacy: Privacy)

  /** The result dict; a key that is not set is `None`. */
  datatype Row = Row(
    expectNoSkill: bool, elapsed: real, cardSkill: Option<Text>, cardCorrect: bool, privacy: Privacy,
    expectedTier: Option<int>, falsePositive: Option<bool>, top1Hit: Option<bool>, top3Hit: Option<bool>,
    forbiddenTop1: Option<bool>)

  predicate Top1(s: Scenario, p: Probe) { p.hitNames != [] && p.hitNames[0] in s.expected }
  predicate Top3(s: Scenario, p: Probe) {
    exists i :: 0 <= i < |p.hitNames| && p.hitNames[i] in s.expected
  }

  /** A row holds the classification of one scenario's probe. */
  ghost predicate Classifies(row: Row, s: Scenario, p: Probe) {
    && row.expectNoSkill == s.expectNoSkill && row.elapsed == p.elapsed && row.privacy == p.privacy
    && row.expectedTier == s.expectedTier
    && row.cardSkill == (if p.cardSkill == [] then None else Some(p.cardSkill))
    && (row.cardCorrect <==> p.cardSkill != [] && !s.expectNoSkill && p.cardSkill in s.expected)
    && row.falsePositive == (if s.expectNoSkill then Some(p.hitNames != []) else None)
    && row.top1Hit == (if s.expectNoSkill then None else Some(Top1(s, p)))
    && row.top3Hit == (if s.expectNoSkill then None else Some(Top3(s, p)))
    && row.forbiddenTop1 ==
         (if s.forbidden == [] then None else Some(p.hitNames != [] && p.hitNames[0] in s.forbidden))
  }

  method RunScenario(s: Scenario, p: Probe) returns (row: Row)
    ensures Classifies(row, s, p)
  {
    var correct := p.cardSkill != [] && !s.expectNoSkill && p.cardSkill in s.expected;
    var card := if p.cardSkill == [] then None else Some(p.cardSkill);
    row := Row(s.expectNoSkill, p.elapsed, card, correct, p.privacy, None, None, None, None, None);
    if s.expectedTier.Some? {
      row := row.(expectedTier := s.expectedTier);
    }
    if s.expectNoSkill {
      row := row.(falsePositive := Some(p.hitNames != []));
    } else {
      row := row.(top1Hit := Some(p.hitNames != [] && p.hitNames[0] in s.expected));
      row := row.(top3Hit := Some(exists i :: 0 <= i < |p.hitNames| && p.hitNames[i] in s.expected));
    }
    if s.forbidden != [] {
      row := row.(forbiddenTop1 := Some(p.hitNames != [] && p.hitNames[0] in s.forbidden));
    }
  }

  // ---- what a row tells ----

  /** The place of the first candidate that was expected. */
  function ExpectedRank(names: seq<Text>, expected: seq<Text>): Option<nat> {
    if names == [] then None
    else if names[0] in expected then Some(0)
    else
      var rest :- ExpectedRank(names[1..], expected);
      Some(rest + 1)
  }

  lemma {:induction false} RankIsFirst(names: seq<Text>, expected: seq<Text>)
    ensures ExpectedRank(names, expected).Some? <==> exists i :: 0 <= i < |names| && names[i] in expected
    ensures ExpectedRank(names, expected) == Some(0) <==> names != [] && names[0] in expected
  {
    if names != [] && names[0] !in expected {
      RankIsFirst(names[1..], expected);
      if i :| 0 <= i < |names| && names[i] in expected {
        assert names[1..][i - 1] in expected;
      }
    }
  }

  /** A row is graded either as a positive, by the rank at which an expected skill came, or as a
      negative; a correct card was shown to a positive; and a row that hits in first place violates
      nothing when no skill is both expected and forbidden. */
  lemma RowIsCoherent(row: Row, s: Scenario, p: Probe)
    requires Classifies(row, s, p)
    ensures var rank := ExpectedRank(p.hitNames, s.expected);
      && (HitsTop1(row) <==> Positive(row) && rank == Some(0))
      && (HitsTop3(row) <==> Positive(row) && rank.Some?)
      && (HitsTop1(row) ==> HitsTop3(row))
    ensures row.top1Hit.Some? == row.top3Hit.Some? == Positive(row) == row.falsePositive.None?
    ensures FalsePositive(row) <==> Negative(row) && p.hitNames != []
    ensures CardCorrect(row) <==> HasCard(row) && Positive(row) && row.cardSkill.value in s.expected
    ensures HasCard(row) <==> p.cardSkill != []
    ensures p.hitNames == [] ==> !HitsTop3(row) && !FalsePositive(row) && !Forbidden(row)
    ensures (forall name :: name in s.expected ==> name !in s.forbidden) ==> !(HitsTop1(row) && Forbidden(row))
  {
    RankIsFirst(p.hitNames, s.expected);
  }

  /** A longer candidate list, as a higher `--limit` gives, loses no hit and no violation; what it can
      add is a top-3 hit and nothing else, exactly when it does not start the list, or starts that of a
      positive with a skill that is neither expected nor forbidden. */
  lemma MoreCandidatesOnlyAddHits(row: Row, more: Row, s: Scenario, p: Probe, names: seq<Text>)
    requires Classifies(row, s, p) && Classifies(more, s, p.(hitNames := p.hitNames + names))
    ensures HitsTop3(row) ==> HitsTop3(more)
    ensures HitsTop1(row) ==> HitsTop1(more)
    ensures FalsePositive(row) ==> FalsePositive(more)
    ensures Forbidden(row) ==> Forbidden(more)
    ensures more == row.(top3Hit := more.top3Hit)
       <==> p.hitNames != [] || names == []
            || (!s.expectNoSkill && names[0] !in s.expected && names[0] !in s.forbidden)
  {
    var all := p.hitNames + names;
    if i :| 0 <= i < |p.hitNames| && p.hitNames[i] in s.expected {
      assert all[i] in s.expected;
    }
  }

  /** The rows of one run, whatever the probes answered. */
  ghost predicate Results(rows: seq<Row>) {
    forall i :: 0 <= i < |rows| ==> IsResult(rows[i])
  }

  ghost predicate IsResult(row: Row) { exists s, p :: Classifies(row, s, p) }

  // ---- comprehensions over the rows ----

  function Where<X>(xs: seq<X>, p: X -> bool): seq<X> {
    if xs == [] then []
    else if p(xs[0]) then [xs[0]] + Where(xs[1..], p)
    else Where(xs[1..], p)
  }

  lemma {:induction false} WhereHolds<X>(xs: seq<X>, p: X -> bool)
    ensures forall x :: x in Where(xs, p) <==> x in xs && p(x)
  {
    if xs != [] {
      WhereHolds(xs[1..], p);
      assert xs == [xs[0]] + xs[1..];
    }
  }

  lemma {:induction false} WhereImplies<X>(xs: seq<X>, p: X -> bool, q: X -> bool)
    requires forall x :: x in xs && p(x) ==> q(x)
    ensures |Where(xs, p)| <= |Where(xs, q)|
  {
    if xs != [] {
      assert xs[0] in xs;
      WhereImplies(xs[1..], p, q);
    }
  }

  lemma {:induction false} WhereTwice<X>(xs: seq<X>, p: X -> bool, q: X -> bool, both: X -> bool)
    requires forall x :: x in xs ==> (both(x) <==> p(x) && q(x))
    ensures Where(Where(xs, p), q) == Where(xs, both)
  {
    if xs != [] {
      assert xs[0] in xs;
      WhereTwice(xs[1..], p, q, both);
      if p(xs[0]) {
        assert ([xs[0]] + Where(xs[1..], p))[1..] == Where(xs[1..], p);
      }
    }
  }

  lemma {:induction false} WhereDisjoint<X>(xs: seq<X>, p: X -> bool, q: X -> bool, r: X -> bool)
    requires forall x :: x in xs ==> !(p(x) && q(x)) && (p(x) || q(x) ==> r(x))
    ensures |Where(xs, p)| + |Where(xs, q)| <= |Where(xs, r)|
  {
    if xs != [] {
      assert xs[0] in xs;
      WhereDisjoint(xs[1..], p, q, r);
    }
  }

  predicate Positive(row: Row) { !row.expectNoSkill }
  predicate Negative(row: Row) { row.expectNoSkill }
  predicate HitsTop1(row: Row) { row.top1Hit == Some(true) }
  predicate HitsTop3(row: Row) { row.top3Hit == Some(true) }
  predicate FalsePositive(row: Row) { row.falsePositive == Some(true) }
  predicate Forbidden(row: Row) { row.forbiddenTop1 == Some(true) }
  predicate HasCard(row: Row) { row.cardSkill.Some? }
  predicate CardCorrect(row: Row) { row.cardCorrect }
  predicate Tier3Miss(row: Row) { row.expectedTier == Some(3) && !row.cardCorrect }
  predicate Leaks(row: Row) { row.privacy.promptLeak || row.privacy.pathLeak || row.privacy.bodyLeak }

  function Ratio(part: nat, whole: nat, empty: real): real {
    if whole == 0 then empty else part as real / whole as real
  }

  lemma RatioIsMonotone(a: nat, b: nat, whole: nat, empty: real)
    requires a <= b
    ensures Ratio(a, whole, empty) <= Ratio(b, whole, empty)
  {
    if whole > 0 {
      var w := whole as real;
      assert b as real / w - a as real / w == (b - a) as real / w >= 0.0;
    }
  }

  function Positives(rows: seq<Row>): seq<Row> { Where(rows, Positive) }
  function Negatives(rows: seq<Row>): seq<Row> { Where(rows, Negative) }
  function Cards(rows: seq<Row>): seq<Row> { Where(rows, HasCard) }
  function Injected(rows: seq<Row>): seq<Row> { Where(Negatives(rows), HasCard) }

  function Top1Rate(rows: seq<Row>): real {
    Ratio(|Where(Positives(rows), HitsTop1)|, |Positives(rows)|, 0.0)
  }

  function Top3Rate(rows: seq<Row>): real {
    Ratio(|Where(Positives(rows), HitsTop3)|, |Positives(rows)|, 0.0)
  }

  function FalsePositiveRate(rows: seq<Row>): real {
    Ratio(|Where(Negatives(rows), FalsePositive)|, |Negatives(rows)|, 0.0)
  }

  /** 1.0 where no card was shown. */
  function InjectionPrecision(rows: seq<Row>): real {
    Ratio(|Where(Cards(rows), CardCorrect)|, |Cards(rows)|, 1.0)
  }

  function Latencies(rows: seq<Row>): (r: seq<real>)
    ensures |r| == |rows| && forall i :: 0 <= i < |rows| ==> r[i] == rows[i].elapsed
  {
    seq(|rows|, i requires 0 <= i < |rows| => rows[i].elapsed)
  }

  datatype Gates = Gates(
    minTop1: real, minTop3: real, maxFp: real, minPositives: int, minNegatives: int,
    maxP90: real, maxP95: real, minPrecision: real)

  predicate Passed(rows: seq<Row>, g: Gates) {
    && Top1Rate(rows) >= g.minTop1
    && Top3Rate(rows) >= g.minTop3
    && FalsePositiveRate(rows) <= g.maxFp
    && |Positives(rows)| >= g.minPositives
    && |Negatives(rows)| >= g.minNegatives
    && Percentiles.Percentile(Latencies(rows), 0.90) <= g.maxP90
    && Percentiles.Percentile(Latencies(rows), 0.95) <= g.maxP95
    && Where(rows, Forbidden) == []
    && InjectionPrecision(rows) >= g.minPrecision
    && Injected(rows) == []
    && Where(rows, Tier3Miss) == []
    && Where(rows, Leaks) == []
  }

  // ---- what holds of every run ----

  /** A first-place hit is a hit among the candidates. */
  lemma Top1AtMostTop3(rows: seq<Row>)
    requires Results(rows)
    ensures Top1Rate(rows) <= Top3Rate(rows)
  {
    var positives := Positives(rows);
    WhereHolds(rows, Positive);
    forall row | row in positives && HitsTop1(row) ensures HitsTop3(row) {
      var i :| 0 <= i < |rows| && rows[i] == row;
      assert IsResult(rows[i]);
      var s, p :| Classifies(row, s, p);
      assert p.hitNames[0] in s.expected;
    }
    WhereImplies(positives, HitsTop1, HitsTop3);
    RatioIsMonotone(|Where(positives, HitsTop1)|, |Where(positives, HitsTop3)|, |positives|, 0.0);
  }

  /** A card shown where no skill was wanted can never be a correct one. */
  lemma PrecisionBound(rows: seq<Row>)
    requires Results(rows) && Cards(rows) != []
    ensures |Injected(rows)| <= |Cards(rows)|
    ensures InjectionPrecision(rows) <= Ratio(|Cards(rows)| - |Injected(rows)|, |Cards(rows)|, 1.0)
  {
    var right, wrong := (r: Row) => HasCard(r) && CardCorrect(r), (r: Row) => Negative(r) && HasCard(r);
    WhereTwice(rows, HasCard, CardCorrect, right);
    WhereTwice(rows, Negative, HasCard, wrong);
    forall row | row in rows ensures !(right(row) && wrong(row)) {
      var i :| 0 <= i < |rows| && rows[i] == row;
      assert IsResult(rows[i]);
    }
    WhereDisjoint(rows, right, wrong, HasCard);
    RatioIsMonotone(|Where(Cards(rows), CardCorrect)|, |Cards(rows)| - |Injected(rows)|, |Cards(rows)|, 1.0);
  }

  /** The rows a passing run may hold. */
  predicate Harmless(row: Row) {
    && !Forbidden(row) && !Leaks(row) && !Tier3Miss(row)
    && (row.expectNoSkill ==> !HasCard(row))
  }

  predicate RightFirst(row: Row) { Positive(row) && HitsTop1(row) }
  predicate RightSomewhere(row: Row) { Positive(row) && HitsTop3(row) }
  predicate FalseAlarm(row: Row) { Negative(row) && FalsePositive(row) }
  predicate RightCard(row: Row) { HasCard(row) && CardCorrect(row) }

  function Count(rows: seq<Row>, p: Row -> bool): nat { |Where(rows, p)| }

  /** A share of at least `least`; of nothing, `none` stands for it. */
  predicate AtLeast(part: nat, whole: nat, none: real, least: real) {
    if whole == 0 then none >= least else part as real >= least * whole as real
  }

  predicate AtMost(part: nat, whole: nat, none: real, most: real) {
    if whole == 0 then none <= most else part as real <= most * whole as real
  }

  /** What the gate asks of the counts over all rows: no rates, no percentiles, no sublists. */
  predicate NumbersPass(rows: seq<Row>, g: Gates) {
    var positives := Count(rows, Positive);
    && AtLeast(Count(rows, RightFirst), positives, 0.0, g.minTop1)
    && AtLeast(Count(rows, RightSomewhere), positives, 0.0, g.minTop3)
    && AtMost(Count(rows, FalseAlarm), Count(rows, Negative), 0.0, g.maxFp)
    && AtLeast(Count(rows, RightCard), Count(rows, HasCard), 1.0, g.minPrecision)
    && g.minPositives <= positives <= |rows| - g.minNegatives
    && (rows != [] ==>
      && Percentiles.AtMost(Latencies(rows), g.maxP90) > Percentiles.Rank(|rows|, 0.90)
      && Percentiles.AtMost(Latencies(rows), g.maxP95) > Percentiles.Rank(|rows|, 0.95))
    && (rows == [] ==> 0.0 <= g.maxP90 && 0.0 <= g.maxP95)
  }

  lemma RatioAtLeast(part: nat, whole: nat, none: real, limit: real)
    ensures Ratio(part, whole, none) >= limit <==> AtLeast(part, whole, none, limit)
    ensures Ratio(part, whole, none) <= limit <==> AtMost(part, whole, none, limit)
  {
    if whole > 0 {
      var w, r := whole as real, part as real / whole as real;
      assert r * w == part as real;
      assert r * w - limit * w == (r - limit) * w;
      SignOfProduct(r - limit, w);
    }
  }

  lemma SignOfProduct(x: real, w: real)
    requires w > 0.0
    ensures (x >= 0.0 <==> x * w >= 0.0) && (x <= 0.0 <==> x * w <= 0.0)
  {
  }

  lemma NoneWhere<X>(xs: seq<X>, p: X -> bool)
    ensures Where(xs, p) == [] <==> forall x :: x in xs ==> !p(x)
  {
    WhereHolds(xs, p);
    if Where(xs, p) != [] {
      assert Where(xs, p)[0] in Where(xs, p);
    }
  }

  lemma {:induction false} WhereOrNot(rows: seq<Row>)
    ensures |Where(rows, Positive)| + |Where(rows, Negative)| == |rows|
  {
    if rows != [] {
      WhereOrNot(rows[1..]);
    }
  }

  /** Counting hits among the positives, false positives among the negatives and correct cards among
      the cards is counting them among all rows. */
  lemma SublistsDoNotMatter(rows: seq<Row>)
    ensures |Where(Positives(rows), HitsTop1)| == Count(rows, RightFirst)
    ensures |Where(Positives(rows), HitsTop3)| == Count(rows, RightSomewhere)
    ensures |Where(Negatives(rows), FalsePositive)| == Count(rows, FalseAlarm)
    ensures |Where(Cards(rows), CardCorrect)| == Count(rows, RightCard)
  {
    WhereTwice(rows, Positive, HitsTop1, RightFirst);
    WhereTwice(rows, Positive, HitsTop3, RightSomewhere);
    WhereTwice(rows, Negative, FalsePositive, FalseAlarm);
    WhereTwice(rows, HasCard, CardCorrect, RightCard);
  }

  lemma RatesMean(rows: seq<Row>, g: Gates)
    ensures var positives := Count(rows, Positive);
      && (Top1Rate(rows) >= g.minTop1 <==> AtLeast(Count(rows, RightFirst), positives, 0.0, g.minTop1))
      && (Top3Rate(rows) >= g.minTop3 <==> AtLeast(Count(rows, RightSomewhere), positives, 0.0, g.minTop3))
      && (FalsePositiveRate(rows) <= g.maxFp <==> AtMost(Count(rows, FalseAlarm), Count(rows, Negative), 0.0, g.maxFp))
      && (InjectionPrecision(rows) >= g.minPrecision
          <==> AtLeast(Count(rows, RightCard), Count(rows, HasCard), 1.0, g.minPrecision))
  {
    var positives := Count(rows, Positive);
    SublistsDoNotMatter(rows);
    WhereOrNot(rows);
    RatioAtLeast(Count(rows, RightFirst), positives, 0.0, g.minTop1);
    RatioAtLeast(Count(rows, RightSomewhere), positives, 0.0, g.minTop3);
    RatioAtLeast(Count(rows, FalseAlarm), Count(rows, Negative), 0.0, g.maxFp);
    RatioAtLeast(Count(rows, RightCard), Count(rows, HasCard), 1.0, g.minPrecision);
  }

  lemma EveryRowHarmless(rows: seq<Row>)
    ensures (Where(rows, Forbidden) == [] && Where(rows, Tier3Miss) == [] && Where(rows, Leaks) == [] && Injected(rows) == [])
       <==> forall row :: row in rows ==> Harmless(row)
  {
    NoneWhere(rows, Forbidden);
    NoneWhere(rows, Tier3Miss);
    NoneWhere(rows, Leaks);
    NoneWhere(Negatives(rows), HasCard);
    WhereHolds(rows, Negative);
  }

  /** The gate opens exactly when the counts over all rows pass and every single row is harmless. */
  lemma GateMeans(rows: seq<Row>, g: Gates)
    ensures Passed(rows, g) <==> NumbersPass(rows, g) && forall row :: row in rows ==> Harmless(row)
  {
    RatesMean(rows, g);
    WhereOrNot(rows);
    EveryRowHarmless(rows);
    if rows != [] {
      Percentiles.PercentileGate(Latencies(rows), 0.90, g.maxP90);
      Percentiles.PercentileGate(Latencies(rows), 0.95, g.maxP95);
    }
  }

  /** What one scenario must come back with for the run to pass. */
  predicate Acceptable(s: Scenario, p: Probe) {
    && !p.privacy.promptLeak && !p.privacy.pathLeak && !p.privacy.bodyLeak
    && (p.hitNames == [] || p.hitNames[0] !in s.forbidden)
    && (s.expectNoSkill ==> p.cardSkill == [])
    && (s.expectedTier == Some(3) ==> !s.expectNoSkill && p.cardSkill != [] && p.cardSkill in s.expected)
  }

  lemma HarmlessMeans(row: Row, s: Scenario, p: Probe)
    requires Classifies(row, s, p)
    ensures Harmless(row) <==> Acceptable(s, p)
  {
  }

  lemma AllHarmless(rows: seq<Row>, scenarios: seq<Scenario>, probes: seq<Probe>)
    requires |rows| == |scenarios| == |probes|
    requires forall i :: 0 <= i < |rows| ==> Classifies(rows[i], scenarios[i], probes[i])
    ensures (forall row :: row in rows ==> Harmless(row))
       <==> forall i :: 0 <= i < |rows| ==> Acceptable(scenarios[i], probes[i])
  {
    forall i | 0 <= i < |rows| ensures Harmless(rows[i]) <==> Acceptable(scenarios[i], probes[i]) {
      HarmlessMeans(rows[i], scenarios[i], probes[i]);
    }
    if forall row :: row in rows ==> Harmless(row) {
      forall i | 0 <= i < |rows| ensures Acceptable(scenarios[i], probes[i]) {
        assert rows[i] in rows;
      }
    }
  }

  /** The whole run: it passes exactly when the counts do and every scenario came back acceptable. */
  method Evaluate(scenarios: seq<Scenario>, probes: seq<Probe>, g: Gates) returns (rows: seq<Row>, passed: bool)
    requires |scenarios| == |probes|
    ensures |rows| == |scenarios| && Results(rows)
    ensures forall i :: 0 <= i < |rows| ==> Classifies(rows[i], scenarios[i], probes[i])
    ensures passed <==> NumbersPass(rows, g) && forall i :: 0 <= i < |rows| ==> Acceptable(scenarios[i], probes[i])
  {
    rows := [];
    for i := 0 to |scenarios|
      invariant |rows| == i
      invariant forall j :: 0 <= j < i ==> Classifies(rows[j], scenarios[j], probes[j])
    {
      var row := RunScenario(scenarios[i], probes[i]);
      rows := rows + [row];
    }
    assert forall j :: 0 <= j < |rows| ==> IsResult(rows[j]);
    GateMeans(rows, g);
    AllHarmless(rows, scenarios, probes);
    passed := Passed(rows, g);
  }
}
