/** Waiting for a release with a deadline: the loop both waiters share, over an
    arbitrary environment of attempt results, durations and delays. */
module Polling {
  import opened Texts
  import opened JsonValues

  /** What one attempt means to the loop. */
  datatype Attempt<+P> = Done(value: P) | Pending | Failed

  /** Attempt `k` of an environment: its result, how long it took, the time lost before the
      sleep is computed, and by how much the sleep overran. */
  datatype Turn<+P> = Turn(attempt: Attempt<P>, duration: real, lag: real, overrun: real)

  type Environment<P> = nat -> Turn<P>

  ghost predicate Sane<P>(env: Environment<P>) {
    forall k :: env(k).duration >= 0.0 && env(k).lag >= 0.0 && env(k).overrun >= 0.0
  }

  function Max(a: real, b: real): real { if a < b then b else a }

  function Min(a: real, b: real): real { if b < a then b else a }

  function Ceiling(x: real): int { -((-x).Floor) }

  /** The deadline, relative to the start. */
  function Deadline(wait: real): real { Max(wait, 0.0) }

  function Sleep(poll: real, remaining: real): real {
    Max(Min(poll, remaining), 0.1)
  }

  /** When attempt `k` starts, if the loop gets there. */
  function Start<P>(env: Environment<P>, wait: real, poll: real, k: nat): real
    decreases k, 0
  {
    if k == 0 then 0.0
    else
      var asleep := Finish(env, wait, poll, k - 1) + env(k - 1).lag;
      asleep + Sleep(poll, Deadline(wait) - asleep) + env(k - 1).overrun
  }

  function Finish<P>(env: Environment<P>, wait: real, poll: real, k: nat): real
    decreases k, 1
  {
    Start(env, wait, poll, k) + env(k).duration
  }

  /** Attempt `k` is followed by another. */
  predicate Continues<P>(env: Environment<P>, wait: real, poll: real, k: nat) {
    env(k).attempt.Pending? && Finish(env, wait, poll, k) < Deadline(wait)
  }

  lemma {:induction false} StartsAreSpread<P>(env: Environment<P>, wait: real, poll: real, k: nat)
    requires Sane(env)
    ensures Start(env, wait, poll, k) >= k as real * 0.1
  {
    if k > 0 {
      StartsAreSpread(env, wait, poll, k - 1);
    }
  }

  lemma ContinuesBefore<P>(env: Environment<P>, wait: real, poll: real, k: nat)
    requires Sane(env) && Continues(env, wait, poll, k)
    ensures k < Ceiling(10.0 * Deadline(wait))
  {
    StartsAreSpread(env, wait, poll, k);
    assert k as real < 10.0 * Deadline(wait);
  }

  /** The last attempt the loop makes when it has reached attempt `k`. */
  ghost function Last<P>(env: Environment<P>, wait: real, poll: real, k: nat): (n: nat)
    requires Sane(env)
    ensures n >= k && !Continues(env, wait, poll, n)
    ensures forall j :: k <= j < n ==> Continues(env, wait, poll, j)
    decreases Ceiling(10.0 * Deadline(wait)) - k
  {
    if Continues(env, wait, poll, k) then
      ContinuesBefore(env, wait, poll, k);
      Last(env, wait, poll, k + 1)
    else k
  }

  datatype Outcome<+P> = Got(value: P) | Raised | TimedOut

  function OutcomeOf<P>(a: Attempt<P>): Outcome<P> {
    match a
    case Done(v) => Got(v)
    case Failed => Raised
    case Pending => TimedOut
  }

  /** The loop: it returns, raises or gives up at the last attempt, at the time that attempt ends. */
  method WaitLoop<P>(env: Environment<P>, wait: real, poll: real)
    returns (outcome: Outcome<P>, attempts: nat, now: real)
    requires Sane(env)
    ensures attempts == Last(env, wait, poll, 0) + 1
    ensures outcome == OutcomeOf(env(attempts - 1).attempt)
    ensures now == Finish(env, wait, poll, attempts - 1)
  {
    var deadline := if wait < 0.0 then 0.0 else wait;
    now, attempts := 0.0, 0;
    while true
      invariant now == Start(env, wait, poll, attempts)
      invariant Last(env, wait, poll, attempts) == Last(env, wait, poll, 0)
      invariant forall j :: 0 <= j < attempts ==> Continues(env, wait, poll, j)
      decreases Last(env, wait, poll, 0) - attempts
    {
      var turn := env(attempts);
      now := now + turn.duration;
      attempts := attempts + 1;
      match turn.attempt {
        case Done(v) => return Got(v), attempts, now;
        case Failed => return Raised, attempts, now;
        case Pending =>
      }
      if now >= deadline { return TimedOut, attempts, now; }
      now := now + turn.lag;
      var pause := if poll < deadline - now then poll else deadline - now;
      now := now + (if pause < 0.1 then 0.1 else pause) + turn.overrun;
    }
  }

  // ---- the two waiters ----

  datatype Fetch = Payload(value: Json) | HttpError(code: int) | NetworkError

  /** `fetch_release`: only a 404 means "not yet"; a payload must be an object. */
  function FetchAttempt(f: Fetch): Attempt<Json> {
    match f
    case Payload(v) => if v.Obj? then Done(v) else Failed
    case HttpError(code) => if code == 404 then Pending else Failed
    case NetworkError => Failed
  }

  datatype Install = Installed(report: Json) | PipFailed(output: Text) | SmokeFailed

  /** `clean_install_smoke`: only pip not finding the version is retried. */
  function InstallAttempt(i: Install): Attempt<Json> {
    match i
    case Installed(report) => Done(report)
    case PipFailed(output) =>
      if Contains(output, T("No matching distribution found"))
         || Contains(output, T("Could not find a version that satisfies"))
      then Pending else Failed
    case SmokeFailed => Failed
  }

  /** A raw result with the same three durations. */
  datatype Tick<+R> = Tick(result: R, duration: real, lag: real, overrun: real)

  function Reading<R, P>(raw: nat -> Tick<R>, judge: R -> Attempt<P>): Environment<P> {
    (k: nat) => Turn(judge(raw(k).result), raw(k).duration, raw(k).lag, raw(k).overrun)
  }

  ghost predicate SaneTicks<R>(raw: nat -> Tick<R>) {
    forall k :: raw(k).duration >= 0.0 && raw(k).lag >= 0.0 && raw(k).overrun >= 0.0
  }

  lemma ReadingIsSane<R, P>(raw: nat -> Tick<R>, judge: R -> Attempt<P>)
    requires SaneTicks(raw)
    ensures Sane(Reading(raw, judge))
  {
    var env := Reading(raw, judge);
    forall k ensures env(k).duration >= 0.0 && env(k).lag >= 0.0 && env(k).overrun >= 0.0 {
      assert env(k).duration == raw(k).duration;
    }
  }

  /** `wait_for_release`: the first object fetched, unless an error other than 404 comes before. */
  method WaitForRelease(raw: nat -> Tick<Fetch>, wait: real, poll: real) returns (outcome: Outcome<Json>, attempts: nat)
    requires SaneTicks(raw)
    ensures attempts > 0
    ensures forall k: nat :: k < attempts - 1 ==> raw(k).result == HttpError(404)
    ensures match raw(attempts - 1).result
      case Payload(v) => outcome == if v.Obj? then Got(v) else Raised
      case HttpError(code) => outcome == if code == 404 then TimedOut else Raised
      case NetworkError => outcome == Raised
    ensures outcome.TimedOut? ==> Finish(Reading(raw, FetchAttempt), wait, poll, attempts - 1) >= Deadline(wait)
  {
    var env := Reading(raw, FetchAttempt);
    ReadingIsSane(raw, FetchAttempt);
    var now;
    outcome, attempts, now := WaitLoop(env, wait, poll);
    forall k: nat | k < attempts - 1 ensures raw(k).result == HttpError(404) {
      assert Continues(env, wait, poll, k);
      assert env(k).attempt == FetchAttempt(raw(k).result);
    }
  }

  /** One of pip's two messages for a version the index does not show stands somewhere in its output. */
  ghost predicate NotYetThere(i: Install) {
    i.PipFailed? && exists a, b ::
      i.output == a + T("No matching distribution found") + b
      || i.output == a + T("Could not find a version that satisfies") + b
  }

  lemma OnlyPropagationIsPending(i: Install)
    ensures InstallAttempt(i).Pending? <==> NotYetThere(i)
    ensures i.PipFailed? && !NotYetThere(i) ==> InstallAttempt(i).Failed?
  {
    if i.PipFailed? {
      ContainsMeans(i.output, T("No matching distribution found"));
      ContainsMeans(i.output, T("Could not find a version that satisfies"));
      if InstallAttempt(i).Pending? {
        var a, b :| i.output == a + T("No matching distribution found") + b
          || i.output == a + T("Could not find a version that satisfies") + b;
        assert NotYetThere(i);
      }
    }
  }

  /** `wait_for_clean_install`: retries the propagation error and nothing else. */
  method WaitForCleanInstall(raw: nat -> Tick<Install>, wait: real, poll: real) returns (outcome: Outcome<Json>, attempts: nat)
    requires SaneTicks(raw)
    ensures attempts > 0
    ensures forall k: nat :: k < attempts - 1 ==> NotYetThere(raw(k).result)
    ensures match raw(attempts - 1).result
      case Installed(report) => outcome == Got(report)
      case PipFailed(_) => outcome == if NotYetThere(raw(attempts - 1).result) then TimedOut else Raised
      case SmokeFailed => outcome == Raised
    ensures outcome.TimedOut? ==> Finish(Reading(raw, InstallAttempt), wait, poll, attempts - 1) >= Deadline(wait)
  {
    var env := Reading(raw, InstallAttempt);
    ReadingIsSane(raw, InstallAttempt);
    var now;
    outcome, attempts, now := WaitLoop(env, wait, poll);
    OnlyPropagationIsPending(raw(attempts - 1).result);
    forall k: nat | k < attempts - 1 ensures NotYetThere(raw(k).result) {
      assert Continues(env, wait, poll, k);
      assert env(k).attempt == InstallAttempt(raw(k).result);
      OnlyPropagationIsPending(raw(k).result);
    }
  }

  // ---- bounds ----

  /** At least one attempt, and at most one more than tenths of a second in the wait. */
  lemma AttemptsAreBounded<P>(env: Environment<P>, wait: real, poll: real)
    requires Sane(env)
    ensures 1 <= Last(env, wait, poll, 0) + 1 <= Ceiling(10.0 * Deadline(wait)) + 1
  {
    var n := Last(env, wait, poll, 0);
    if n > 0 {
      ContinuesBefore(env, wait, poll, n - 1);
    } else {
      assert 10.0 * Deadline(wait) >= 0.0;
    }
  }

  /** Every attempt lasts at most `d` and every sleep is off by at most `jitter` in all. */
  ghost predicate Bounded<P>(env: Environment<P>, d: real, jitter: real) {
    forall k :: env(k).duration <= d && env(k).lag + env(k).overrun <= jitter
  }

  /** Consecutive attempts start close together. */
  lemma StartsAreClose<P>(env: Environment<P>, wait: real, poll: real, d: real, jitter: real, k: nat)
    requires Sane(env) && Bounded(env, d, jitter)
    ensures 0.1 <= Start(env, wait, poll, k + 1) - Start(env, wait, poll, k) <= d + Max(poll, 0.1) + jitter
  {
    assert env(k).duration <= d;
  }

  /** A timeout is reported no earlier than the wait and less than 0.1s, one attempt and the jitter after it. */
  lemma TimeoutWindow<P>(env: Environment<P>, wait: real, poll: real, d: real, jitter: real)
    requires Sane(env) && Bounded(env, d, jitter)
    ensures var n := Last(env, wait, poll, 0);
      env(n).attempt.Pending? ==>
        Deadline(wait) <= Finish(env, wait, poll, n) < Deadline(wait) + 0.1 + jitter + d
  {
    var n := Last(env, wait, poll, 0);
    assert env(n).duration <= d;
    if n > 0 {
      assert Continues(env, wait, poll, n - 1);
      assert env(n - 1).lag + env(n - 1).overrun <= jitter;
    }
    assert env(0).lag + env(0).overrun <= jitter;
  }

  // ---- detection ----

  /** From time `v` on an attempt finds the release, before it does not. */
  ghost predicate VisibleFrom<P>(env: Environment<P>, wait: real, poll: real, v: real)
    requires Sane(env)
  {
    forall k :: 0 <= k <= Last(env, wait, poll, 0) ==>
      if Start(env, wait, poll, k) >= v then env(k).attempt.Done? else env(k).attempt.Pending?
  }

  /** The sleep after an attempt that ends well before the deadline. */
  function Stride(poll: real): real { Max(poll, 0.1) }

  /** When the next attempt starts if the sleep begins at `x` and does not overrun. */
  function Next(wait: real, poll: real, x: real): real {
    x + Sleep(poll, Deadline(wait) - x)
  }

  /** How many whole strides fit strictly below `x`. */
  function Rounds(x: real, stride: real): (m: int)
    requires x > 0.0 && stride > 0.0
  {
    Ceiling(x / stride) - 1
  }

  function Times(k: int, x: real): real { k as real * x }

  lemma TimesOneMore(k: int, x: real)
    ensures Times(k + 1, x) == Times(k, x) + x && Times(0, x) == 0.0
  {
  }

  lemma TimesIsMonotone(j: int, k: int, x: real)
    requires j <= k && x >= 0.0
    ensures Times(j, x) <= Times(k, x)
  {
    assert (k - j) as real * x >= 0.0;
  }

  lemma ScalingKeepsOrder(a: real, b: real, c: real)
    requires c > 0.0
    ensures a * c < b * c <==> a < b
  {
    assert b * c - a * c == (b - a) * c;
    if a < b {
      assert (b - a) * c > 0.0;
    } else {
      assert (a - b) * c >= 0.0;
    }
  }

  lemma TimesBracket(m: int, n: int, q: real, stride: real)
    requires stride > 0.0 && m as real < q <= n as real
    ensures Times(m, stride) < q * stride <= Times(n, stride)
  {
    ScalingKeepsOrder(m as real, q, stride);
    ScalingKeepsOrder(n as real, q, stride);
  }

  lemma QuotientIs(x: real, stride: real)
    requires x > 0.0 && stride > 0.0
    ensures x / stride > 0.0 && x / stride * stride == x
  {
  }

  lemma RoundsAre(x: real, stride: real)
    requires x > 0.0 && stride > 0.0
    ensures var m := Rounds(x, stride); m >= 0 && Times(m, stride) < x <= Times(m + 1, stride)
  {
    QuotientIs(x, stride);
    var m := Rounds(x, stride);
    TimesBracket(m, m + 1, x / stride, stride);
  }

  /** The latest time at which a release can appear and no attempt of up to `d`, with delays of up to
      `jitter` in all after each, both misses it and ends the wait: the earliest time at which an
      attempt can start and last until the deadline. */
  function LatestSafe(wait: real, poll: real, d: real, jitter: real): real {
    var late := Deadline(wait) - d;
    if late <= 0.0 then 0.0
    else
      var m := Rounds(late, Stride(poll));
      if Times(m, Stride(poll) + d + jitter) >= late then late else Next(wait, poll, Times(m, Stride(poll)))
  }

  lemma NextIsMonotone(wait: real, poll: real, x: real, y: real)
    requires x <= y
    ensures Next(wait, poll, x) <= Next(wait, poll, y)
  {
  }

  lemma NextIsOneStride(wait: real, poll: real, x: real)
    requires x + Stride(poll) <= Deadline(wait)
    ensures Next(wait, poll, x) == x + Stride(poll)
  {
  }

  lemma StartFollows<P>(env: Environment<P>, wait: real, poll: real, k: nat)
    ensures Start(env, wait, poll, k + 1)
         == Next(wait, poll, Finish(env, wait, poll, k) + env(k).lag) + env(k).overrun
  {
  }

  lemma {:induction false} StartIsAtMost<P>(env: Environment<P>, wait: real, poll: real, d: real, jitter: real, k: nat)
    requires Sane(env) && Bounded(env, d, jitter)
    ensures Start(env, wait, poll, k) <= Times(k, Stride(poll) + d + jitter)
  {
    if k > 0 {
      StartIsAtMost(env, wait, poll, d, jitter, k - 1);
      StartsAreClose(env, wait, poll, d, jitter, k - 1);
      TimesOneMore(k - 1, Stride(poll) + d + jitter);
    } else {
      TimesOneMore(0, Stride(poll) + d + jitter);
    }
  }

  lemma {:induction false} StartIsAtLeast<P>(env: Environment<P>, wait: real, poll: real, k: nat)
    requires Sane(env) && Times(k, Stride(poll)) <= Deadline(wait)
    ensures Start(env, wait, poll, k) >= Times(k, Stride(poll))
  {
    if k > 0 {
      TimesOneMore(k - 1, Stride(poll));
      StartIsAtLeast(env, wait, poll, k - 1);
      StartFollows(env, wait, poll, k - 1);
      var x := Times(k - 1, Stride(poll));
      NextIsMonotone(wait, poll, x, Finish(env, wait, poll, k - 1) + env(k - 1).lag);
      NextIsOneStride(wait, poll, x);
    } else {
      TimesOneMore(0, Stride(poll));
    }
  }

  lemma {:induction false} StartsIncrease<P>(env: Environment<P>, wait: real, poll: real, j: nat, k: nat)
    requires Sane(env) && j <= k
    ensures Start(env, wait, poll, j) <= Start(env, wait, poll, k)
    decreases k
  {
    if j < k {
      StartsIncrease(env, wait, poll, j, k - 1);
    }
  }

  /** An attempt that can last until the deadline starts at `LatestSafe` or later. */
  lemma LateStarts<P>(env: Environment<P>, wait: real, poll: real, d: real, jitter: real, k: nat)
    requires Sane(env) && Bounded(env, d, jitter) && Start(env, wait, poll, k) >= Deadline(wait) - d
    ensures Start(env, wait, poll, k) >= LatestSafe(wait, poll, d, jitter)
  {
    var late, stride := Deadline(wait) - d, Stride(poll);
    StartsIncrease(env, wait, poll, 0, k);
    assert env(0).duration <= d;
    if late > 0.0 {
      RoundsAre(late, stride);
      var m := Rounds(late, stride);
      if Times(m, stride + d + jitter) < late {
        StartsBeyond(env, wait, poll, d, jitter, m, k);
        StartPastStrides(env, wait, poll, m);
        StartsIncrease(env, wait, poll, m + 1, k);
      }
    }
  }

  lemma StartsBeyond<P>(env: Environment<P>, wait: real, poll: real, d: real, jitter: real, m: nat, k: nat)
    requires Sane(env) && Bounded(env, d, jitter)
    requires Start(env, wait, poll, k) > Times(m, Stride(poll) + d + jitter)
    ensures k > m
  {
    assert env(0).duration <= d && env(0).lag + env(0).overrun <= jitter;
    StartIsAtMost(env, wait, poll, d, jitter, k);
    if k <= m {
      TimesIsMonotone(k, m, Stride(poll) + d + jitter);
    }
  }

  lemma StartPastStrides<P>(env: Environment<P>, wait: real, poll: real, m: nat)
    requires Sane(env) && Times(m, Stride(poll)) <= Deadline(wait)
    ensures Start(env, wait, poll, m + 1) >= Next(wait, poll, Times(m, Stride(poll)))
  {
    StartIsAtLeast(env, wait, poll, m);
    StartFollows(env, wait, poll, m);
    NextIsMonotone(wait, poll, Times(m, Stride(poll)), Finish(env, wait, poll, m) + env(m).lag);
  }

  /** A release that appears by `LatestSafe` and stays visible is always returned; with instantaneous
      attempts that is any release visible by the deadline. */
  lemma ReleaseIsDetected<P>(env: Environment<P>, wait: real, poll: real, d: real, jitter: real, v: real)
    requires Sane(env) && Bounded(env, d, jitter) && VisibleFrom(env, wait, poll, v)
    requires v <= LatestSafe(wait, poll, d, jitter)
    ensures env(Last(env, wait, poll, 0)).attempt.Done?
  {
    var n := Last(env, wait, poll, 0);
    assert env(n).duration <= d;
    if env(n).attempt.Pending? {
      LateStarts(env, wait, poll, d, jitter, n);
    }
  }

  lemma InstantAttemptsSeeTheDeadline(wait: real, poll: real, jitter: real)
    requires jitter >= 0.0
    ensures LatestSafe(wait, poll, 0.0, jitter) >= Deadline(wait)
  {
    var w, stride := Deadline(wait), Stride(poll);
    if w > 0.0 {
      RoundsAre(w, stride);
      TimesOneMore(Rounds(w, stride), stride);
    }
  }

  /** An environment in which nothing is ever found: `turns` attempts of the same length, each
      followed by the same overrun, then attempts that last `d`. */
  function Punctual(turns: nat, each: real, overrun: real, d: real): Environment<Json> {
    k => if k < turns then Turn(Pending, each, 0.0, overrun) else Turn(Pending, d, 0.0, 0.0)
  }

  lemma {:induction false} PunctualStarts(wait: real, poll: real, turns: nat, each: real, overrun: real, d: real, k: nat)
    requires each >= 0.0 && overrun >= 0.0 && k <= turns
    requires Times(k, Stride(poll) + each + overrun) <= Deadline(wait)
    ensures Start(Punctual(turns, each, overrun, d), wait, poll, k) == Times(k, Stride(poll) + each + overrun)
  {
    var step := Stride(poll) + each + overrun;
    TimesOneMore(0, step);
    if k > 0 {
      TimesOneMore(k - 1, step);
      PunctualStarts(wait, poll, turns, each, overrun, d, k - 1);
      StartFollows(Punctual(turns, each, overrun, d), wait, poll, k - 1);
      NextIsOneStride(wait, poll, Times(k - 1, step) + each);
    }
  }

  /** A run of this kind whose attempt `turns` starts before `v` and lasts past the deadline misses it. */
  lemma PunctualMisses(wait: real, poll: real, turns: nat, each: real, overrun: real, d: real, v: real)
    requires each >= 0.0 && overrun >= 0.0 && d >= 0.0
    requires Deadline(wait) - d <= Start(Punctual(turns, each, overrun, d), wait, poll, turns) < v
    ensures var env := Punctual(turns, each, overrun, d);
      Sane(env) && VisibleFrom(env, wait, poll, v) && env(Last(env, wait, poll, 0)).attempt.Pending?
  {
    var env := Punctual(turns, each, overrun, d);
    assert Sane(env);
    var n := Last(env, wait, poll, 0);
    assert !Continues(env, wait, poll, turns);
    assert n <= turns;
    forall k | 0 <= k <= n ensures Start(env, wait, poll, k) < v && env(k).attempt.Pending? {
      StartsIncrease(env, wait, poll, k, turns);
    }
  }

  /** Whatever appears after `LatestSafe` is missed in some environment within the same bounds. */
  lemma DetectionCanFail(wait: real, poll: real, d: real, jitter: real, v: real) returns (env: Environment<Json>)
    requires d >= 0.0 && jitter >= 0.0 && v > LatestSafe(wait, poll, d, jitter)
    ensures Sane(env) && Bounded(env, d, jitter) && VisibleFrom(env, wait, poll, v)
    ensures env(Last(env, wait, poll, 0)).attempt.Pending?
  {
    var late, stride := Deadline(wait) - d, Stride(poll);
    if late <= 0.0 {
      env := Punctual(0, 0.0, 0.0, d);
      PunctualMisses(wait, poll, 0, 0.0, 0.0, d, v);
    } else {
      RoundsAre(late, stride);
      var m := Rounds(late, stride);
      if Times(m, stride + d + jitter) >= late {
        env := SpreadMisses(wait, poll, m, d, jitter, v);
      } else {
        env := StrideMisses(wait, poll, m, d, v);
      }
    }
  }

  /** Turns stretched so that an attempt starts as late as it can and still last to the deadline. */
  lemma SpreadMisses(wait: real, poll: real, m: nat, d: real, jitter: real, v: real) returns (env: Environment<Json>)
    requires d >= 0.0 && jitter >= 0.0
    requires var late := Deadline(wait) - d;
      0.0 < late < v && Times(m, Stride(poll)) < late <= Times(m, Stride(poll) + d + jitter)
    ensures Sane(env) && Bounded(env, d, jitter) && VisibleFrom(env, wait, poll, v)
    ensures env(Last(env, wait, poll, 0)).attempt.Pending?
  {
    var each, overrun := Spread(Deadline(wait) - d, Stride(poll), m, d, jitter);
    env := Punctual(m, each, overrun, d);
    PunctualStarts(wait, poll, m, each, overrun, d, m);
    PunctualMisses(wait, poll, m, each, overrun, d, v);
  }

  /** Turns that cannot be stretched so far: the first start past the gap is one sleep after `m` strides. */
  lemma StrideMisses(wait: real, poll: real, m: nat, d: real, v: real) returns (env: Environment<Json>)
    requires d >= 0.0 && Times(m, Stride(poll)) < Deadline(wait) - d <= Times(m + 1, Stride(poll))
    requires v > Next(wait, poll, Times(m, Stride(poll)))
    ensures Sane(env) && Bounded(env, d, 0.0) && VisibleFrom(env, wait, poll, v)
    ensures env(Last(env, wait, poll, 0)).attempt.Pending?
  {
    env := Punctual(m + 1, 0.0, 0.0, d);
    PunctualStarts(wait, poll, m + 1, 0.0, 0.0, d, m);
    StartFollows(env, wait, poll, m);
    StartIsLate(wait, poll, d, m);
    PunctualMisses(wait, poll, m + 1, 0.0, 0.0, d, v);
  }

  lemma StartIsLate(wait: real, poll: real, d: real, m: nat)
    requires d >= 0.0 && Deadline(wait) - d <= Times(m + 1, Stride(poll))
    ensures Next(wait, poll, Times(m, Stride(poll))) >= Deadline(wait) - d
  {
    TimesOneMore(m, Stride(poll));
  }

  lemma TimesIsPositive(m: nat, x: real)
    requires Times(m, x) > 0.0
    ensures m > 0
  {
    TimesOneMore(0, x);
  }

  lemma TimesKeepsOrder(m: nat, x: real, y: real)
    requires m > 0
    ensures Times(m, x) < Times(m, y) <==> x < y
  {
    ScalingKeepsOrder(x, y, m as real);
  }

  /** Attempt time and overrun that make `m` turns end exactly at `late`. */
  lemma Spread(late: real, stride: real, m: nat, d: real, jitter: real) returns (each: real, overrun: real)
    requires d >= 0.0 && jitter >= 0.0 && 0.0 < late
    requires Times(m, stride) < late <= Times(m, stride + d + jitter)
    ensures 0.0 <= each <= d && 0.0 <= overrun <= jitter && Times(m, stride + each + overrun) == late
  {
    TimesIsPositive(m, stride + d + jitter);
    var part := late / m as real;
    TimesKeepsOrder(m, stride, part);
    TimesKeepsOrder(m, part, stride + d + jitter);
    assert Times(m, part) == late;
    each := Min(part - stride, d);
    overrun := part - stride - each;
    assert stride + each + overrun == part;
  }

  /** The condition is exact, for every wait, poll interval and pair of bounds: each environment within
      the bounds detects a release that appears at `v` just when `v` is at most `LatestSafe`. */
  lemma DetectionIsExact(wait: real, poll: real, d: real, jitter: real, v: real)
    requires d >= 0.0 && jitter >= 0.0
    ensures v <= LatestSafe(wait, poll, d, jitter) <==>
      forall env: Environment<Json> :: Sane(env) && Bounded(env, d, jitter) && VisibleFrom(env, wait, poll, v) ==>
        env(Last(env, wait, poll, 0)).attempt.Done?
  {
    if v <= LatestSafe(wait, poll, d, jitter) {
      forall env: Environment<Json> | Sane(env) && Bounded(env, d, jitter) && VisibleFrom(env, wait, poll, v)
        ensures env(Last(env, wait, poll, 0)).attempt.Done?
      {
        ReleaseIsDetected(env, wait, poll, d, jitter, v);
      }
    } else {
      var env := DetectionCanFail(wait, poll, d, jitter, v);
    }
  }
}
