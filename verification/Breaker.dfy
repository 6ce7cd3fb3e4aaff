/** The per-adapter circuit breaker and the retry loop that honours it. Clock readings are reals. */
module Breaker {
  import opened Orders

  /** The breaker's two counters as a value. */
  datatype Armed = Armed(failures: nat, openedAt: Option<real>) {
    /** Whether a call at `now` is let through. */
    predicate Admits(now: real, cooldown: real) { openedAt.None? || now - openedAt.value >= cooldown }

    function Succeed(): Armed { Armed(0, None) }

    function Fail(now: real, threshold: int): Armed {
      Armed(failures + 1, if failures + 1 >= threshold then Some(now) else openedAt)
    }
  }

  const CLOSED := Armed(0, None)

  class CircuitBreaker {
    const threshold: int
    const cooldown: real
    var failures: nat
    var openedAt: Option<real>

    constructor (threshold: int, cooldown: real)
      ensures this.threshold == threshold && this.cooldown == cooldown && View() == CLOSED
    {
      this.threshold, this.cooldown := threshold, cooldown;
      failures, openedAt := 0, None;
    }

    function View(): Armed reads this { Armed(failures, openedAt) }

    /** Refuses while open; once the cooldown has passed, disarms and lets one probe through. */
    method BeforeCall(now: real) returns (admitted: bool)
      modifies this
      ensures admitted == old(View()).Admits(now, cooldown)
      ensures View() == if admitted then old(View()).(openedAt := None) else old(View())
    {
      if openedAt.None? { return true; }
      if now - openedAt.value < cooldown { return false; }
      openedAt := None;
      admitted := true;
    }

    method OnSuccess()
      modifies this
      ensures View() == old(View()).Succeed()
    {
      failures, openedAt := 0, None;
    }

    method OnFailure(now: real)
      modifies this
      ensures View() == old(View()).Fail(now, threshold)
    {
      failures := failures + 1;
      if failures >= threshold { openedAt := Some(now); }
    }
  }

  // -- throttling --------------------------------------------------------------------------------

  /** One attempt to call through the breaker: when it was tried, when it ended, how it went. */
  datatype Call = Call(start: real, end: real, succeeded: bool)

  function Step(b: Armed, c: Call, threshold: int, cooldown: real): Armed {
    if !b.Admits(c.start, cooldown) then b
    else if c.succeeded then b.(openedAt := None).Succeed()
    else b.(openedAt := None).Fail(c.end, threshold)
  }

  function After(b: Armed, calls: seq<Call>, threshold: int, cooldown: real): Armed {
    if calls == [] then b
    else Step(After(b, calls[..|calls| - 1], threshold, cooldown), calls[|calls| - 1], threshold, cooldown)
  }

  /** What a breaker remembers of its history, said without one: how many operations have failed since the
      last success, and when the last of them ended. */
  datatype Memory = Memory(streak: nat, ended: real)

  function Remembered(calls: seq<Call>, threshold: int, cooldown: real): Memory {
    if calls == [] then Memory(0, 0.0)
    else
      var m := Remembered(calls[..|calls| - 1], threshold, cooldown);
      var c := calls[|calls| - 1];
      if m.streak >= threshold && c.start < m.ended + cooldown then m
      else if c.succeeded then Memory(0, c.end)
      else Memory(m.streak + 1, c.end)
  }

  /** A call is refused exactly when the operations since the last success have failed at least the
      threshold's number of times and the last of them ended less than a cooldown ago. */
  lemma {:induction false} RefusedIff(calls: seq<Call>, threshold: int, cooldown: real, now: real)
    requires threshold >= 1
    ensures var m := Remembered(calls, threshold, cooldown);
      && After(CLOSED, calls, threshold, cooldown) == Armed(m.streak, if m.streak >= threshold then Some(m.ended) else None)
      && (!After(CLOSED, calls, threshold, cooldown).Admits(now, cooldown) <==> m.streak >= threshold && now < m.ended + cooldown)
  {
    if calls != [] { RefusedIff(calls[..|calls| - 1], threshold, cooldown, calls[|calls| - 1].start); }
  }

  lemma {:induction false} AfterJoins(b: Armed, xs: seq<Call>, ys: seq<Call>, threshold: int, cooldown: real)
    ensures After(b, xs + ys, threshold, cooldown) == After(After(b, xs, threshold, cooldown), ys, threshold, cooldown)
  {
    hide Step;
    if ys == [] {
      assert xs + ys == xs;
    } else {
      var n := |ys| - 1;
      assert (xs + ys)[..|xs + ys| - 1] == xs + ys[..n];
      AfterJoins(b, xs, ys[..n], threshold, cooldown);
    }
  }

  /** A success wipes the slate: what comes after runs as on a breaker never used. */
  lemma SuccessForgets(b: Armed, before: seq<Call>, c: Call, rest: seq<Call>, threshold: int, cooldown: real)
    requires c.succeeded && After(b, before, threshold, cooldown).Admits(c.start, cooldown)
    ensures After(b, before + [c] + rest, threshold, cooldown) == After(CLOSED, rest, threshold, cooldown)
  {
    AfterJoins(b, before + [c], rest, threshold, cooldown);
    assert (before + [c])[..|before|] == before;
  }

  /** How many of the calls the breaker let through to the adapter. */
  function Operations(b: Armed, calls: seq<Call>, threshold: int, cooldown: real): nat {
    if calls == [] then 0
    else
      var before := calls[..|calls| - 1];
      Operations(b, before, threshold, cooldown)
        + if After(b, before, threshold, cooldown).Admits(calls[|calls| - 1].start, cooldown) then 1 else 0
  }

  /** Calls follow one another on one clock. */
  ghost predicate Sequential(calls: seq<Call>) {
    && (forall i :: 0 <= i < |calls| ==> calls[i].start <= calls[i].end)
    && (forall i :: 0 <= i < |calls| - 1 ==> calls[i].end <= calls[i + 1].start)
  }

  ghost predicate Failing(calls: seq<Call>) { forall i :: 0 <= i < |calls| ==> !calls[i].succeeded }

  /** Open means the failures have reached the threshold. */
  predicate Sane(b: Armed, threshold: int) { b.openedAt.Some? ==> b.failures >= threshold }

  lemma {:induction false} BreakerStaysSane(calls: seq<Call>, threshold: int, cooldown: real)
    requires threshold >= 1
    ensures Sane(After(CLOSED, calls, threshold, cooldown), threshold)
  {
    if calls != [] { BreakerStaysSane(calls[..|calls| - 1], threshold, cooldown); }
  }

  /** How many failures the breaker still lets through before it spaces them out: those it tolerates,
      or the one probe of a breaker already at its threshold. */
  function Slack(b: Armed, threshold: int): nat { if b.failures < threshold then threshold - b.failures else 1 }

  /** What holds after `n` failing operations since `first`, the last call having started at `last`:
      past the slack the breaker is open and every operation has taken a cooldown. */
  ghost predicate SpreadOut(b: Armed, n: nat, after: Armed, first: real, last: real, threshold: int, cooldown: real) {
    && after.failures == b.failures + n
    && (n == 0 ==> after.openedAt == b.openedAt)
    && (0 < n < Slack(b, threshold) ==> after.openedAt.None?)
    && (n >= Slack(b, threshold) ==>
         && after.openedAt.Some?
         && first + ((n - Slack(b, threshold)) as real) * cooldown <= after.openedAt.value
         && first + ((n - Slack(b, threshold)) as real) * cooldown <= last)
  }

  lemma OneMoreFailure(b: Armed, n: nat, mid: Armed, first: real, last: real, c: Call, threshold: int, cooldown: real)
    requires threshold >= 1 && cooldown > 0.0 && Sane(b, threshold)
    requires !c.succeeded && first <= last <= c.start <= c.end
    requires SpreadOut(b, n, mid, first, last, threshold, cooldown)
    ensures SpreadOut(b, if mid.Admits(c.start, cooldown) then n + 1 else n, Step(mid, c, threshold, cooldown), first, c.start, threshold, cooldown)
  {
    if n >= Slack(b, threshold) { OneMoreCooldown(n - Slack(b, threshold), cooldown); }
  }

  lemma {:induction false} FailuresSpreadOut(b: Armed, calls: seq<Call>, threshold: int, cooldown: real)
    requires threshold >= 1 && cooldown > 0.0 && Sane(b, threshold) && Sequential(calls) && Failing(calls) && calls != []
    ensures SpreadOut(b, Operations(b, calls, threshold, cooldown), After(b, calls, threshold, cooldown),
      calls[0].start, calls[|calls| - 1].start, threshold, cooldown)
  {
    hide SpreadOut, Step, Armed.Admits;
    var m := |calls| - 1;
    if m == 0 {
      NothingSpent(b, calls[0].start, threshold, cooldown);
      assert calls[..0] == [];
      OneMoreFailure(b, 0, b, calls[0].start, calls[0].start, calls[0], threshold, cooldown);
    } else {
      FailuresSpreadOut(b, calls[..m], threshold, cooldown);
      StartsInOrder(calls, m - 1);
      OneMoreFailure(b, Operations(b, calls[..m], threshold, cooldown), After(b, calls[..m], threshold, cooldown),
        calls[0].start, calls[m - 1].start, calls[m], threshold, cooldown);
    }
  }

  lemma NothingSpent(b: Armed, first: real, threshold: int, cooldown: real)
    ensures SpreadOut(b, 0, b, first, first, threshold, cooldown)
  {
  }

  lemma OneMoreCooldown(k: nat, cooldown: real)
    ensures ((k + 1) as real) * cooldown == (k as real) * cooldown + cooldown
  {
  }

  lemma {:induction false} StartsInOrder(calls: seq<Call>, k: nat)
    requires Sequential(calls) && k < |calls|
    ensures calls[0].start <= calls[k].start
  {
    if k > 0 { StartsInOrder(calls, k - 1); }
  }

  lemma CooldownsFit(k: nat, cooldown: real, w: real)
    requires cooldown > 0.0 && (k as real) * cooldown <= w
    ensures k <= (w / cooldown).Floor
  {
    assert k as real <= w / cooldown;
  }

  /** Throttling: from any state of the breaker, a success-free stretch of length `w` lets through at
      most the slack and then one operation per cooldown. */
  lemma FailingStretchIsThrottled(b: Armed, calls: seq<Call>, threshold: int, cooldown: real, w: real)
    requires threshold >= 1 && cooldown > 0.0 && Sane(b, threshold) && Sequential(calls) && Failing(calls)
    requires w >= 0.0 && calls != [] && calls[|calls| - 1].start - calls[0].start <= w
    ensures Operations(b, calls, threshold, cooldown) <= Slack(b, threshold) + (w / cooldown).Floor
    ensures Operations(b, calls, threshold, cooldown) <= threshold + (w / cooldown).Floor
  {
    hide Operations, After;
    FailuresSpreadOut(b, calls, threshold, cooldown);
    var n := Operations(b, calls, threshold, cooldown);
    CooldownsFit(0, cooldown, w);
    if n >= Slack(b, threshold) { CooldownsFit(n - Slack(b, threshold), cooldown, w); }
  }

  /** The same over any history: every success-free stretch of it is throttled. */
  lemma EveryStretchIsThrottled(history: seq<Call>, i: nat, j: nat, threshold: int, cooldown: real, w: real)
    requires threshold >= 1 && cooldown > 0.0 && w >= 0.0 && i < j <= |history|
    requires Sequential(history) && Failing(history[i..j]) && history[j - 1].start - history[i].start <= w
    ensures Operations(After(CLOSED, history[..i], threshold, cooldown), history[i..j], threshold, cooldown)
      <= threshold + (w / cooldown).Floor
  {
    hide Operations, After, Step;
    BreakerStaysSane(history[..i], threshold, cooldown);
    FailingStretchIsThrottled(After(CLOSED, history[..i], threshold, cooldown), history[i..j], threshold, cooldown, w);
  }

  // -- retries -----------------------------------------------------------------------------------

  datatype Outcome = Success(value: int) | Failure(retryable: bool)

  /** What the caller gets: the value, the adapter's own error, a refusal by the open breaker, or the
      exhaustion error. */
  datatype Result = Returned(value: int) | Raised | CircuitOpen | Exhausted

  function Pow2(n: nat): nat { if n == 0 then 1 else 2 * Pow2(n - 1) }

  /** One `with_retry` call: `operation(k)` is the k-th invocation's outcome, `clock(k)` the k-th
      reading, and `guarded` says whether a breaker was passed. */
  datatype Retry = Retry(
    operation: nat -> Outcome, clock: nat -> real, attempts: int, baseDelay: real,
    guarded: bool, threshold: int, cooldown: real)
  {
    function Limit(): nat { if attempts < 1 then 1 else attempts }
  }

  /** How a call ends: its result, how often the operation ran, how long it slept, the breaker left. */
  datatype Trial = Trial(result: Result, invoked: nat, slept: real, breaker: Armed)

  function Disarm(r: Retry, b: Armed): Armed { if r.guarded then b.(openedAt := None) else b }

  /** `n` base delays. */
  function Delays(base: real, n: int): real { base * (n as real) }

  /** What remains of a call after `k` retried invocations and `reading` clock readings. */
  function Try(r: Retry, k: nat, reading: nat, b: Armed): Trial
    decreases r.Limit() - k
  {
    if k >= r.Limit() then Trial(Exhausted, k, 0.0, b)
    else if r.guarded && !b.Admits(r.clock(reading), r.cooldown) then Trial(CircuitOpen, k, 0.0, b)
    else
      match r.operation(k)
      case Success(value) => Trial(Returned(value), k + 1, 0.0, if r.guarded then b.Succeed() else b)
      case Failure(retryable) =>
        var failed := if r.guarded then Disarm(r, b).Fail(r.clock(reading + 1), r.threshold) else b;
        if !retryable || k + 1 == r.attempts then Trial(Raised, k + 1, 0.0, failed)
        else
          var rest := Try(r, k + 1, if r.guarded then reading + 2 else reading, failed);
          rest.(slept := Delays(r.baseDelay, Pow2(k)) + rest.slept)
  }

  /** The retry loop. With no breaker the view passed back is the one it was given. */
  method WithRetry(r: Retry, breaker: CircuitBreaker?) returns (result: Result, invoked: nat, slept: real)
    requires r.guarded <==> breaker != null
    requires breaker != null ==> r.threshold == breaker.threshold && r.cooldown == breaker.cooldown
    modifies breaker
    ensures var t := Try(r, 0, 0, if breaker == null then CLOSED else old(breaker.View()));
      && result == t.result && invoked == t.invoked && slept == t.slept
      && (breaker != null ==> breaker.View() == t.breaker)
  {
    hide Delays, Pow2;
    ghost var whole := Try(r, 0, 0, if breaker == null then CLOSED else breaker.View());
    var attempt, reading := 1, 0;
    invoked, slept := 0, 0.0;
    while attempt <= r.Limit()
      invariant 1 <= attempt <= r.Limit() + 1 && invoked == attempt - 1
      invariant var rest := Try(r, invoked, reading, if breaker == null then CLOSED else breaker.View());
        whole == rest.(slept := slept + rest.slept)
    {
      if breaker != null {
        var admitted := breaker.BeforeCall(r.clock(reading));
        reading := reading + 1;
        if !admitted { return CircuitOpen, invoked, slept; }
      }
      var outcome := r.operation(invoked);
      invoked := invoked + 1;
      if outcome.Success? {
        if breaker != null { breaker.OnSuccess(); }
        return Returned(outcome.value), invoked, slept;
      }
      if breaker != null {
        breaker.OnFailure(r.clock(reading));
        reading := reading + 1;
      }
      if !outcome.retryable || attempt == r.attempts { return Raised, invoked, slept; }
      slept := slept + Delays(r.baseDelay, Pow2(attempt - 1));
      attempt := attempt + 1;
    }
    result := Exhausted;
  }

  /** Every invocation but the last failed retryably, and each way of ending says how. */
  lemma {:induction false} TryMeans(r: Retry, k: nat, reading: nat, b: Armed)
    requires k <= r.Limit()
    ensures var t := Try(r, k, reading, b);
      && k <= t.invoked <= r.Limit()
      && (forall i :: k <= i < t.invoked - 1 ==> r.operation(i).Failure? && r.operation(i).retryable)
      && (t.result.Returned? ==> t.invoked > k && r.operation(t.invoked - 1) == Success(t.result.value))
      && (t.result.Raised? ==>
           && t.invoked > k && r.operation(t.invoked - 1).Failure?
           && (!r.operation(t.invoked - 1).retryable || t.invoked == r.attempts))
      && (t.result.CircuitOpen? ==> r.guarded && t.breaker.openedAt.Some?)
      && (t.result.Exhausted? && r.attempts >= 1 ==> k >= r.Limit())
    decreases r.Limit() - k
  {
    if k < r.Limit() && !(r.guarded && !b.Admits(r.clock(reading), r.cooldown)) {
      match r.operation(k)
      case Success(_) =>
      case Failure(retryable) =>
        var failed := if r.guarded then Disarm(r, b).Fail(r.clock(reading + 1), r.threshold) else b;
        if retryable && k + 1 != r.attempts {
          TryMeans(r, k + 1, if r.guarded then reading + 2 else reading, failed);
        }
    }
  }

  /** Sleeps double, and the last invocation never sleeps when at least one attempt was asked for. */
  lemma {:induction false} TrySleeps(r: Retry, k: nat, reading: nat, b: Armed)
    requires k < r.Limit() && r.baseDelay >= 0.0 && r.attempts >= 1
    ensures 0.0 <= Try(r, k, reading, b).slept <= Delays(r.baseDelay, Pow2(r.attempts - 1) - Pow2(k))
    decreases r.Limit() - k
  {
    hide Delays;
    SleepBound(k, r.attempts - 1, r.baseDelay);
    if !(r.guarded && !b.Admits(r.clock(reading), r.cooldown)) && r.operation(k).Failure? {
      var failed := if r.guarded then Disarm(r, b).Fail(r.clock(reading + 1), r.threshold) else b;
      if r.operation(k).retryable && k + 1 != r.attempts {
        var next := if r.guarded then reading + 2 else reading;
        TrySleeps(r, k + 1, next, failed);
        SleepSum(r.baseDelay, Pow2(k), Pow2(r.attempts - 1));
      }
    }
  }

  /** The calls a retry makes of its breaker: each invocation's readings and how it went. */
  function Trace(r: Retry, k: nat, reading: nat, n: nat): seq<Call> {
    seq(n, i requires 0 <= i < n => Call(r.clock(reading + 2 * i), r.clock(reading + 2 * i + 1), r.operation(k + i).Success?))
  }

  /** How often a call slept: after every invocation but the one it ended on. */
  function Slept(t: Trial, k: nat): int { t.invoked - k - if t.result.Returned? || t.result.Raised? then 1 else 0 }

  /** A retry sleeps exactly base, twice base, four times base and so on, once between invocations; and it
      leaves the breaker as its invocations alone would, one after another, the refused one changing
      nothing. With no breaker there is none to change. */
  lemma {:induction false} TryIsExact(r: Retry, k: nat, reading: nat, b: Armed)
    requires k <= r.Limit()
    ensures var t := Try(r, k, reading, b);
      && t.invoked >= k && Slept(t, k) >= 0
      && t.slept == Delays(r.baseDelay, Pow2(k + Slept(t, k)) - Pow2(k))
      && t.breaker == if r.guarded then After(b, Trace(r, k, reading, t.invoked - k), r.threshold, r.cooldown) else b
    decreases r.Limit() - k
  {
    hide Delays, Pow2, After;
    NothingTried(r, k, reading, b);
    if k < r.Limit() && !(r.guarded && !b.Admits(r.clock(reading), r.cooldown)) {
      OneTried(r, k, reading, b);
      match r.operation(k)
      case Success(_) =>
      case Failure(retryable) =>
        var failed := if r.guarded then Disarm(r, b).Fail(r.clock(reading + 1), r.threshold) else b;
        if retryable && k + 1 != r.attempts {
          var next := if r.guarded then reading + 2 else reading;
          TryIsExact(r, k + 1, next, failed);
          var rest := Try(r, k + 1, next, failed);
          Doubling(r.baseDelay, k, k + 1 + Slept(rest, k + 1));
          if r.guarded { TraceGrows(r, k, reading, rest.invoked - k, b); }
        }
    }
  }

  lemma NothingTried(r: Retry, k: nat, reading: nat, b: Armed)
    ensures Delays(r.baseDelay, Pow2(k) - Pow2(k)) == 0.0
    ensures After(b, Trace(r, k, reading, 0), r.threshold, r.cooldown) == b
  {
  }

  lemma OneTried(r: Retry, k: nat, reading: nat, b: Armed)
    requires r.guarded ==> b.Admits(r.clock(reading), r.cooldown)
    ensures var after := After(b, Trace(r, k, reading, 1), r.threshold, r.cooldown);
      r.guarded ==> after == if r.operation(k).Success? then b.Succeed() else Disarm(r, b).Fail(r.clock(reading + 1), r.threshold)
  {
    var one := Trace(r, k, reading, 1);
    assert one[..0] == [] && After(b, [], r.threshold, r.cooldown) == b;
  }

  lemma TraceGrows(r: Retry, k: nat, reading: nat, n: nat, b: Armed)
    requires n >= 1
    ensures After(b, Trace(r, k, reading, n), r.threshold, r.cooldown) ==
      After(After(b, Trace(r, k, reading, 1), r.threshold, r.cooldown), Trace(r, k + 1, reading + 2, n - 1), r.threshold, r.cooldown)
  {
    assert Trace(r, k, reading, n) == Trace(r, k, reading, 1) + Trace(r, k + 1, reading + 2, n - 1);
    AfterJoins(b, Trace(r, k, reading, 1), Trace(r, k + 1, reading + 2, n - 1), r.threshold, r.cooldown);
  }

  lemma Doubling(base: real, k: nat, m: nat)
    ensures Delays(base, Pow2(k)) + Delays(base, Pow2(m) - Pow2(k + 1)) == Delays(base, Pow2(m) - Pow2(k))
  {
  }

  lemma SleepSum(base: real, p: nat, q: int)
    requires base >= 0.0
    ensures Delays(base, p) + Delays(base, q - 2 * p) == Delays(base, q - p)
    ensures Delays(base, p) >= 0.0
  {
  }

  /** Retrying is bounded: at most `attempts` invocations and `base * (2^(attempts-1) - 1)` of sleep. */
  lemma RetryIsBounded(r: Retry, b: Armed)
    requires r.baseDelay >= 0.0 && r.attempts >= 1
    ensures var t := Try(r, 0, 0, b);
      t.invoked <= r.attempts && t.slept <= Delays(r.baseDelay, Pow2(r.attempts - 1) - 1) && !t.result.Exhausted?
  {
    TryMeans(r, 0, 0, b);
    TrySleeps(r, 0, 0, b);
  }

  /** Asked for fewer than one attempt, a call that the breaker admits is still made, once: the bound
      holds only for a refused call asked for none. It then sleeps one base delay before giving up if
      that one call failed retryably, and only then. */
  lemma FewerThanOneAttempt(r: Retry, b: Armed)
    requires r.attempts < 1
    ensures var t := Try(r, 0, 0, b);
      var admitted := r.guarded ==> b.Admits(r.clock(0), r.cooldown);
      && t.invoked == (if admitted then 1 else 0)
      && (t.invoked <= r.attempts <==> !admitted && r.attempts == 0)
      && (t.result.Exhausted? <==> admitted && r.operation(0).Failure? && r.operation(0).retryable)
      && t.slept == (if t.result.Exhausted? then r.baseDelay else 0.0)
  {
    assert r.Limit() == 1 && Pow2(0) == 1;
    assert Delays(r.baseDelay, 1) == r.baseDelay;
  }

  lemma {:induction false} SleepBound(a: nat, b: nat, base: real)
    requires a <= b && base >= 0.0
    ensures Pow2(a) <= Pow2(b) && 0.0 <= Delays(base, Pow2(b) - Pow2(a))
    decreases b - a
  {
    if a < b { SleepBound(a, b - 1, base); }
  }
}
