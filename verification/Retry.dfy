/** Bounded retry with exponential backoff and jitter, from fcm/register.go. */
module Retry {
  import opened Options
  import opened NumberTheory

  // ---------- error classification ----------

  /** Errors by the links of their wrapping chain. */
  datatype Error =
    | Canceled
    | DeadlineExceeded
    | Transient(inner: Error)
    | HttpStatus(status: int)
    | NetError(cause: Option<Error>)
    | Wrapped(inner: Error)
    | Plain

  /** `errors.As` / `errors.Is`: some error of the chain satisfies p. */
  function Find(e: Error, p: Error -> bool): Option<Error>
    decreases e
  {
    if p(e) then Some(e)
    else
      match e
      case Transient(i) => Find(i, p)
      case Wrapped(i) => Find(i, p)
      case NetError(Some(i)) => Find(i, p)
      case _ => None
  }

  predicate RetryableStatus(status: int) {
    status == 429 || status >= 500
  }

  /** A deadline error is itself a `net.Error`, but is excluded first. */
  predicate IsTransient(e: Error) {
    if Find(e, (x: Error) => x.Canceled? || x.DeadlineExceeded?).Some? then false
    else if Find(e, (x: Error) => x.Transient?).Some? then true
    else
      match Find(e, (x: Error) => x.HttpStatus?)
      case Some(h) => h.HttpStatus? && RetryableStatus(h.status)
      case None => Find(e, (x: Error) => x.NetError?).Some?
  }

  /** The errors of the chain, outermost first. */
  function Links(e: Error): seq<Error> {
    match e
    case Transient(i) => [e] + Links(i)
    case Wrapped(i) => [e] + Links(i)
    case NetError(Some(i)) => [e] + Links(i)
    case _ => [e]
  }

  /** `Find` gives the outermost link that satisfies p. */
  lemma {:induction false} FindIsFirst(e: Error, p: Error -> bool)
    ensures match Find(e, p)
            case None => forall i :: 0 <= i < |Links(e)| ==> !p(Links(e)[i])
            case Some(x) => exists k :: First(Links(e), p, k) && Links(e)[k] == x
    decreases e, 0
  {
    if p(e) {
      assert First(Links(e), p, 0);
    } else {
      match e
      case Transient(i) => FindInside(e, i, p);
      case Wrapped(i) => FindInside(e, i, p);
      case NetError(Some(i)) => FindInside(e, i, p);
      case _ =>
    }
  }

  predicate First(links: seq<Error>, p: Error -> bool, k: int) {
    0 <= k < |links| && p(links[k]) && forall j :: 0 <= j < k ==> !p(links[j])
  }

  lemma FindInside(e: Error, i: Error, p: Error -> bool)
    requires e in {Transient(i), Wrapped(i), NetError(Some(i))} && !p(e)
    ensures match Find(e, p)
            case None => forall k :: 0 <= k < |Links(e)| ==> !p(Links(e)[k])
            case Some(x) => exists k :: First(Links(e), p, k) && Links(e)[k] == x
    decreases i, 1
  {
    FindIsFirst(i, p);
    assert Links(e) == [e] + Links(i) && Find(e, p) == Find(i, p);
    if Find(i, p).Some? {
      var k :| First(Links(i), p, k) && Links(i)[k] == Find(i, p).value;
      assert First(Links(e), p, k + 1);
    }
  }

  /** What is worth retrying: no context error anywhere in the chain, and either a transient
      mark in it, or 429 or a status from 500 on as its outermost HTTP status, or a network
      error and no HTTP status at all. */
  lemma TransientExactly(e: Error)
    ensures IsTransient(e) <==>
      && (forall x :: x in Links(e) ==> !x.Canceled? && !x.DeadlineExceeded?)
      && (|| (exists x :: x in Links(e) && x.Transient?)
          || (exists k :: First(Links(e), (x: Error) => x.HttpStatus?, k) && (Links(e)[k].status == 429 || Links(e)[k].status >= 500))
          || ((forall x :: x in Links(e) ==> !x.HttpStatus?) && exists x :: x in Links(e) && x.NetError?))
  {
    FindIsFirst(e, (x: Error) => x.Canceled? || x.DeadlineExceeded?);
    FindIsFirst(e, (x: Error) => x.Transient?);
    FindIsFirst(e, (x: Error) => x.HttpStatus?);
    FindIsFirst(e, (x: Error) => x.NetError?);
  }

  /** Wrapping an error keeps its class; marking it transient makes it retryable unless a
      context error is inside. */
  lemma WrappingKeepsClass(e: Error)
    ensures IsTransient(Wrapped(e)) == IsTransient(e)
    ensures IsTransient(Transient(e)) <==> Find(e, (x: Error) => x.Canceled? || x.DeadlineExceeded?).None?
  {
    var context := (x: Error) => x.Canceled? || x.DeadlineExceeded?;
    var marked := (x: Error) => x.Transient?;
    var http := (x: Error) => x.HttpStatus?;
    var net := (x: Error) => x.NetError?;
    assert Find(Wrapped(e), context) == Find(e, context) && Find(Wrapped(e), marked) == Find(e, marked);
    assert Find(Wrapped(e), http) == Find(e, http) && Find(Wrapped(e), net) == Find(e, net);
    assert Find(Transient(e), context) == Find(e, context);
  }

  // ---------- the schedule ----------

  const INT64_LIMIT: int := 0x8000_0000_0000_0000

  type int64 = x: int | -INT64_LIMIT <= x < INT64_LIMIT

  /** Two's-complement 64-bit value of x. */
  function Wrap64(x: int): int64 {
    (x + INT64_LIMIT) % (2 * INT64_LIMIT) - INT64_LIMIT
  }

  datatype Config = Config(attempts: int, baseDelay: int64, maxDelay: int64)

  /** Durations are nanoseconds. */
  const SECOND: int64 := 1_000_000_000
  const FCM_RETRY := Config(8, SECOND, 30 * SECOND)

  /** `delay *= 2`, capped. */
  function NextDelay(delay: int64, maxDelay: int64): int64 {
    if Wrap64(delay * 2) > maxDelay then maxDelay else Wrap64(delay * 2)
  }

  /** The loop's `delay` when it waits for the i-th time. */
  function Delay(cfg: Config, i: nat): int64 {
    if i == 0 then cfg.baseDelay else NextDelay(Delay(cfg, i - 1), cfg.maxDelay)
  }

  /** Division as the source does it, towards zero. */
  function Half(delay: int): int {
    if delay >= 0 then delay / 2 else -((-delay) / 2)
  }

  /** The random call for the jitter panics when its argument, half the delay plus one, is
      not positive. */
  predicate Panics(delay: int) {
    Half(delay) + 1 <= 0
  }

  function Min(a: int, b: int): int {
    if a <= b then a else b
  }

  function Max(a: int, b: int): int {
    if a <= b then b else a
  }

  /** The delay before retry i as intended: doubled each time, never above the cap from the
      second on. */
  function Nominal(cfg: Config, i: nat): int {
    if i == 0 then cfg.baseDelay else Min(2 * Nominal(cfg, i - 1), cfg.maxDelay)
  }

  /** For delays that are not negative, base 0 and a base above the cap included. */
  lemma {:induction false} NominalClosed(cfg: Config, i: nat)
    requires 0 <= cfg.baseDelay && 0 <= cfg.maxDelay
    ensures Nominal(cfg, i) == if i == 0 then cfg.baseDelay else Min(cfg.baseDelay * Pow(2, i), cfg.maxDelay)
    ensures 0 <= Nominal(cfg, i) <= Max(cfg.baseDelay, cfg.maxDelay)
  {
    if i > 0 {
      NominalClosed(cfg, i - 1);
      Doubled(cfg.baseDelay, i);
    }
  }

  lemma Doubled(base: nat, i: nat)
    requires i > 0
    ensures base * Pow(2, i) == 2 * (base * Pow(2, i - 1)) >= 0
    ensures i == 1 ==> Pow(2, i - 1) == 1
  {
    var p := Pow(2, i - 1);
    assert base * (2 * p) == 2 * (base * p);
    Nonnegative(base, p);
  }

  lemma Nonnegative(a: nat, b: nat)
    ensures a * b >= 0
  {
  }

  const DOUBLING_LIMIT: int := 0x4000_0000_0000_0000

  /** One doubling is the intended one exactly below 2^62; from there on it turns negative,
      which is below any cap that is not, and the next wait panics whatever the cap. */
  lemma DoublingIff(delay: int64, maxDelay: int64)
    requires -1 <= delay
    ensures delay < DOUBLING_LIMIT ==> NextDelay(delay, maxDelay) == Min(2 * delay, maxDelay)
    ensures delay >= DOUBLING_LIMIT ==> NextDelay(delay, maxDelay) <= -2
  {
    if delay < DOUBLING_LIMIT {
      assert Wrap64(delay * 2) == delay * 2;
    } else {
      assert Wrap64(delay * 2) == delay * 2 - 2 * INT64_LIMIT;
    }
  }

  predicate NeverPanics(cfg: Config, waits: nat) {
    forall i :: 0 <= i < waits ==> !Panics(Delay(cfg, i))
  }

  predicate AllNominal(cfg: Config, waits: nat) {
    forall i :: 0 <= i < waits ==> Delay(cfg, i) == Nominal(cfg, i)
  }

  /** No nominal delay that is doubled for a further one of this many waits reaches 2^62. */
  predicate Doublable(cfg: Config, waits: nat) {
    forall i :: 0 <= i < waits - 1 ==> Nominal(cfg, i) < DOUBLING_LIMIT
  }

  predicate Waitable(cfg: Config, waits: nat) {
    forall i :: 0 <= i < waits ==> Nominal(cfg, i) >= -1
  }

  predicate Fits(cfg: Config, waits: nat) {
    Doublable(cfg, waits) && Waitable(cfg, waits)
  }

  /** The exact condition on a configuration, whatever its values: none of its first waits
      panics if and only if the nominal delays fit, and then the delays are the nominal ones. */
  lemma {:induction false} ScheduleIff(cfg: Config, waits: nat)
    ensures NeverPanics(cfg, waits) <==> Fits(cfg, waits)
    ensures Fits(cfg, waits) ==> AllNominal(cfg, waits)
  {
    if waits > 0 {
      ScheduleIff(cfg, waits - 1);
      LastWait(cfg, waits - 1);
    }
  }

  lemma LastWait(cfg: Config, i: nat)
    requires i > 0 ==> Delay(cfg, i - 1) == Nominal(cfg, i - 1) || !Fits(cfg, i)
    ensures NeverPanics(cfg, i) && Fits(cfg, i) ==>
              if Nominal(cfg, i) >= -1 && (i > 0 ==> Nominal(cfg, i - 1) < DOUBLING_LIMIT)
              then Delay(cfg, i) == Nominal(cfg, i) && !Panics(Delay(cfg, i))
              else Panics(Delay(cfg, i))
  {
    if i > 0 && Fits(cfg, i) {
      assert Nominal(cfg, i - 1) >= -1;
      DoublingIff(Delay(cfg, i - 1), cfg.maxDelay);
    }
  }

  /** With neither base nor cap negative, all delays are nominal exactly when no nominal
      delay that is still doubled reaches 2^62. */
  lemma NominalIff(cfg: Config, waits: nat)
    requires 0 <= cfg.baseDelay && 0 <= cfg.maxDelay
    ensures AllNominal(cfg, waits) <==> Doublable(cfg, waits)
    ensures Doublable(cfg, waits) <==> NeverPanics(cfg, waits)
  {
    ScheduleIff(cfg, waits);
    forall i | 0 <= i < waits ensures Nominal(cfg, i) >= -1 && !Panics(Nominal(cfg, i)) {
      NominalClosed(cfg, i);
    }
    assert Waitable(cfg, waits);
    assert AllNominal(cfg, waits) ==> NeverPanics(cfg, waits);
  }

  // ---------- the loop ----------

  /** What happens outside: the result of each call, the context's error when checked before
      a call or while waiting, and the random jitter. */
  datatype Environment = Environment(
    call: nat -> Option<Error>,
    before: nat -> Option<Error>,
    during: nat -> Option<Error>,
    jitter: (nat, nat) -> nat)

  /** `mrand.Int64N(n)` for the i-th wait. */
  function Jitter(env: Environment, i: nat, n: nat): (r: nat)
    requires n > 0
    ensures r < n
  {
    env.jitter(i, n) % n
  }

  /** waits[i] lies between half its delay and twice that half. */
  ghost predicate WaitsFit(cfg: Config, waits: seq<int>) {
    forall i :: 0 <= i < |waits| ==> WaitFits(Delay(cfg, i), waits[i])
  }

  predicate WaitFits(delay: int, wait: int) {
    Half(delay) <= wait <= 2 * Half(delay)
  }

  /** A wait is at least half its delay, rounded down, and at most the delay; the random call
      panics exactly for delays of -2 and below. */
  lemma WaitBounds(delay: int, wait: int)
    ensures delay >= 0 && WaitFits(delay, wait) ==> delay <= 2 * wait + 1 && wait <= delay
    ensures Panics(delay) <==> delay <= -2
  {
  }

  lemma WaitsMore(cfg: Config, waits: seq<int>, wait: int)
    requires WaitsFit(cfg, waits) && WaitFits(Delay(cfg, |waits|), wait)
    ensures WaitsFit(cfg, waits + [wait])
    ensures NeverPanics(cfg, |waits|) ==> NeverPanics(cfg, |waits + [wait]|)
  {
  }

  /** Calls 0..n-1 all failed with errors worth retrying. */
  predicate AllTransient(env: Environment, n: nat) {
    forall i :: 0 <= i < n ==> env.call(i).Some? && IsTransient(env.call(i).value)
  }

  /** No context error before n calls or during the waits between them. */
  predicate Uncancelled(env: Environment, n: nat) {
    (forall i :: 0 <= i < n ==> env.before(i).None?) && forall i :: 0 <= i < n - 1 ==> env.during(i).None?
  }

  /** Nor during the wait after the n-th call. */
  predicate NotStopped(env: Environment, n: nat) {
    Uncancelled(env, n) && (n > 0 ==> env.during(n - 1).None?)
  }

  /** After this many calls and these waits: every call but the last failed transiently, no
      context error went unnoticed, and each wait is one its delay allows. */
  ghost predicate Reached(cfg: Config, env: Environment, calls: nat, waits: seq<int>) {
    && calls <= Max(cfg.attempts, 0) && calls - 1 <= |waits| <= calls && (|waits| == 0 || |waits| < cfg.attempts)
    && (calls > 0 ==> AllTransient(env, calls - 1)) && Uncancelled(env, calls)
    && WaitsFit(cfg, waits) && NeverPanics(cfg, |waits|)
  }

  /** How the loop ended, with the result that goes with it. */
  datatype Ending =
    | NoAttempt                // none allowed
    | CancelledBefore          // the context ended before the next call
    | Succeeded
    | GaveUp                   // not worth retrying, or no retry left
    | RandomPanicked
    | CancelledDuring          // the context ended during a wait

  ghost predicate Ended(cfg: Config, env: Environment, how: Ending, err: Option<Error>, calls: nat, waits: seq<int>) {
    match how
    case NoAttempt => cfg.attempts <= 0 && err.None?
    case CancelledBefore =>
      calls < cfg.attempts && AllTransient(env, calls) && NotStopped(env, calls) && |waits| == calls
      && err == env.before(calls) && err.Some?
    case Succeeded => calls > 0 && |waits| == calls - 1 && env.call(calls - 1).None? && err.None?
    case GaveUp =>
      calls > 0 && |waits| == calls - 1 && err == env.call(calls - 1) && err.Some?
      && (!IsTransient(err.value) || calls == cfg.attempts)
    case RandomPanicked =>
      0 < calls < cfg.attempts && |waits| == calls - 1 && AllTransient(env, calls) && Panics(Delay(cfg, calls - 1)) && err.None?
    case CancelledDuring =>
      0 < calls < cfg.attempts && |waits| == calls && AllTransient(env, calls)
      && err == env.during(calls - 1) && err.Some?
  }

  /** The loop about to make its next call. */
  ghost predicate Going(cfg: Config, env: Environment, calls: nat, waits: seq<int>) {
    && (calls == 0 || calls < cfg.attempts) && |waits| == calls
    && AllTransient(env, calls) && NotStopped(env, calls) && WaitsFit(cfg, waits) && NeverPanics(cfg, calls)
  }

  lemma GoingReached(cfg: Config, env: Environment, calls: nat, waits: seq<int>)
    requires Going(cfg, env, calls, waits)
    ensures Reached(cfg, env, calls, waits)
    ensures calls < cfg.attempts && env.before(calls).None? ==> Reached(cfg, env, calls + 1, waits)
  {
  }

  /** One more wait, after a call that failed transiently. */
  lemma WaitedOnce(cfg: Config, env: Environment, calls: nat, waits: seq<int>, wait: int)
    requires Going(cfg, env, calls, waits) && calls + 1 < cfg.attempts && env.before(calls).None?
    requires env.call(calls).Some? && IsTransient(env.call(calls).value) && WaitFits(Delay(cfg, calls), wait)
    requires !Panics(Delay(cfg, calls))
    ensures Reached(cfg, env, calls + 1, waits + [wait]) && AllTransient(env, calls + 1)
    ensures env.during(calls).None? ==> Going(cfg, env, calls + 1, waits + [wait])
  {
    WaitsMore(cfg, waits, wait);
  }

  /** `retryWith` on every configuration; a panic of the random call is an ending too. */
  method RetryWith(cfg: Config, env: Environment) returns (err: Option<Error>, calls: nat, waits: seq<int>, how: Ending)
    ensures Reached(cfg, env, calls, waits) && Ended(cfg, env, how, err, calls, waits)
  {
    var delay := cfg.baseDelay;
    var lastErr: Option<Error> := None;
    calls := 0;
    waits := [];
    var attempt := 1;
    while attempt <= cfg.attempts
      invariant attempt == calls + 1 && Going(cfg, env, calls, waits)
      invariant delay == Delay(cfg, calls) && (lastErr.None? <==> calls == 0)
    {
      GoingReached(cfg, env, calls, waits);
      if env.before(calls).Some? {
        return env.before(calls), calls, waits, CancelledBefore;
      }
      var e := env.call(calls);
      if e.None? {
        return None, calls + 1, waits, Succeeded;
      }
      lastErr := e;
      if !IsTransient(e.value) || attempt == cfg.attempts {
        return lastErr, calls + 1, waits, GaveUp;
      }
      var half := Half(delay);
      if half + 1 <= 0 {
        return None, calls + 1, waits, RandomPanicked;
      }
      var wait := half + Jitter(env, calls, half + 1);
      WaitedOnce(cfg, env, calls, waits, wait);
      calls, waits := calls + 1, waits + [wait];
      if env.during(calls - 1).Some? {
        return env.during(calls - 1), calls, waits, CancelledDuring;
      }
      delay := NextDelay(delay, cfg.maxDelay);
      attempt := attempt + 1;
    }
    return lastErr, calls, waits, NoAttempt;
  }

  function Sum(xs: seq<int>): int {
    if |xs| == 0 then 0 else Sum(xs[..|xs| - 1]) + xs[|xs| - 1]
  }

  function NominalSum(cfg: Config, n: nat): int {
    if n == 0 then 0 else NominalSum(cfg, n - 1) + Nominal(cfg, n - 1)
  }

  /** When the nominal delays fit, the total wait is bounded by their sum, and by the larger
      of base and cap per wait. */
  lemma {:induction false} TotalWait(cfg: Config, waits: seq<int>)
    requires 0 <= cfg.baseDelay && 0 <= cfg.maxDelay && Fits(cfg, |waits|) && WaitsFit(cfg, waits)
    ensures Sum(waits) <= NominalSum(cfg, |waits|) <= |waits| * Max(cfg.baseDelay, cfg.maxDelay)
  {
    if |waits| > 0 {
      var n := |waits| - 1;
      ScheduleIff(cfg, n + 1);
      assert Delay(cfg, n) == Nominal(cfg, n) && WaitFits(Delay(cfg, n), waits[n]);
      NominalClosed(cfg, n);
      ShorterFits(cfg, waits);
      TotalWait(cfg, waits[..n]);
      assert |waits| * Max(cfg.baseDelay, cfg.maxDelay) == n * Max(cfg.baseDelay, cfg.maxDelay) + Max(cfg.baseDelay, cfg.maxDelay);
    }
  }

  lemma ShorterFits(cfg: Config, waits: seq<int>)
    requires |waits| > 0 && Fits(cfg, |waits|) && WaitsFit(cfg, waits)
    ensures Fits(cfg, |waits| - 1) && WaitsFit(cfg, waits[..|waits| - 1])
  {
  }

  /** The configuration in use never panics and never waits more than 91 seconds over its
      seven retries. */
  lemma FcmRetryBound(waits: seq<int>)
    requires WaitsFit(FCM_RETRY, waits) && |waits| < FCM_RETRY.attempts
    ensures NeverPanics(FCM_RETRY, FCM_RETRY.attempts - 1)
    ensures Sum(waits) <= 91 * SECOND
  {
    forall i: nat ensures 0 <= Nominal(FCM_RETRY, i) <= 30 * SECOND {
      NominalClosed(FCM_RETRY, i);
    }
    assert Fits(FCM_RETRY, 7) && Fits(FCM_RETRY, |waits|);
    ScheduleIff(FCM_RETRY, 7);
    TotalWait(FCM_RETRY, waits);
    FcmNominalSum();
    NominalSumGrows(FCM_RETRY, |waits|, 7);
  }

  lemma FcmNominalSum()
    ensures NominalSum(FCM_RETRY, 7) == 91 * SECOND
  {
    var c := FCM_RETRY;
    assert Nominal(c, 0) == SECOND && NominalSum(c, 0) == 0 && NominalSum(c, 1) == SECOND;
    assert Nominal(c, 1) == 2 * SECOND && NominalSum(c, 2) == 3 * SECOND;
    assert Nominal(c, 2) == 4 * SECOND && NominalSum(c, 3) == 7 * SECOND;
    assert Nominal(c, 3) == 8 * SECOND && NominalSum(c, 4) == 15 * SECOND;
    assert Nominal(c, 4) == 16 * SECOND && NominalSum(c, 5) == 31 * SECOND;
    assert Nominal(c, 5) == 30 * SECOND && NominalSum(c, 6) == 61 * SECOND;
    assert Nominal(c, 6) == 30 * SECOND;
  }

  lemma {:induction false} NominalSumGrows(cfg: Config, m: nat, n: nat)
    requires 0 <= cfg.baseDelay && 0 <= cfg.maxDelay && m <= n
    ensures NominalSum(cfg, m) <= NominalSum(cfg, n)
    decreases n
  {
    if m < n {
      NominalSumGrows(cfg, m, n - 1);
      NominalClosed(cfg, n - 1);
    }
  }
}
