/**
 Guarded execution of one Discord REST call (discord_rest.py, classify_response and
 execute_guarded): bounded retries, a sleep budget, at most one recorded outcome, and the
 question of which exits give the half-open probe slot back.

 What the network and the host do is an `Environment`: the answer to each attempt and whether
 a sleep is cut short by an exception. The retry rule is specified without counters: whether
 attempt k is followed by another depends only on the answers to attempts 0..k.
 */
module GuardedCall {
  import opened Wrappers
  import opened RestCircuit

  datatype RetryPolicy = RetryPolicy(
    max429: nat, maxTransient: nat, retryAfterCap: real, baseBackoff: real, sleepBudget: real)
  {
    /** What the policy constructor accepts. */
    predicate Valid() { retryAfterCap > 0.0 && baseBackoff > 0.0 && sleepBudget > 0.0 }
  }

  /** One answer. `Raised` is an exception of the attempt, `Escaped` one that is not caught there. */
  datatype Answer =
    | Response(status: int, cloudflareMarker: bool, retryAfter: Option<real>)
    | Raised
    | Escaped

  /** The answer to each attempt, and whether the sleep after it raises. */
  datatype Environment = Environment(answers: nat -> Answer, sleepRaises: nat -> bool)

  function ClassifyResponse(status: int, cloudflareMarker: bool): Category {
    if 200 <= status < 300 then Success
    else if status == 429 then RateLimited
    else if status == 401 then Unauthorized
    else if status == 403 then (if cloudflareMarker then Cloudflare1010 else Blocked)
    else if 400 <= status < 500 then ClientError
    else if 500 <= status < 600 then ServerError
    else ClientError
  }

  /** The category of an answer that can be recorded: every exception of an attempt is `Network`. */
  function CategoryOf(a: Answer): Category
    requires !a.Escaped?
  {
    match a
    case Response(status, marker, _) => ClassifyResponse(status, marker)
    case Raised => Network
  }

  predicate IsRetryable(c: Category) { c == RateLimited || c == ServerError || c == Network }

  predicate IsRateLimited(a: Answer) { !a.Escaped? && CategoryOf(a) == RateLimited }

  function Pow2(n: nat): real { if n == 0 then 1.0 else 2.0 * Pow2(n - 1) }

  function TransientBackoff(p: RetryPolicy, retries: nat): real { p.baseBackoff * Pow2(retries) }

  function RetryDelay(p: RetryPolicy, retryAfter: Option<real>): real {
    match retryAfter
    case None => p.baseBackoff
    case Some(r) => if r <= p.retryAfterCap then r else p.retryAfterCap
  }

  // ---------------------------------------------------------------------------
  // The retry rule
  // ---------------------------------------------------------------------------

  /** How many of the first `k` answers were rate limits (or, with `limited` false, were not). */
  function CountKind(env: Environment, k: nat, limited: bool): nat {
    if k == 0 then 0
    else CountKind(env, k - 1, limited) + (if IsRateLimited(env.answers(k - 1)) == limited then 1 else 0)
  }

  /** The delay due after attempt `k`: Retry-After for a rate limit, else the next doubling. */
  function DelayAfter(p: RetryPolicy, env: Environment, k: nat): real {
    var a := env.answers(k);
    if IsRateLimited(a) then RetryDelay(p, if a.Response? then a.retryAfter else None)
    else TransientBackoff(p, CountKind(env, k, false))
  }

  /** What the delays after the first `k` attempts add up to. */
  function Slept(p: RetryPolicy, env: Environment, k: nat): real {
    if k == 0 then 0.0 else Slept(p, env, k - 1) + DelayAfter(p, env, k - 1)
  }

  /** Attempt `k` calls for a sleep: retryable, its kind not used up, and the delay affordable. */
  predicate WantsRetry(p: RetryPolicy, env: Environment, k: nat) {
    var a := env.answers(k);
    && !a.Escaped?
    && IsRetryable(CategoryOf(a))
    && p.sleepBudget - Slept(p, env, k) > 0.0
    && CountKind(env, k, IsRateLimited(a)) < (if IsRateLimited(a) then p.max429 else p.maxTransient)
    && DelayAfter(p, env, k) <= p.sleepBudget - Slept(p, env, k)
  }

  /** The sleep after attempt `k` raises: a negative delay is refused, or the host interrupts it. */
  predicate SleepFails(p: RetryPolicy, env: Environment, k: nat) {
    DelayAfter(p, env, k) < 0.0 || env.sleepRaises(k)
  }

  /** Attempt `k` is followed by attempt `k + 1`. */
  predicate Continues(p: RetryPolicy, env: Environment, k: nat) {
    WantsRetry(p, env, k) && !SleepFails(p, env, k)
  }

  /** What is recorded when `k` is the last attempt: nothing if an exception escapes. */
  function FinalOutcome(p: RetryPolicy, env: Environment, k: nat): Option<Category> {
    if env.answers(k).Escaped? || WantsRetry(p, env, k) then None
    else Some(CategoryOf(env.answers(k)))
  }

  lemma {:induction false} CountsAddUp(env: Environment, k: nat)
    ensures CountKind(env, k, true) + CountKind(env, k, false) == k
  {
    if k > 0 { CountsAddUp(env, k - 1); }
  }

  /** Every kind stays within its own limit, for as long as the call goes on. */
  lemma {:induction false} KindsWithinLimits(p: RetryPolicy, env: Environment, k: nat)
    requires forall i :: 0 <= i < k ==> Continues(p, env, i)
    ensures CountKind(env, k, true) <= p.max429 && CountKind(env, k, false) <= p.maxTransient
  {
    if k > 0 {
      KindsWithinLimits(p, env, k - 1);
      assert Continues(p, env, k - 1);
    }
  }

  /** At most 1 + max429 + maxTransient attempts, whatever the answers are. */
  lemma AttemptBound(p: RetryPolicy, env: Environment, k: nat)
    requires forall i :: 0 <= i < k ==> Continues(p, env, i)
    ensures k <= p.max429 + p.maxTransient
  {
    CountsAddUp(env, k);
    KindsWithinLimits(p, env, k);
  }

  /** Every sleep that ran was non-negative and together they never exceed the budget. */
  lemma {:induction false} SleepWithinBudget(p: RetryPolicy, env: Environment, k: nat)
    requires p.Valid() && forall i :: 0 <= i < k ==> Continues(p, env, i)
    ensures 0.0 <= Slept(p, env, k) <= p.sleepBudget
    ensures forall i :: 0 <= i < k ==> 0.0 <= DelayAfter(p, env, i) <= p.sleepBudget
  {
    if k > 0 {
      SleepWithinBudget(p, env, k - 1);
      assert Continues(p, env, k - 1);
    }
  }

  // ---------------------------------------------------------------------------
  // The rule in terms of statuses and seconds
  // ---------------------------------------------------------------------------

  /** What each status is taken for. */
  lemma StatusKinds(status: int, marker: bool)
    ensures var c := ClassifyResponse(status, marker);
      && (c == Success <==> 200 <= status <= 299)
      && (c == RateLimited <==> status == 429)
      && (c == Unauthorized <==> status == 401)
      && (c == Cloudflare1010 <==> status == 403 && marker)
      && (c == Blocked <==> status == 403 && !marker)
      && (c == ServerError <==> 500 <= status <= 599)
      && c != Network
  {
  }

  predicate Is429(a: Answer) { a.Response? && a.status == 429 }

  /** A fault of the network or the server: an exception of the attempt, or a status of 500 to 599. */
  predicate IsFault(a: Answer) { a.Raised? || (a.Response? && 500 <= a.status <= 599) }

  /** How many of the first `k` attempts were answered 429, or otherwise. */
  ghost function Answered429(env: Environment, k: nat): set<nat> { set i: nat | i < k && Is429(env.answers(i)) }

  ghost function AnsweredOtherwise(env: Environment, k: nat): set<nat> {
    set i: nat | i < k && !Is429(env.answers(i))
  }

  lemma {:induction false} CountsAre(env: Environment, k: nat)
    ensures CountKind(env, k, true) == |Answered429(env, k)|
    ensures CountKind(env, k, false) == |AnsweredOtherwise(env, k)|
  {
    if k == 0 {
      assert Answered429(env, 0) == {} && AnsweredOtherwise(env, 0) == {};
    } else {
      CountsAre(env, k - 1);
      if Is429(env.answers(k - 1)) {
        assert Answered429(env, k) == Answered429(env, k - 1) + {k - 1};
        assert AnsweredOtherwise(env, k) == AnsweredOtherwise(env, k - 1);
      } else {
        assert Answered429(env, k) == Answered429(env, k - 1);
        assert AnsweredOtherwise(env, k) == AnsweredOtherwise(env, k - 1) + {k - 1};
      }
    }
  }

  /** Seconds slept after a 429: as asked for, but no more than the cap; the base without a request. */
  lemma DelayAfter429(p: RetryPolicy, env: Environment, k: nat)
    requires Is429(env.answers(k))
    ensures match env.answers(k).retryAfter
      case None => DelayAfter(p, env, k) == p.baseBackoff
      case Some(r) =>
        && (r <= p.retryAfterCap ==> DelayAfter(p, env, k) == r)
        && (r > p.retryAfterCap ==> DelayAfter(p, env, k) == p.retryAfterCap)
  {
  }

  /** Seconds slept after a fault: the base at first, and twice as long at each next one. */
  lemma DelayAfterFault(p: RetryPolicy, env: Environment, j: nat, k: nat)
    requires j <= k && !Is429(env.answers(j)) && !Is429(env.answers(k))
    ensures AnsweredOtherwise(env, j) == {} ==> DelayAfter(p, env, j) == p.baseBackoff
    ensures AnsweredOtherwise(env, k) == AnsweredOtherwise(env, j) + {j} ==>
      DelayAfter(p, env, k) == if j < k then 2.0 * DelayAfter(p, env, j) else DelayAfter(p, env, j)
  {
    CountsAre(env, j);
    CountsAre(env, k);
    if AnsweredOtherwise(env, k) == AnsweredOtherwise(env, j) + {j} && j < k {
      assert |AnsweredOtherwise(env, k)| == |AnsweredOtherwise(env, j)| + 1;
      var n := CountKind(env, j, false);
      assert Pow2(n + 1) == 2.0 * Pow2(n);
      assert DelayAfter(p, env, k) == p.baseBackoff * Pow2(n + 1);
      assert DelayAfter(p, env, j) == p.baseBackoff * Pow2(n);
    }
  }

  function Sum(delays: seq<real>): real {
    if delays == [] then 0.0 else Sum(delays[..|delays| - 1]) + delays[|delays| - 1]
  }

  ghost function Delays(p: RetryPolicy, env: Environment, k: nat): (r: seq<real>)
    ensures |r| == k && forall i :: 0 <= i < k ==> r[i] == DelayAfter(p, env, i)
  {
    seq(k, i requires 0 <= i < k => DelayAfter(p, env, i))
  }

  lemma {:induction false} SleptIsSum(p: RetryPolicy, env: Environment, k: nat)
    ensures Slept(p, env, k) == Sum(Delays(p, env, k))
  {
    if k > 0 {
      SleptIsSum(p, env, k - 1);
      assert Delays(p, env, k)[..k - 1] == Delays(p, env, k - 1);
    }
  }

  /**
   An attempt is followed by another if and only if its answer is a 429 or a fault, fewer of its kind
   came before than the policy retries, some budget is left and it covers the delay, and the sleep
   completes.
   */
  lemma ContinuesIff(p: RetryPolicy, env: Environment, k: nat)
    requires forall i :: 0 <= i < k ==> Continues(p, env, i)
    ensures var a := env.answers(k); var delay := DelayAfter(p, env, k); var spent := Sum(Delays(p, env, k));
      Continues(p, env, k) <==>
        && (Is429(a) || IsFault(a))
        && (if Is429(a) then |Answered429(env, k)| < p.max429 else |AnsweredOtherwise(env, k)| < p.maxTransient)
        && spent < p.sleepBudget && 0.0 <= delay && spent + delay <= p.sleepBudget
        && !env.sleepRaises(k)
  {
    CountsAre(env, k);
    SleptIsSum(p, env, k);
    var a := env.answers(k);
    if a.Response? { StatusKinds(a.status, a.cloudflareMarker); }
  }

  /** So 2xx, 401, 403 and any other 4xx but 429 are never retried, and are what is recorded. */
  lemma NeverRetried(p: RetryPolicy, env: Environment, k: nat)
    requires var a := env.answers(k); a.Response? && a.status != 429 && !(500 <= a.status <= 599)
    ensures !Continues(p, env, k)
    ensures var a := env.answers(k); FinalOutcome(p, env, k) == Some(ClassifyResponse(a.status, a.cloudflareMarker))
  {
    var a := env.answers(k);
    StatusKinds(a.status, a.cloudflareMarker);
  }

  /** Nothing is recorded exactly when an exception escapes the attempt or the sleep. */
  lemma RecordedIff(p: RetryPolicy, env: Environment, k: nat)
    requires !Continues(p, env, k)
    ensures FinalOutcome(p, env, k).None? <==>
      env.answers(k).Escaped? || (WantsRetry(p, env, k) && (DelayAfter(p, env, k) < 0.0 || env.sleepRaises(k)))
    ensures FinalOutcome(p, env, k).Some? ==>
      FinalOutcome(p, env, k).value == match env.answers(k)
        case Response(status, marker, _) => ClassifyResponse(status, marker)
        case _ => Network
  {
  }

  /** An answer that is not retryable ends the call at once. */
  lemma NonRetryableStops(p: RetryPolicy, env: Environment, k: nat)
    requires !env.answers(k).Escaped? && !IsRetryable(CategoryOf(env.answers(k)))
    ensures !Continues(p, env, k) && FinalOutcome(p, env, k) == Some(CategoryOf(env.answers(k)))
  {
  }

  /** The last attempt: the first one, from `k` on, that is not followed by another. */
  function LastAttempt(p: RetryPolicy, env: Environment, k: nat): (n: nat)
    requires forall i :: 0 <= i < k ==> Continues(p, env, i)
    ensures n >= k && !Continues(p, env, n) && forall i :: 0 <= i < n ==> Continues(p, env, i)
    decreases p.max429 + p.maxTransient + 1 - k
  {
    if Continues(p, env, k) then
      AttemptBound(p, env, k + 1);
      LastAttempt(p, env, k + 1)
    else
      k
  }

  lemma LastAttemptUnique(p: RetryPolicy, env: Environment, m: nat)
    requires !Continues(p, env, m) && forall i :: 0 <= i < m ==> Continues(p, env, i)
    ensures LastAttempt(p, env, 0) == m
  {
    var n := LastAttempt(p, env, 0);
    assert !(n < m) && !(m < n);
  }

  // ---------------------------------------------------------------------------
  // One guarded call
  // ---------------------------------------------------------------------------

  /** What a guarded call did. `attempts` is 0 exactly when the breaker refused it. */
  datatype Report = Report(attempts: nat, slept: seq<real>, recorded: Option<Category>)

  const REJECTED := Report(0, [], None)

  /** Answers of one call, and the clock when it checks and when it settles. */
  datatype Call = Call(env: Environment, checkedAt: real, settledAt: real)

  function ReportOf(p: RetryPolicy, env: Environment): Report {
    var n := LastAttempt(p, env, 0);
    Report(n + 1, seq(n, i requires 0 <= i < n => DelayAfter(p, env, i)), FinalOutcome(p, env, n))
  }

  /** The breaker after the call has settled: the outcome recorded, or the slot released. */
  function Settle(cfg: CircuitConfig, st: CircuitState, r: Option<Category>, now: real): CircuitState {
    match r
    case Some(c) => RecordStep(cfg, st, c, now)
    case None => ReleaseStep(st)
  }

  function GuardedStep(cfg: CircuitConfig, p: RetryPolicy, st: CircuitState, call: Call): CircuitState {
    if Admits(cfg, st, call.checkedAt) then
      Settle(cfg, CheckStep(cfg, st, call.checkedAt), ReportOf(p, call.env).recorded, call.settledAt)
    else st
  }

  method ExecuteGuarded(circuit: Circuit, p: RetryPolicy, call: Call) returns (r: Report)
    modifies circuit
    ensures circuit.View() == GuardedStep(circuit.config, p, old(circuit.View()), call)
    ensures r == if Admits(circuit.config, old(circuit.View()), call.checkedAt) then ReportOf(p, call.env) else REJECTED
  {
    var env := call.env;
    var admitted := circuit.Check(call.checkedAt);
    if !admitted {
      return REJECTED;
    }
    var budget := p.sleepBudget;
    var retries429, retriesTransient, k := 0, 0, 0;
    var slept: seq<real> := [];
    var recorded: Option<Category> := None;
    while true
      invariant budget == p.sleepBudget - Slept(p, env, k)
      invariant retries429 == CountKind(env, k, true) && retriesTransient == CountKind(env, k, false)
      invariant forall i :: 0 <= i < k ==> Continues(p, env, i)
      invariant |slept| == k && forall i :: 0 <= i < k ==> slept[i] == DelayAfter(p, env, i)
      invariant circuit.View() == CheckStep(circuit.config, old(circuit.View()), call.checkedAt)
      invariant recorded == None
      decreases p.max429 + p.maxTransient + 1 - k
    {
      var answer := env.answers(k);
      if answer == Escaped {
        break;
      }
      var outcome := CategoryOf(answer);
      var delay := 0.0;
      var retry := false;
      if outcome != Success && IsRetryable(outcome) && budget > 0.0 {
        if outcome == RateLimited {
          if retries429 < p.max429 {
            delay := RetryDelay(p, if answer.Response? then answer.retryAfter else None);
            retry := delay <= budget;
          }
        } else if retriesTransient < p.maxTransient {
          delay := TransientBackoff(p, retriesTransient);
          retry := delay <= budget;
        }
      }
      if !retry {
        recorded := Some(outcome);
        break;
      }
      if delay < 0.0 || env.sleepRaises(k) {
        break;
      }
      assert Continues(p, env, k);
      AttemptBound(p, env, k + 1);
      budget := budget - delay;
      slept := slept + [delay];
      if outcome == RateLimited {
        retries429 := retries429 + 1;
      } else {
        retriesTransient := retriesTransient + 1;
      }
      k := k + 1;
    }
    LastAttemptUnique(p, env, k);
    assert recorded == ReportOf(p, env).recorded;
    if recorded.Some? {
      circuit.Record(recorded.value, call.settledAt);
    } else {
      circuit.ReleaseHalfOpenProbe();
    }
    r := Report(k + 1, slept, recorded);
    assert slept == ReportOf(p, env).slept;
  }

  /** What every caller may rely on, for every policy and every behaviour of the network. */
  lemma ReportBounds(p: RetryPolicy, env: Environment)
    requires p.Valid()
    ensures var r := ReportOf(p, env);
      && 1 <= r.attempts <= 1 + p.max429 + p.maxTransient
      && |r.slept| == r.attempts - 1
      && 0.0 <= Slept(p, env, r.attempts - 1) <= p.sleepBudget
      && (r.recorded.Some? ==> r.recorded == Some(CategoryOf(env.answers(r.attempts - 1))))
      && (forall i :: 0 <= i < r.attempts - 1 ==>
            && !env.answers(i).Escaped? && IsRetryable(CategoryOf(env.answers(i)))
            && 0.0 <= r.slept[i] <= p.sleepBudget)
  {
    var n := LastAttempt(p, env, 0);
    AttemptBound(p, env, n);
    SleepWithinBudget(p, env, n);
    forall i | 0 <= i < n
      ensures !env.answers(i).Escaped? && IsRetryable(CategoryOf(env.answers(i)))
    {
      assert Continues(p, env, i);
    }
  }

  // ---------------------------------------------------------------------------
  // Sequential use: can the breaker wedge half-open?
  // ---------------------------------------------------------------------------

  /** The slot is taken and no caller is left to give it back. */
  predicate Wedged(st: CircuitState) { st.mode == HalfOpen && st.probeInFlight }

  /** One call, made while nobody else holds the slot, keeps it in exactly one case. */
  lemma SlotKeptOnlyByClientError(cfg: CircuitConfig, p: RetryPolicy, st: CircuitState, call: Call)
    requires cfg.Valid() && Invariant(cfg, st) && !st.probeInFlight
    ensures Wedged(GuardedStep(cfg, p, st, call)) <==>
      && st.mode != Closed
      && Admits(cfg, st, call.checkedAt)
      && ReportOf(p, call.env).recorded == Some(ClientError)
    ensures Invariant(cfg, GuardedStep(cfg, p, st, call))
  {
  }

  function AfterCalls(cfg: CircuitConfig, p: RetryPolicy, st: CircuitState, calls: seq<Call>): CircuitState {
    if calls == [] then st
    else GuardedStep(cfg, p, AfterCalls(cfg, p, st, calls[..|calls| - 1]), calls[|calls| - 1])
  }

  /** Call `i` was a probe that ended in an ordinary 4xx. */
  ghost predicate ClientErrorProbe(cfg: CircuitConfig, p: RetryPolicy, calls: seq<Call>, i: nat)
    requires i < |calls|
  {
    var st := AfterCalls(cfg, p, INITIAL, calls[..i]);
    && st.mode != Closed && !st.probeInFlight
    && Admits(cfg, st, calls[i].checkedAt)
    && ReportOf(p, calls[i].env).recorded == Some(ClientError)
  }

  /** A wedged breaker refuses every further call and never changes again. */
  lemma {:induction false} WedgeIsPermanent(cfg: CircuitConfig, p: RetryPolicy, st: CircuitState, calls: seq<Call>)
    requires Wedged(st)
    ensures AfterCalls(cfg, p, st, calls) == st
    ensures forall c :: c in calls ==> !Admits(cfg, st, c.checkedAt)
    decreases |calls|
  {
    if calls != [] {
      var last := |calls| - 1;
      WedgeIsPermanent(cfg, p, st, calls[..last]);
      assert calls == calls[..last] + [calls[last]];
    }
  }

  /**
   The exact form of "the breaker can never wedge half-open": used one call at a time it wedges
   if and only if some probe was answered with a client error, and then for good.
   */
  lemma {:induction false} WedgedIffClientErrorProbe(cfg: CircuitConfig, p: RetryPolicy, calls: seq<Call>)
    requires cfg.Valid()
    ensures Invariant(cfg, AfterCalls(cfg, p, INITIAL, calls))
    ensures AfterCalls(cfg, p, INITIAL, calls).probeInFlight <==>
      exists i :: 0 <= i < |calls| && ClientErrorProbe(cfg, p, calls, i)
    decreases |calls|
  {
    if calls != [] {
      var last := |calls| - 1;
      var before := calls[..last];
      var st := AfterCalls(cfg, p, INITIAL, before);
      WedgedIffClientErrorProbe(cfg, p, before);
      forall i | 0 <= i < last
        ensures ClientErrorProbe(cfg, p, calls, i) == ClientErrorProbe(cfg, p, before, i)
      {
        assert calls[..i] == before[..i];
      }
      if st.probeInFlight {
        var i :| 0 <= i < |before| && ClientErrorProbe(cfg, p, before, i);
        assert ClientErrorProbe(cfg, p, calls, i);
      } else {
        SlotKeptOnlyByClientError(cfg, p, st, calls[last]);
        assert ClientErrorProbe(cfg, p, calls, last) == Wedged(GuardedStep(cfg, p, st, calls[last]));
      }
    }
  }

  /** The exception is real: three failures, a cooldown, and a probe answered 404. */
  lemma WedgeHappens() returns (cfg: CircuitConfig, p: RetryPolicy, calls: seq<Call>)
    ensures cfg.Valid() && p.Valid() && Wedged(AfterCalls(cfg, p, INITIAL, calls))
  {
    cfg := CircuitConfig(1, 60.0);
    p := RetryPolicy(3, 3, 30.0, 1.0, 60.0);
    var refused := Environment(_ => Response(401, false, None), _ => false);
    var notFound := Environment(_ => Response(404, false, None), _ => false);
    calls := [Call(refused, 0.0, 0.0), Call(notFound, 60.0, 60.0)];
    NonRetryableStops(p, refused, 0);
    NonRetryableStops(p, notFound, 0);
    LastAttemptUnique(p, refused, 0);
    LastAttemptUnique(p, notFound, 0);
    assert ReportOf(p, refused).recorded == Some(Unauthorized);
    assert ReportOf(p, notFound).recorded == Some(ClientError);
    var first := calls[..1];
    assert first[..0] == [] && calls[..|calls| - 1] == first;
    assert AfterCalls(cfg, p, INITIAL, []) == INITIAL;
    var st := AfterCalls(cfg, p, INITIAL, first);
    assert st == GuardedStep(cfg, p, INITIAL, calls[0]);
    assert st.mode == Open && st.openAt == Some(0.0);
  }
}
