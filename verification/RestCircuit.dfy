/**
 The circuit breaker around Discord REST calls (discord_rest.py, DiscordRestCircuit).

 The class is the breaker as the service runs it: one object whose fields each method
 updates under a lock, so that concurrent callers interleave whole method calls. Its methods
 are proved against three step functions, and everything below the class is proved about
 arbitrary interleavings of those steps.
 */
module RestCircuit {
  import opened Wrappers

  datatype Category =
    | Success | RateLimited | Unauthorized | ClientError
    | Blocked | Cloudflare1010 | ServerError | Network

  /** The categories that advance the failure counter. */
  predicate IsTerminalFailure(c: Category) { c != Success && c != ClientError }

  datatype Mode = Closed | Open | HalfOpen

  datatype CircuitConfig = CircuitConfig(openFailures: nat, cooldown: real) {
    /** What the policy constructor accepts. */
    predicate Valid() { openFailures >= 1 && cooldown > 0.0 }
  }

  datatype CircuitState = CircuitState(
    mode: Mode, failures: nat, totalFailures: nat, totalSuccesses: nat,
    lastOutcome: Option<Category>, openAt: Option<real>, probeInFlight: bool)

  const INITIAL := CircuitState(Closed, 0, 0, 0, None, None, false)

  /** May an attempt start at `now`? In the open state only after the cooldown, and then once. */
  predicate Admits(cfg: CircuitConfig, st: CircuitState, now: real) {
    match st.mode
    case Closed => true
    case Open => st.openAt.Some? && now - st.openAt.value >= cfg.cooldown
    case HalfOpen => !st.probeInFlight
  }

  function CheckStep(cfg: CircuitConfig, st: CircuitState, now: real): CircuitState {
    if !Admits(cfg, st, now) || st.mode == Closed then st
    else st.(mode := HalfOpen, probeInFlight := true)
  }

  function ReleaseStep(st: CircuitState): CircuitState {
    if st.mode == HalfOpen then st.(probeInFlight := false) else st
  }

  function RecordStep(cfg: CircuitConfig, st: CircuitState, c: Category, now: real): CircuitState {
    var seen := st.(lastOutcome := Some(c));
    if c == Success then
      var counted := seen.(totalSuccesses := st.totalSuccesses + 1, failures := 0);
      if st.mode == HalfOpen then counted.(mode := Closed, probeInFlight := false) else counted
    else if !IsTerminalFailure(c) then
      seen
    else
      var counted := seen.(totalFailures := st.totalFailures + 1, failures := st.failures + 1);
      if st.mode == HalfOpen then
        counted.(mode := Open, openAt := Some(now), probeInFlight := false)
      else if counted.failures >= cfg.openFailures then
        counted.(mode := Open, openAt := Some(now))
      else
        counted
  }

  class Circuit {
    const config: CircuitConfig
    var mode: Mode
    var failures: nat
    var totalFailures: nat
    var totalSuccesses: nat
    var lastOutcome: Option<Category>
    var openAt: Option<real>
    var probeInFlight: bool

    ghost function View(): CircuitState
      reads this
    {
      CircuitState(mode, failures, totalFailures, totalSuccesses, lastOutcome, openAt, probeInFlight)
    }

    constructor (config: CircuitConfig)
      requires config.Valid()
      ensures this.config == config && View() == INITIAL
    {
      this.config := config;
      mode, failures, totalFailures, totalSuccesses := Closed, 0, 0, 0;
      lastOutcome, openAt, probeInFlight := None, None, false;
    }

    /** Admission; a rejected caller gets the circuit-open error and changes nothing. */
    method Check(now: real) returns (admitted: bool)
      modifies this
      ensures admitted == Admits(config, old(View()), now)
      ensures View() == CheckStep(config, old(View()), now)
    {
      if mode == Open {
        if openAt == None || now - openAt.value < config.cooldown {
          return false;
        }
        mode := HalfOpen;
        probeInFlight := true;
        return true;
      }
      if mode == HalfOpen {
        if probeInFlight {
          return false;
        }
        probeInFlight := true;
      }
      return true;
    }

    method ReleaseHalfOpenProbe()
      modifies this
      ensures View() == ReleaseStep(old(View()))
    {
      if mode == HalfOpen {
        probeInFlight := false;
      }
    }

    method Record(outcome: Category, now: real)
      modifies this
      ensures View() == RecordStep(config, old(View()), outcome, now)
    {
      lastOutcome := Some(outcome);
      if outcome == Success {
        totalSuccesses := totalSuccesses + 1;
        failures := 0;
        if mode == HalfOpen {
          mode := Closed;
          probeInFlight := false;
        }
        return;
      }
      if !IsTerminalFailure(outcome) {
        return;
      }
      totalFailures := totalFailures + 1;
      failures := failures + 1;
      if mode == HalfOpen {
        mode := Open;
        openAt := Some(now);
        probeInFlight := false;
        return;
      }
      if failures >= config.openFailures {
        mode := Open;
        openAt := Some(now);
      }
    }
  }

  // ---------------------------------------------------------------------------
  // Runs: any interleaving of the three methods, at the times the lock was taken
  // ---------------------------------------------------------------------------

  datatype Event = Check(now: real) | Record(outcome: Category, now: real) | Release(now: real)

  function Step(cfg: CircuitConfig, st: CircuitState, e: Event): CircuitState {
    match e
    case Check(now) => CheckStep(cfg, st, now)
    case Record(c, now) => RecordStep(cfg, st, c, now)
    case Release(_) => ReleaseStep(st)
  }

  /** The state after a run from the initial state. */
  function After(cfg: CircuitConfig, es: seq<Event>): CircuitState {
    if es == [] then INITIAL else Step(cfg, After(cfg, es[..|es| - 1]), es[|es| - 1])
  }

  ghost predicate MonotoneClock(es: seq<Event>) {
    forall i, j :: 0 <= i < j < |es| ==> es[i].now <= es[j].now
  }

  /** Event `i` of the run is a check that passed. */
  ghost predicate AdmittedAt(cfg: CircuitConfig, es: seq<Event>, i: nat)
    requires i < |es|
  {
    es[i].Check? && Admits(cfg, After(cfg, es[..i]), es[i].now)
  }

  /** Event `i` is a check that passed while the breaker was not closed: a probe. */
  ghost predicate ProbeAt(cfg: CircuitConfig, es: seq<Event>, i: nat)
    requires i < |es|
  {
    AdmittedAt(cfg, es, i) && After(cfg, es[..i]).mode != Closed
  }

  /** The event frees the probe slot: a success, a terminal failure, or a release. */
  predicate EndsProbe(e: Event) {
    e.Release? || (e.Record? && e.outcome != ClientError)
  }

  /** Terminal failures recorded since the last recorded success, read off the run itself. */
  function FailuresSinceSuccess(es: seq<Event>): nat {
    if es == [] then 0
    else
      var e, before := es[|es| - 1], es[..|es| - 1];
      if e.Record? && e.outcome == Success then 0
      else if e.Record? && IsTerminalFailure(e.outcome) then FailuresSinceSuccess(before) + 1
      else FailuresSinceSuccess(before)
  }

  ghost predicate Invariant(cfg: CircuitConfig, st: CircuitState) {
    && (st.probeInFlight ==> st.mode == HalfOpen)
    && (st.mode == Closed ==> st.failures < cfg.openFailures)
    && (st.mode != Closed ==> st.openAt.Some?)
  }

  lemma {:induction false} RunInvariant(cfg: CircuitConfig, es: seq<Event>)
    requires cfg.Valid()
    ensures Invariant(cfg, After(cfg, es))
    ensures After(cfg, es).failures == FailuresSinceSuccess(es)
    decreases |es|
  {
    if es != [] {
      RunInvariant(cfg, es[..|es| - 1]);
    }
  }

  /** A closed breaker opens at exactly the configured number of failures, never later or earlier. */
  lemma OpensExactlyAtThreshold(cfg: CircuitConfig, es: seq<Event>, e: Event)
    requires cfg.Valid() && After(cfg, es).mode == Closed
    ensures After(cfg, es + [e]).mode != Closed <==> FailuresSinceSuccess(es + [e]) == cfg.openFailures
    ensures FailuresSinceSuccess(es + [e]) <= cfg.openFailures
  {
    assert (es + [e])[..|es|] == es;
    RunInvariant(cfg, es);
    RunInvariant(cfg, es + [e]);
  }

  lemma {:induction false} OpenTimeIsPast(cfg: CircuitConfig, es: seq<Event>)
    requires MonotoneClock(es) && es != []
    ensures After(cfg, es).openAt.Some? ==> After(cfg, es).openAt.value <= es[|es| - 1].now
    decreases |es|
  {
    var before := es[..|es| - 1];
    if before != [] {
      OpenTimeIsPast(cfg, before);
      assert before[|before| - 1] == es[|es| - 2];
    }
  }

  /**
   The clock cannot run past an open breaker: once it was open with opening time t, then at
   any later point either it has stayed open (and its opening time has not gone back), or the
   clock has passed t + cooldown.
   */
  lemma {:induction false} CooldownHolds(cfg: CircuitConfig, es: seq<Event>, i: nat)
    requires cfg.Valid() && MonotoneClock(es) && 0 < i <= |es|
    requires After(cfg, es[..i]).mode == Open
    ensures var t := After(cfg, es[..i]).openAt; var st := After(cfg, es);
      && t.Some? && st.openAt.Some?
      && ((st.mode == Open && st.openAt.value >= t.value) || es[|es| - 1].now >= t.value + cfg.cooldown)
    decreases |es|
  {
    RunInvariant(cfg, es[..i]);
    RunInvariant(cfg, es);
    if i == |es| {
      assert es[..i] == es;
    } else {
      var before := es[..|es| - 1];
      assert before[..i] == es[..i];
      assert before[|before| - 1] == es[|es| - 2];
      CooldownHolds(cfg, before, i);
      OpenTimeIsPast(cfg, before);
      RunInvariant(cfg, before);
      assert After(cfg, es) == Step(cfg, After(cfg, before), es[|es| - 1]);
    }
  }

  /** No check passes earlier than the cooldown after any earlier moment at which the breaker was open. */
  lemma NoEarlyAdmission(cfg: CircuitConfig, es: seq<Event>, i: nat, j: nat)
    requires cfg.Valid() && MonotoneClock(es) && 0 < i <= j < |es|
    requires After(cfg, es[..i]).mode == Open && AdmittedAt(cfg, es, j)
    ensures After(cfg, es[..i]).openAt.Some?
    ensures es[j].now >= After(cfg, es[..i]).openAt.value + cfg.cooldown
  {
    var run := es[..j];
    assert run[..i] == es[..i];
    assert run[|run| - 1] == es[j - 1];
    CooldownHolds(cfg, run, i);
  }

  /** While nothing ends the probe, its slot stays taken. */
  lemma {:induction false} ProbeHeld(cfg: CircuitConfig, es: seq<Event>, i: nat)
    requires i < |es| && ProbeAt(cfg, es, i)
    requires forall k :: i < k < |es| ==> !EndsProbe(es[k])
    ensures After(cfg, es).mode == HalfOpen && After(cfg, es).probeInFlight
    decreases |es|
  {
    var before := es[..|es| - 1];
    if i == |es| - 1 {
      assert es[..i] == before;
    } else {
      assert before[..i] == es[..i];
      ProbeHeld(cfg, before, i);
      assert !EndsProbe(es[|es| - 1]);
    }
  }

  /** Between two probes there is always a recorded success, a recorded terminal failure or a release. */
  lemma SingleProbe(cfg: CircuitConfig, es: seq<Event>, i: nat, j: nat)
    requires i < j < |es| && ProbeAt(cfg, es, i) && ProbeAt(cfg, es, j)
    ensures exists k :: i < k < j && EndsProbe(es[k])
  {
    if forall k :: i < k < j ==> !EndsProbe(es[k]) {
      var run := es[..j];
      assert run[..i] == es[..i];
      ProbeHeld(cfg, run, i);
    }
  }

  // ---------------------------------------------------------------------------
  // Admission and transitions, read off the run
  // ---------------------------------------------------------------------------

  /** The failures that count. */
  lemma FailureKinds(c: Category)
    ensures IsTerminalFailure(c) <==>
      c in {RateLimited, Unauthorized, Blocked, Cloudflare1010, ServerError, Network}
  {
  }

  /** Event `i` starts a cooldown: a failed probe, or a failure that brings the count to the threshold. */
  ghost predicate Restarts(cfg: CircuitConfig, es: seq<Event>, i: nat)
    requires i < |es|
  {
    && es[i].Record? && es[i].outcome != Success && es[i].outcome != ClientError
    && (After(cfg, es[..i]).mode == HalfOpen || FailuresSinceSuccess(es[..i + 1]) >= cfg.openFailures)
  }

  /** Event `i` is the last so far that started a cooldown. */
  ghost predicate LastRestart(cfg: CircuitConfig, es: seq<Event>, i: nat) {
    i < |es| && Restarts(cfg, es, i) && forall k: nat :: i < k < |es| ==> !Restarts(cfg, es, k)
  }

  lemma AfterNext(cfg: CircuitConfig, es: seq<Event>)
    requires es != []
    ensures After(cfg, es) == Step(cfg, After(cfg, es[..|es| - 1]), es[|es| - 1])
  {
  }

  lemma RestartsEarlier(cfg: CircuitConfig, es: seq<Event>, n: nat, i: nat)
    requires i < n <= |es|
    ensures Restarts(cfg, es[..n], i) == Restarts(cfg, es, i)
  {
    assert es[..n][..i] == es[..i] && es[..n][..i + 1] == es[..i + 1];
  }

  /** The opening time is that of the event that started the last cooldown. */
  lemma {:induction false} OpenSinceRestart(cfg: CircuitConfig, es: seq<Event>) returns (i: nat)
    requires cfg.Valid() && After(cfg, es).mode != Closed
    ensures LastRestart(cfg, es, i) && After(cfg, es).openAt == Some(es[i].now)
    decreases |es|
  {
    var n := |es| - 1;
    var before, e := es[..n], es[n];
    assert es[..n + 1] == es;
    RunInvariant(cfg, before);
    RunInvariant(cfg, es);
    if Restarts(cfg, es, n) {
      i := n;
    } else {
      i := OpenSinceRestart(cfg, before);
      forall k: nat | k < n ensures Restarts(cfg, es, k) == Restarts(cfg, before, k) {
        RestartsEarlier(cfg, es, n, k);
      }
    }
  }

  /** While open, a check passes if and only if the cooldown since the last start of one is over. */
  lemma OpenAdmitsIff(cfg: CircuitConfig, es: seq<Event>, j: nat) returns (i: nat)
    requires cfg.Valid() && j < |es| && es[j].Check? && After(cfg, es[..j]).mode == Open
    ensures LastRestart(cfg, es[..j], i)
    ensures AdmittedAt(cfg, es, j) <==> es[j].now >= es[i].now + cfg.cooldown
  {
    i := OpenSinceRestart(cfg, es[..j]);
  }

  /** A closed breaker lets every check pass. */
  lemma ClosedAdmits(cfg: CircuitConfig, es: seq<Event>, j: nat)
    requires j < |es| && es[j].Check? && After(cfg, es[..j]).mode == Closed
    ensures AdmittedAt(cfg, es, j)
  {
  }

  /** Event `i` is the last probe so far. */
  ghost predicate LastProbe(cfg: CircuitConfig, es: seq<Event>, i: nat) {
    i < |es| && ProbeAt(cfg, es, i) && forall k: nat :: i < k < |es| ==> !ProbeAt(cfg, es, k)
  }

  lemma ProbeEarlier(cfg: CircuitConfig, es: seq<Event>, n: nat, i: nat)
    requires i < n <= |es|
    ensures ProbeAt(cfg, es[..n], i) == ProbeAt(cfg, es, i)
  {
    assert es[..n][..i] == es[..i];
  }

  /** Half-open, the slot is taken unless there was a release since the last probe. */
  lemma {:induction false} HalfOpenSinceProbe(cfg: CircuitConfig, es: seq<Event>) returns (i: nat)
    requires cfg.Valid() && After(cfg, es).mode == HalfOpen
    ensures LastProbe(cfg, es, i)
    ensures After(cfg, es).probeInFlight <==> forall k :: i < k < |es| ==> !es[k].Release?
    decreases |es|
  {
    var n := |es| - 1;
    var before := es[..n];
    RunInvariant(cfg, before);
    if ProbeAt(cfg, es, n) {
      i := n;
    } else {
      i := HalfOpenSinceProbe(cfg, before);
      forall k: nat | k < n ensures ProbeAt(cfg, es, k) == ProbeAt(cfg, before, k) { ProbeEarlier(cfg, es, n, k); }
      assert forall k :: 0 <= k < n ==> es[k] == before[k];
    }
  }

  /** Half-open, a check passes if and only if the slot was released since the last probe. */
  lemma HalfOpenAdmitsIff(cfg: CircuitConfig, es: seq<Event>, j: nat) returns (i: nat)
    requires cfg.Valid() && j < |es| && es[j].Check? && After(cfg, es[..j]).mode == HalfOpen
    ensures LastProbe(cfg, es[..j], i)
    ensures AdmittedAt(cfg, es, j) <==> exists k :: i < k < j && es[k].Release?
  {
    i := HalfOpenSinceProbe(cfg, es[..j]);
    if k :| i < k < j && es[k].Release? { assert es[..j][k].Release?; }
    if k :| i < k < j && es[..j][k].Release? { assert es[k].Release?; }
  }

  /** No check passes before the cooldown after any start of one is over. */
  lemma RestartHolds(cfg: CircuitConfig, es: seq<Event>, i: nat, j: nat)
    requires cfg.Valid() && MonotoneClock(es) && i < j < |es|
    requires Restarts(cfg, es, i) && AdmittedAt(cfg, es, j)
    ensures es[j].now >= es[i].now + cfg.cooldown
  {
    var st := After(cfg, es[..i + 1]);
    AfterNext(cfg, es[..i + 1]);
    assert es[..i + 1][..i] == es[..i];
    RunInvariant(cfg, es[..i + 1]);
    assert st.mode == Open && st.openAt == Some(es[i].now);
    NoEarlyAdmission(cfg, es, i + 1, j);
  }

  /** In particular after the event that opened the breaker, a failed probe included. */
  lemma OpeningHolds(cfg: CircuitConfig, es: seq<Event>, i: nat, j: nat)
    requires cfg.Valid() && MonotoneClock(es) && i < j < |es|
    requires es[i].Record? && After(cfg, es[..i]).mode != Open && After(cfg, es[..i + 1]).mode == Open
    requires AdmittedAt(cfg, es, j)
    ensures es[j].now >= es[i].now + cfg.cooldown
  {
    AfterNext(cfg, es[..i + 1]);
    assert es[..i + 1][..i] == es[..i];
    RunInvariant(cfg, es[..i]);
    RunInvariant(cfg, es[..i + 1]);
    RestartHolds(cfg, es, i, j);
  }

  /** The transitions: what takes the breaker from each mode to which other. */
  lemma Transitions(cfg: CircuitConfig, es: seq<Event>, e: Event)
    requires cfg.Valid()
    ensures var before, after := After(cfg, es).mode, After(cfg, es + [e]).mode;
      var failed := e.Record? && e.outcome != Success && e.outcome != ClientError;
      match before
      case Closed => after == if failed && FailuresSinceSuccess(es + [e]) >= cfg.openFailures then Open else Closed
      case Open => after == if e.Check? && AdmittedAt(cfg, es + [e], |es|) then HalfOpen else Open
      case HalfOpen =>
        after == if failed then Open else if e.Record? && e.outcome == Success then Closed else HalfOpen
  {
    assert (es + [e])[..|es|] == es;
    RunInvariant(cfg, es);
    RunInvariant(cfg, es + [e]);
  }

  /** How many events of the run satisfy the test. */
  function CountEvents(es: seq<Event>, test: Event -> bool): nat {
    if es == [] then 0 else CountEvents(es[..|es| - 1], test) + if test(es[|es| - 1]) then 1 else 0
  }

  function IsSuccess(): Event -> bool { (e: Event) => e.Record? && e.outcome == Success }

  function IsFailure(): Event -> bool {
    (e: Event) => e.Record? && e.outcome != Success && e.outcome != ClientError
  }

  /** The last outcome recorded in the run. */
  function LastRecorded(es: seq<Event>): Option<Category> {
    if es == [] then None
    else if es[|es| - 1].Record? then Some(es[|es| - 1].outcome)
    else LastRecorded(es[..|es| - 1])
  }

  /** The totals and the last outcome are those of the run. */
  lemma {:induction false} Totals(cfg: CircuitConfig, es: seq<Event>)
    ensures After(cfg, es).totalSuccesses == CountEvents(es, IsSuccess())
    ensures After(cfg, es).totalFailures == CountEvents(es, IsFailure())
    ensures After(cfg, es).lastOutcome == LastRecorded(es)
    decreases |es|
  {
    if es != [] { Totals(cfg, es[..|es| - 1]); }
  }
}
