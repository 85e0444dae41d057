/** The per-fetcher circuit breaker: escalating cooldowns and half-open probes. */
module FetcherHealth {
  datatype BreakerConfig = BreakerConfig(failureThreshold: nat, cooldownMs: real, maxCooldownMs: real)

  predicate ValidConfig(cfg: BreakerConfig) {
    cfg.failureThreshold >= 1 && 0.0 <= cfg.cooldownMs <= cfg.maxCooldownMs
  }

  datatype Breaker = Breaker(consecutiveFailures: nat, trips: nat, openUntil: real, probing: bool)

  const CLOSED := Breaker(0, 0, 0.0, false)

  /** The first cooldown doubled once for each further trip. */
  function Escalated(cfg: BreakerConfig, trips: nat): real {
    if trips <= 1 then cfg.cooldownMs else 2.0 * Escalated(cfg, trips - 1)
  }

  function Cooldown(cfg: BreakerConfig, trips: nat): real {
    if cfg.maxCooldownMs < Escalated(cfg, trips) then cfg.maxCooldownMs else Escalated(cfg, trips)
  }

  function Admit(b: Breaker, now: real): (Breaker, bool) {
    if b.openUntil == 0.0 then (b, true)
    else if now < b.openUntil then (b, false)
    else if b.probing then (b, false)
    else (b.(probing := true), true)
  }

  function AfterFailure(cfg: BreakerConfig, b: Breaker, now: real): Breaker {
    var failures := b.consecutiveFailures + 1;
    if b.probing || failures >= cfg.failureThreshold then
      Breaker(0, b.trips + 1, now + Cooldown(cfg, b.trips + 1), false)
    else
      Breaker(failures, b.trips, b.openUntil, false)
  }

  class FetcherHealthTracker {
    const config: BreakerConfig
    var states: map<string, Breaker>

    constructor (config: BreakerConfig)
      ensures this.config == config && states == map[]
    {
      this.config, states := config, map[];
    }

    function StateFor(id: string): Breaker
      reads this
    {
      if id in states then states[id] else CLOSED
    }

    method CanAttempt(id: string, now: real) returns (ok: bool)
      modifies this
      ensures (StateFor(id), ok) == Admit(old(StateFor(id)), now)
      ensures forall other :: other != id ==> StateFor(other) == old(StateFor(other))
    {
      var state := StateFor(id);
      states := states[id := state];
      if state.openUntil == 0.0 {
        return true;
      }
      if now < state.openUntil || state.probing {
        return false;
      }
      states := states[id := state.(probing := true)];
      return true;
    }

    method RecordSuccess(id: string)
      modifies this
      ensures StateFor(id) == CLOSED
      ensures forall other :: other != id ==> StateFor(other) == old(StateFor(other))
    {
      states := states[id := CLOSED];
    }

    method RecordFailure(id: string, now: real)
      modifies this
      ensures StateFor(id) == AfterFailure(config, old(StateFor(id)), now)
      ensures forall other :: other != id ==> StateFor(other) == old(StateFor(other))
    {
      var state := StateFor(id);
      var wasProbe := state.probing;
      state := state.(consecutiveFailures := state.consecutiveFailures + 1, probing := false);
      if wasProbe || state.consecutiveFailures >= config.failureThreshold {
        var trips := state.trips + 1;
        state := Breaker(0, trips, now + Cooldown(config, trips), false);
      }
      states := states[id := state];
    }
  }

  // ---- runs of one fetcher's breaker

  datatype Event = Ask(now: real) | Succeed | Fail(at: real)

  function Next(cfg: BreakerConfig, b: Breaker, e: Event): Breaker {
    match e
    case Ask(now) => Admit(b, now).0
    case Succeed => CLOSED
    case Fail(at) => AfterFailure(cfg, b, at)
  }

  function Exec(cfg: BreakerConfig, b: Breaker, es: seq<Event>): Breaker
    decreases |es|
  {
    if es == [] then b else Exec(cfg, Next(cfg, b, es[0]), es[1..])
  }

  /** How many of a run's asks are answered yes. */
  function Admissions(cfg: BreakerConfig, b: Breaker, es: seq<Event>): nat
    decreases |es|
  {
    if es == [] then 0
    else
      (if es[0].Ask? && Admit(b, es[0].now).1 then 1 else 0) + Admissions(cfg, Next(cfg, b, es[0]), es[1..])
  }

  lemma {:induction false} ExecAppend(cfg: BreakerConfig, b: Breaker, es: seq<Event>, e: Event)
    ensures Exec(cfg, b, es + [e]) == Next(cfg, Exec(cfg, b, es), e)
    ensures Admissions(cfg, b, es + [e]) ==
      Admissions(cfg, b, es) + (if e.Ask? && Admit(Exec(cfg, b, es), e.now).1 then 1 else 0)
    decreases |es|
  {
    if es == [] {
      assert [] + [e] == [e] && [e][1..] == [];
    } else {
      assert (es + [e])[1..] == es[1..] + [e];
      ExecAppend(cfg, Next(cfg, b, es[0]), es[1..], e);
    }
  }

  /** The outcomes recorded in a run, in order: true for a success. */
  function Outcomes(es: seq<Event>): seq<bool> {
    if es == [] then []
    else
      Outcomes(es[..|es| - 1]) +
      match es[|es| - 1] case Ask(_) => [] case Succeed => [true] case Fail(_) => [false]
  }

  /** The clock readings a run's events carry, in order. */
  function Times(es: seq<Event>): seq<real> {
    if es == [] then []
    else
      Times(es[..|es| - 1]) +
      match es[|es| - 1] case Ask(now) => [now] case Succeed => [] case Fail(at) => [at]
  }

  lemma TraceAppend(es: seq<Event>, e: Event)
    ensures Outcomes(es + [e]) ==
      Outcomes(es) + match e case Ask(_) => [] case Succeed => [true] case Fail(_) => [false]
    ensures Times(es + [e]) ==
      Times(es) + match e case Ask(now) => [now] case Succeed => [] case Fail(at) => [at]
  {
  }

  function Time(e: Event, clock: real): real {
    match e
    case Ask(now) => now
    case Succeed => clock
    case Fail(at) => at
  }

  /** The clock is positive and never goes back. */
  ghost predicate Clocked(es: seq<Event>, clock: real)
    decreases |es|
  {
    clock > 0.0 && (es != [] ==> clock <= Time(es[0], clock) && Clocked(es[1..], Time(es[0], clock)))
  }

  lemma {:induction false} CooldownGrows(cfg: BreakerConfig, trips: nat)
    requires ValidConfig(cfg)
    ensures 0.0 <= Escalated(cfg, trips) <= Escalated(cfg, trips + 1)
    ensures 0.0 <= Cooldown(cfg, trips) <= Cooldown(cfg, trips + 1)
  {
    if trips > 1 {
      CooldownGrows(cfg, trips - 1);
    }
  }

  /** Failures stay below the threshold, a tripped breaker is open, and an open one not for longer than its cooldown. */
  ghost predicate Inv(cfg: BreakerConfig, b: Breaker, clock: real) {
    && b.consecutiveFailures < cfg.failureThreshold
    && (b.openUntil == 0.0 <==> b.trips == 0)
    && (b.probing ==> b.openUntil != 0.0)
    && (b.trips > 0 ==> 0.0 < b.openUntil <= clock + Cooldown(cfg, b.trips))
  }

  lemma StepKeepsInv(cfg: BreakerConfig, b: Breaker, e: Event, clock: real)
    requires ValidConfig(cfg) && Inv(cfg, b, clock) && 0.0 < clock <= Time(e, clock)
    ensures Inv(cfg, Next(cfg, b, e), Time(e, clock))
    ensures !e.Succeed? && b.trips > 0 ==> b.openUntil <= Next(cfg, b, e).openUntil
  {
    CooldownGrows(cfg, b.trips);
    CooldownGrows(cfg, b.trips + 1);
  }

  /** In any run consecutive failures stay below the threshold, and closed means never tripped since a success. */
  lemma {:induction false} RunKeepsInv(cfg: BreakerConfig, b: Breaker, es: seq<Event>, clock: real)
    requires ValidConfig(cfg) && Inv(cfg, b, clock) && Clocked(es, clock)
    ensures Exec(cfg, b, es).consecutiveFailures < cfg.failureThreshold
    ensures Exec(cfg, b, es).openUntil == 0.0 <==> Exec(cfg, b, es).trips == 0
    decreases |es|
  {
    if es != [] {
      StepKeepsInv(cfg, b, es[0], clock);
      RunKeepsInv(cfg, Next(cfg, b, es[0]), es[1..], Time(es[0], clock));
    }
  }

  /** Once open, until a success is recorded, nothing is admitted before the time it opened until. */
  lemma {:induction false} NothingAdmittedEarly(cfg: BreakerConfig, b: Breaker, es: seq<Event>, now: real, clock: real)
    requires ValidConfig(cfg) && Inv(cfg, b, clock) && b.trips > 0
    requires Clocked(es, clock) && forall e :: e in es ==> !e.Succeed?
    requires Admit(Exec(cfg, b, es), now).1
    ensures b.openUntil <= now
    decreases |es|
  {
    if es != [] {
      assert es[0] in es;
      StepKeepsInv(cfg, b, es[0], clock);
      NothingAdmittedEarly(cfg, Next(cfg, b, es[0]), es[1..], now, Time(es[0], clock));
    }
  }

  /** While open, at most one probe is admitted between recorded outcomes, and none while one is out. */
  lemma {:induction false} OneProbeAtATime(cfg: BreakerConfig, b: Breaker, asks: seq<Event>)
    requires b.openUntil != 0.0 && forall e :: e in asks ==> e.Ask?
    ensures Admissions(cfg, b, asks) <= 1
    ensures b.probing ==> Admissions(cfg, b, asks) == 0
    decreases |asks|
  {
    if asks != [] {
      assert asks[0] in asks;
      OneProbeAtATime(cfg, Next(cfg, b, asks[0]), asks[1..]);
    }
  }

  // ---- a sequential client whose every attempt fails

  /** One attempt: when it was admitted and when its failure was recorded. */
  datatype FailedAttempt = FailedAttempt(asked: real, failed: real)

  /** Each attempt starts after the previous one failed, and the breaker admits it. */
  ghost predicate AllAdmitted(cfg: BreakerConfig, b: Breaker, attempts: seq<FailedAttempt>, clock: real)
    decreases |attempts|
  {
    attempts != [] ==>
      && 0.0 < clock <= attempts[0].asked <= attempts[0].failed
      && Admit(b, attempts[0].asked).1
      && AllAdmitted(cfg, AfterAttempt(cfg, b, attempts[0]), attempts[1..], attempts[0].failed)
  }

  function AfterAttempt(cfg: BreakerConfig, b: Breaker, a: FailedAttempt): Breaker {
    AfterFailure(cfg, Admit(b, a.asked).0, a.failed)
  }

  /** The sum of n cooldowns, the first of them that of the given trip. */
  function CooldownSum(cfg: BreakerConfig, first: nat, n: nat): real
    decreases n
  {
    if n == 0 then 0.0 else Cooldown(cfg, first) + CooldownSum(cfg, first + 1, n - 1)
  }

  /** From an open breaker the last of m attempts waits out the current cooldown and the m-1 that follow. */
  lemma {:induction false} ProbesWait(cfg: BreakerConfig, b: Breaker, attempts: seq<FailedAttempt>, clock: real)
    requires ValidConfig(cfg) && b.trips > 0 && b.openUntil > 0.0 && !b.probing
    requires attempts != [] && AllAdmitted(cfg, b, attempts, clock)
    ensures attempts[|attempts| - 1].asked >= b.openUntil + CooldownSum(cfg, b.trips + 1, |attempts| - 1)
    decreases |attempts|
  {
    if |attempts| > 1 {
      CooldownGrows(cfg, b.trips + 1);
      ProbesWait(cfg, AfterAttempt(cfg, b, attempts[0]), attempts[1..], attempts[0].failed);
    }
  }

  /**
   * A sequential client that always fails: from the failure that first trips the breaker, the m-th
   * further attempt is admitted no sooner than the sum of the first m cooldowns later.
   */
  lemma {:induction false} FailingClientIsSlowed(
      cfg: BreakerConfig, b: Breaker, attempts: seq<FailedAttempt>, clock: real)
    requires ValidConfig(cfg) && b.trips == 0 && b.openUntil == 0.0 && !b.probing
    requires b.consecutiveFailures < cfg.failureThreshold
    requires AllAdmitted(cfg, b, attempts, clock)
    requires |attempts| > cfg.failureThreshold - b.consecutiveFailures
    ensures var tripping := cfg.failureThreshold - b.consecutiveFailures;
      attempts[|attempts| - 1].asked >=
        attempts[tripping - 1].failed + CooldownSum(cfg, 1, |attempts| - tripping)
    decreases |attempts|
  {
    var next := AfterAttempt(cfg, b, attempts[0]);
    CooldownGrows(cfg, 1);
    if next.trips == 0 {
      FailingClientIsSlowed(cfg, next, attempts[1..], attempts[0].failed);
    } else {
      ProbesWait(cfg, next, attempts[1..], attempts[0].failed);
    }
  }

  // ---- when exactly a failing client is admitted again

  function Pow2(n: nat): nat {
    if n == 0 then 1 else 2 * Pow2(n - 1)
  }

  /** The first cooldown doubled n times. */
  function Doubled(cfg: BreakerConfig, n: nat): real { cfg.cooldownMs * Pow2(n) as real }

  function MinReal(a: real, b: real): real { if a < b then a else b }

  lemma {:induction false} EscalatedIs(cfg: BreakerConfig, trips: nat)
    requires trips >= 1
    ensures Escalated(cfg, trips) == Doubled(cfg, trips - 1)
  {
    if trips > 1 {
      EscalatedIs(cfg, trips - 1);
    }
  }

  /** The cooldown of a trip is the first one doubled for each trip before it, up to the maximum. */
  lemma CooldownIs(cfg: BreakerConfig, trips: nat)
    requires trips >= 1
    ensures Cooldown(cfg, trips) == MinReal(cfg.maxCooldownMs, Doubled(cfg, trips - 1))
  {
    EscalatedIs(cfg, trips);
  }

  function AfterAttempts(cfg: BreakerConfig, b: Breaker, attempts: seq<FailedAttempt>): Breaker
    decreases |attempts|
  {
    if attempts == [] then b else AfterAttempts(cfg, AfterAttempt(cfg, b, attempts[0]), attempts[1..])
  }

  /** Every admitted attempt of an open breaker is its probe, and each that fails trips it once more. */
  lemma {:induction false} ProbesTrip(cfg: BreakerConfig, b: Breaker, attempts: seq<FailedAttempt>, clock: real)
    requires ValidConfig(cfg) && b.trips > 0 && b.openUntil > 0.0 && !b.probing
    requires attempts != [] && AllAdmitted(cfg, b, attempts, clock)
    ensures var n, last := |attempts|, AfterAttempts(cfg, b, attempts);
      last.trips == b.trips + n && !last.probing
      && last.openUntil == attempts[n - 1].failed + Cooldown(cfg, b.trips + n) && last.openUntil > 0.0
    decreases |attempts|
  {
    CooldownGrows(cfg, b.trips + 1);
    if |attempts| > 1 {
      ProbesTrip(cfg, AfterAttempt(cfg, b, attempts[0]), attempts[1..], attempts[0].failed);
    }
  }

  lemma {:induction false} FailuresTrip(cfg: BreakerConfig, b: Breaker, attempts: seq<FailedAttempt>, clock: real)
    requires ValidConfig(cfg) && b.trips == 0 && b.openUntil == 0.0 && !b.probing
    requires b.consecutiveFailures < cfg.failureThreshold && AllAdmitted(cfg, b, attempts, clock)
    ensures var n, last, tripping := |attempts|, AfterAttempts(cfg, b, attempts), cfg.failureThreshold - b.consecutiveFailures;
      && !last.probing
      && (n < tripping ==> last.openUntil == 0.0)
      && (n >= tripping ==>
            last.openUntil == attempts[n - 1].failed + Cooldown(cfg, n - tripping + 1) && last.openUntil > 0.0)
    decreases |attempts|
  {
    if attempts != [] {
      var next := AfterAttempt(cfg, b, attempts[0]);
      CooldownGrows(cfg, 1);
      if next.trips == 0 {
        FailuresTrip(cfg, next, attempts[1..], attempts[0].failed);
      } else if |attempts| > 1 {
        ProbesTrip(cfg, next, attempts[1..], attempts[0].failed);
      }
    }
  }

  /**
   * A fetcher that has only failed so far, n times: while n is below the threshold it is always
   * admitted, and from then on exactly once the first cooldown, doubled n minus threshold times and
   * at most the maximum, has passed since its last failure.
   */
  lemma FailingClientAdmittedIff(cfg: BreakerConfig, attempts: seq<FailedAttempt>, clock: real, now: real)
    requires ValidConfig(cfg) && AllAdmitted(cfg, CLOSED, attempts, clock)
    ensures var n := |attempts|;
      Admit(AfterAttempts(cfg, CLOSED, attempts), now).1 <==>
        n < cfg.failureThreshold
        || now >= attempts[n - 1].failed
                  + MinReal(cfg.maxCooldownMs, Doubled(cfg, n - cfg.failureThreshold))
  {
    FailuresTrip(cfg, CLOSED, attempts, clock);
    if |attempts| >= cfg.failureThreshold {
      CooldownIs(cfg, |attempts| - cfg.failureThreshold + 1);
    }
  }

  /** A breaker whose time is over admits its probe, unless one is out, and a success lets everything in again. */
  lemma RecoversWhenOver(cfg: BreakerConfig, b: Breaker, clock: real, now: real, later: real)
    requires ValidConfig(cfg) && Inv(cfg, b, clock) && now >= b.openUntil && !b.probing
    ensures Admissions(cfg, b, [Ask(now)]) == 1
    ensures Admit(Exec(cfg, b, [Ask(now), Succeed]), later).1
  {
    assert [Ask(now)] == [] + [Ask(now)] && [Ask(now), Succeed] == [Ask(now)] + [Succeed];
    ExecAppend(cfg, b, [], Ask(now));
    ExecAppend(cfg, b, [Ask(now)], Succeed);
  }
}
