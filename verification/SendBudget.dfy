/** The send budget: runs and entries reserved within a rolling window. */
module SendBudget {
  import opened Wrappers

  datatype Options = Options(windowMs: nat, maxRuns: nat, maxEntries: nat, minIntervalMs: nat)

  predicate ValidOptions(o: Options) {
    o.windowMs > 0 && o.maxRuns > 0 && o.maxEntries > 0
  }

  datatype Budget = Budget(windowStartedAt: Option<int>, lastAcceptedAt: Option<int>, runs: nat, entries: nat)

  datatype Reason = MinimumInterval | WindowLimit

  /** Refused stands for the errors thrown on an entry count that is not positive or above the maximum. */
  datatype Decision =
    | Accepted(remainingRuns: int, remainingEntries: int)
    | Deferred(reason: Reason, retryAfterMs: int)
    | Refused

  const UNUSED := Budget(None, None, 0, 0)

  function ResetAt(now: int): Budget { Budget(Some(now), None, 0, 0) }

  /** A new window starts when there is none, when the clock went back, or when the window is over. */
  function RollWindow(o: Options, b: Budget, now: int): Budget {
    match b.windowStartedAt
    case None => ResetAt(now)
    case Some(start) => if now < start || now - start >= o.windowMs then ResetAt(now) else b
  }

  function Reserve(o: Options, b: Budget, now: int, entries: int): (Budget, Decision) {
    if entries <= 0 || entries > o.maxEntries then (b, Refused)
    else
      var r := RollWindow(o, b, now);
      if r.lastAcceptedAt.Some? && Elapsed(r, now) < o.minIntervalMs then
        (r, Deferred(MinimumInterval, o.minIntervalMs - Elapsed(r, now)))
      else if r.runs + 1 > o.maxRuns || r.entries + entries > o.maxEntries then
        (r, Deferred(WindowLimit, r.windowStartedAt.value + o.windowMs - now))
      else
        (Budget(r.windowStartedAt, Some(now), r.runs + 1, r.entries + entries),
         Accepted(o.maxRuns - (r.runs + 1), o.maxEntries - (r.entries + entries)))
  }

  function Elapsed(b: Budget, now: int): nat
    requires b.lastAcceptedAt.Some?
  {
    if now < b.lastAcceptedAt.value then 0 else now - b.lastAcceptedAt.value
  }

  /** None for a refund of more than is reserved, which throws. */
  function Refund(b: Budget, runs: nat, entries: nat): Option<Budget> {
    if runs == 0 && entries == 0 then Some(b)
    else if runs > b.runs || entries > b.entries then None
    else
      var left := b.(runs := b.runs - runs, entries := b.entries - entries);
      Some(if left.runs == 0 && left.entries == 0 then left.(lastAcceptedAt := None) else left)
  }

  ghost predicate WithinLimits(o: Options, b: Budget) {
    && b.runs <= o.maxRuns && b.entries <= o.maxEntries
    && (b.windowStartedAt.None? ==> b == UNUSED)
  }

  // ---- how much any interval can hold

  datatype Request = Request(now: int, entries: int)

  /** An accepted request and the window it was accepted in. */
  datatype Grant = Grant(at: int, entries: nat, window: int)

  function Next(o: Options, b: Budget, r: Request): Budget { Reserve(o, b, r.now, r.entries).0 }

  /** The grants a run of requests obtains. */
  function Grants(o: Options, b: Budget, requests: seq<Request>): seq<Grant>
    decreases |requests|
  {
    if requests == [] then []
    else
      var r := requests[0];
      var (next, decision) := Reserve(o, b, r.now, r.entries);
      var rest := Grants(o, next, requests[1..]);
      if decision.Accepted? then [Grant(r.now, r.entries, next.windowStartedAt.value)] + rest else rest
  }

  ghost predicate ClockNonDecreasing(requests: seq<Request>) {
    forall i, j :: 0 <= i < j < |requests| ==> requests[i].now <= requests[j].now
  }

  function RunsBetween(gs: seq<Grant>, lo: int, hi: int): nat {
    if gs == [] then 0 else (if lo <= gs[0].at < hi then 1 else 0) + RunsBetween(gs[1..], lo, hi)
  }

  function EntriesBetween(gs: seq<Grant>, lo: int, hi: int): nat {
    if gs == [] then 0 else (if lo <= gs[0].at < hi then gs[0].entries else 0) + EntriesBetween(gs[1..], lo, hi)
  }

  function RunsOf(gs: seq<Grant>, window: int): nat {
    if gs == [] then 0 else (if gs[0].window == window then 1 else 0) + RunsOf(gs[1..], window)
  }

  function EntriesOf(gs: seq<Grant>, window: int): nat {
    if gs == [] then 0 else (if gs[0].window == window then gs[0].entries else 0) + EntriesOf(gs[1..], window)
  }

  /** Each grant lies in its window, and different windows are at least a window length apart. */
  ghost predicate Spaced(o: Options, gs: seq<Grant>) {
    && (forall i :: 0 <= i < |gs| ==> gs[i].window <= gs[i].at < gs[i].window + o.windowMs)
    && (forall i, j :: 0 <= i < j < |gs| ==>
          gs[i].window == gs[j].window || gs[i].window + o.windowMs <= gs[j].window)
  }

  /** One request keeps the limits and either stays in the window or opens one after its end. */
  lemma ReserveStep(o: Options, b: Budget, r: Request)
    requires ValidOptions(o) && WithinLimits(o, b)
    requires b.windowStartedAt.Some? ==> b.windowStartedAt.value <= r.now
    ensures var (next, decision) := Reserve(o, b, r.now, r.entries);
      && WithinLimits(o, next)
      && (next.windowStartedAt.Some? ==> next.windowStartedAt.value <= r.now)
      && (b.windowStartedAt.Some? ==>
            next.windowStartedAt.Some?
            && (next.windowStartedAt == b.windowStartedAt
                || b.windowStartedAt.value + o.windowMs <= next.windowStartedAt.value))
      && (decision.Accepted? ==>
            next.windowStartedAt.Some?
            && next.windowStartedAt.value <= r.now < next.windowStartedAt.value + o.windowMs)
  {
  }

  ghost predicate NotBefore(requests: seq<Request>, b: Budget) {
    b.windowStartedAt.Some? && requests != [] ==> b.windowStartedAt.value <= requests[0].now
  }

  lemma TailNotBefore(o: Options, b: Budget, requests: seq<Request>)
    requires ValidOptions(o) && WithinLimits(o, b) && requests != []
    requires ClockNonDecreasing(requests) && NotBefore(requests, b)
    ensures ClockNonDecreasing(requests[1..]) && NotBefore(requests[1..], Next(o, b, requests[0]))
  {
  }

  /** A grant made in the current window or in one that starts after its end. */
  ghost predicate FromWindow(o: Options, g: Grant, b: Budget) {
    b.windowStartedAt.Some? ==>
      g.window == b.windowStartedAt.value || b.windowStartedAt.value + o.windowMs <= g.window
  }

  lemma PrependSpaced(o: Options, g: Grant, rest: seq<Grant>, next: Budget)
    requires Spaced(o, rest) && next.windowStartedAt == Some(g.window)
    requires g.window <= g.at < g.window + o.windowMs
    requires forall i :: 0 <= i < |rest| ==> FromWindow(o, rest[i], next)
    ensures Spaced(o, [g] + rest)
  {
  }

  lemma {:induction false} GrantsAreSpaced(o: Options, b: Budget, requests: seq<Request>)
    requires ValidOptions(o) && WithinLimits(o, b) && ClockNonDecreasing(requests) && NotBefore(requests, b)
    ensures Spaced(o, Grants(o, b, requests))
    ensures forall i :: 0 <= i < |Grants(o, b, requests)| ==> FromWindow(o, Grants(o, b, requests)[i], b)
    decreases |requests|
  {
    if requests != [] {
      ReserveStep(o, b, requests[0]);
      TailNotBefore(o, b, requests);
      var (next, decision) := Reserve(o, b, requests[0].now, requests[0].entries);
      var rest := Grants(o, next, requests[1..]);
      GrantsAreSpaced(o, next, requests[1..]);
      forall i | 0 <= i < |rest| ensures FromWindow(o, rest[i], b) {
        assert FromWindow(o, rest[i], next);
      }
      if decision.Accepted? {
        PrependSpaced(o, Grant(requests[0].now, requests[0].entries, next.windowStartedAt.value), rest, next);
      }
    }
  }

  /** No window, the current one included, is granted more than its limits. */
  lemma {:induction false} WindowsWithinLimits(o: Options, b: Budget, requests: seq<Request>, w: int)
    requires ValidOptions(o) && WithinLimits(o, b) && ClockNonDecreasing(requests) && NotBefore(requests, b)
    ensures var gs := Grants(o, b, requests);
      && RunsOf(gs, w) + (if b.windowStartedAt == Some(w) then b.runs else 0) <= o.maxRuns
      && EntriesOf(gs, w) + (if b.windowStartedAt == Some(w) then b.entries else 0) <= o.maxEntries
    decreases |requests|
  {
    if requests != [] {
      var next := Next(o, b, requests[0]);
      ReserveStep(o, b, requests[0]);
      TailNotBefore(o, b, requests);
      WindowsWithinLimits(o, next, requests[1..], w);
      if next.windowStartedAt.Some? && w < next.windowStartedAt.value {
        GrantsAreSpaced(o, next, requests[1..]);
        NoGrantsBefore(Grants(o, next, requests[1..]), w);
      }
    }
  }

  lemma NoGrantsBefore(gs: seq<Grant>, w: int)
    requires forall i :: 0 <= i < |gs| ==> gs[i].window != w
    ensures RunsOf(gs, w) == 0 && EntriesOf(gs, w) == 0
  {
  }

  /** Grants of an interval all made in one of two windows are no more than those windows hold. */
  lemma {:induction false} TwoWindowsHold(gs: seq<Grant>, lo: int, hi: int, w1: int, w2: int)
    requires forall i :: 0 <= i < |gs| && lo <= gs[i].at < hi ==> gs[i].window == w1 || gs[i].window == w2
    ensures RunsBetween(gs, lo, hi) <= RunsOf(gs, w1) + RunsOf(gs, w2)
    ensures EntriesBetween(gs, lo, hi) <= EntriesOf(gs, w1) + EntriesOf(gs, w2)
  {
    if gs != [] {
      TwoWindowsHold(gs[1..], lo, hi, w1, w2);
    }
  }

  predicate InInterval(o: Options, gs: seq<Grant>, i: nat, lo: int) {
    i < |gs| && lo <= gs[i].at < lo + o.windowMs
  }

  /** Of three grants in an interval no longer than a window, two share a window. */
  lemma NoThreeWindows(o: Options, gs: seq<Grant>, i: nat, j: nat, k: nat, lo: int)
    requires Spaced(o, gs)
    requires InInterval(o, gs, i, lo) && InInterval(o, gs, j, lo) && InInterval(o, gs, k, lo)
    ensures gs[i].window == gs[j].window || gs[k].window == gs[i].window || gs[k].window == gs[j].window
  {
  }

  /** An interval no longer than a window meets at most two windows. */
  lemma AtMostTwoWindows(o: Options, gs: seq<Grant>, lo: int) returns (w1: int, w2: int)
    requires Spaced(o, gs)
    ensures forall i :: 0 <= i < |gs| && lo <= gs[i].at < lo + o.windowMs ==> gs[i].window == w1 || gs[i].window == w2
  {
    w1, w2 := 0, 0;
    if i: nat :| InInterval(o, gs, i, lo) {
      w1 := gs[i].window;
      w2 := w1;
      if j: nat :| InInterval(o, gs, j, lo) && gs[j].window != w1 {
        w2 := gs[j].window;
        forall k | 0 <= k < |gs| && lo <= gs[k].at < lo + o.windowMs
          ensures gs[k].window == w1 || gs[k].window == w2
        {
          NoThreeWindows(o, gs, i, j, k, lo);
        }
      } else {
        forall k | 0 <= k < |gs| && lo <= gs[k].at < lo + o.windowMs ensures gs[k].window == w1 {
          assert InInterval(o, gs, k, lo);
        }
      }
    } else {
      forall k | 0 <= k < |gs| ensures !(lo <= gs[k].at < lo + o.windowMs) {
        assert !InInterval(o, gs, k, lo);
      }
    }
  }

  /**
   * With a clock that does not go back and no refunds, any interval as long as the window holds at
   * most twice the window's runs and entries.
   */
  lemma IntervalHoldsAtMostTwice(o: Options, requests: seq<Request>, lo: int)
    requires ValidOptions(o) && ClockNonDecreasing(requests)
    ensures var gs := Grants(o, UNUSED, requests);
      && RunsBetween(gs, lo, lo + o.windowMs) <= 2 * o.maxRuns
      && EntriesBetween(gs, lo, lo + o.windowMs) <= 2 * o.maxEntries
  {
    var gs := Grants(o, UNUSED, requests);
    GrantsAreSpaced(o, UNUSED, requests);
    var w1, w2 := AtMostTwoWindows(o, gs, lo);
    WindowsWithinLimits(o, UNUSED, requests, w1);
    WindowsWithinLimits(o, UNUSED, requests, w2);
    TwoWindowsHold(gs, lo, lo + o.windowMs, w1, w2);
  }

  // ---- the decision, read off what was granted before

  /** The budget after a run of requests. */
  function After(o: Options, b: Budget, requests: seq<Request>): Budget
    decreases |requests|
  {
    if requests == [] then b else After(o, Next(o, b, requests[0]), requests[1..])
  }

  lemma {:induction false} AfterAppend(o: Options, b: Budget, requests: seq<Request>, r: Request)
    ensures After(o, b, requests + [r]) == Next(o, After(o, b, requests), r)
    ensures Grants(o, b, requests + [r]) ==
      Grants(o, b, requests) + Granted(o, After(o, b, requests), r)
    decreases |requests|
  {
    if requests == [] {
      assert [] + [r] == [r] && [r][1..] == [];
    } else {
      assert (requests + [r])[1..] == requests[1..] + [r];
      AfterAppend(o, Next(o, b, requests[0]), requests[1..], r);
    }
  }

  /** What one request adds to the grants. */
  function Granted(o: Options, b: Budget, r: Request): seq<Grant> {
    var (next, decision) := Reserve(o, b, r.now, r.entries);
    if decision.Accepted? then [Grant(r.now, r.entries, next.windowStartedAt.value)] else []
  }

  lemma {:induction false} CountsAppend(gs: seq<Grant>, g: Grant, w: int)
    ensures RunsOf(gs + [g], w) == RunsOf(gs, w) + (if g.window == w then 1 else 0)
    ensures EntriesOf(gs + [g], w) == EntriesOf(gs, w) + (if g.window == w then g.entries else 0)
  {
    if gs == [] {
      assert [] + [g] == [g] && [g][1..] == [];
    } else {
      assert (gs + [g])[1..] == gs[1..] + [g];
      CountsAppend(gs[1..], g, w);
    }
  }

  /** The budget holds what its window was granted; no window opens without a grant. */
  ghost predicate Tracks(b: Budget, gs: seq<Grant>) {
    if gs == [] then b == UNUSED
    else
      var last := gs[|gs| - 1];
      b == Budget(Some(last.window), Some(last.at), RunsOf(gs, last.window), EntriesOf(gs, last.window))
  }

  /** No grant is of a window that starts later than the last one's. */
  ghost predicate WindowsUpTo(gs: seq<Grant>, w: int) {
    forall i :: 0 <= i < |gs| ==> gs[i].window <= w
  }

  lemma TrackStep(o: Options, b: Budget, gs: seq<Grant>, r: Request)
    requires ValidOptions(o) && Tracks(b, gs)
    requires gs != [] ==> gs[|gs| - 1].window <= r.now && WindowsUpTo(gs, gs[|gs| - 1].window)
    ensures var gs' := gs + Granted(o, b, r);
      && Tracks(Next(o, b, r), gs')
      && (gs' != [] ==> gs'[|gs'| - 1].window <= r.now && WindowsUpTo(gs', gs'[|gs'| - 1].window))
  {
    var more := Granted(o, b, r);
    if more == [] {
      assert gs + more == gs;
    } else {
      CountsAppend(gs, more[0], more[0].window);
      if gs != [] && gs[|gs| - 1].window < more[0].window {
        NoGrantsBefore(gs, more[0].window);
      }
    }
  }

  lemma {:induction false} RunTracks(o: Options, requests: seq<Request>)
    requires ValidOptions(o) && ClockNonDecreasing(requests)
    ensures var gs := Grants(o, UNUSED, requests);
      && Tracks(After(o, UNUSED, requests), gs)
      && (gs != [] ==> requests != [] && gs[|gs| - 1].window <= requests[|requests| - 1].now
                       && WindowsUpTo(gs, gs[|gs| - 1].window))
    decreases |requests|
  {
    if requests != [] {
      var n := |requests| - 1;
      RunTracks(o, requests[..n]);
      AfterAppend(o, UNUSED, requests[..n], requests[n]);
      assert requests == requests[..n] + [requests[n]];
      TrackStep(o, After(o, UNUSED, requests[..n]), Grants(o, UNUSED, requests[..n]), requests[n]);
    }
  }

  /** The decision by the last grant and what its window was granted. */
  function Decide(o: Options, last: Grant, runs: nat, entries: nat, r: Request): Decision
    requires runs <= o.maxRuns
  {
    if r.now >= last.window + o.windowMs then Accepted(o.maxRuns - 1, o.maxEntries - r.entries)
    else if r.now - last.at < o.minIntervalMs then Deferred(MinimumInterval, o.minIntervalMs - (r.now - last.at))
    else if runs == o.maxRuns || entries + r.entries > o.maxEntries then
      Deferred(WindowLimit, last.window + o.windowMs - r.now)
    else Accepted(o.maxRuns - runs - 1, o.maxEntries - entries - r.entries)
  }

  lemma DecideTracked(o: Options, last: Grant, runs: nat, entries: nat, r: Request)
    requires ValidOptions(o) && runs <= o.maxRuns && 0 < r.entries <= o.maxEntries
    requires last.window <= last.at <= r.now
    ensures Reserve(o, Budget(Some(last.window), Some(last.at), runs, entries), r.now, r.entries).1 ==
      Decide(o, last, runs, entries, r)
  {
  }

  /**
   * The decision on a request by what was granted before it: a count that is not allowed is refused;
   * otherwise a request is accepted when nothing was granted yet or the last grant's window is over,
   * and inside that window when the interval since the last grant is over and the window has room,
   * the remaining room being what its grants leave.
   */
  lemma DecisionByGrants(o: Options, requests: seq<Request>, r: Request)
    requires ValidOptions(o) && ClockNonDecreasing(requests + [r])
    ensures var gs := Grants(o, UNUSED, requests);
      var decision := Reserve(o, After(o, UNUSED, requests), r.now, r.entries).1;
      if r.entries <= 0 || r.entries > o.maxEntries then decision == Refused
      else if gs == [] then decision == Accepted(o.maxRuns - 1, o.maxEntries - r.entries)
      else
        var last := gs[|gs| - 1];
        RunsOf(gs, last.window) <= o.maxRuns
        && decision == Decide(o, last, RunsOf(gs, last.window), EntriesOf(gs, last.window), r)
  {
    var gs := Grants(o, UNUSED, requests);
    LastGrantSays(o, requests, r);
    if 0 < r.entries <= o.maxEntries {
      if gs == [] {
        FirstAccepted(o, r);
      } else {
        var last := gs[|gs| - 1];
        DecideTracked(o, last, RunsOf(gs, last.window), EntriesOf(gs, last.window), r);
      }
    }
  }

  lemma FirstAccepted(o: Options, r: Request)
    requires ValidOptions(o) && 0 < r.entries <= o.maxEntries
    ensures Reserve(o, UNUSED, r.now, r.entries).1 == Accepted(o.maxRuns - 1, o.maxEntries - r.entries)
  {
  }

  /** The budget is what the last grant's window was granted, within the limits and in the past. */
  lemma LastGrantSays(o: Options, requests: seq<Request>, r: Request)
    requires ValidOptions(o) && ClockNonDecreasing(requests + [r])
    ensures var gs := Grants(o, UNUSED, requests);
      && Tracks(After(o, UNUSED, requests), gs)
      && (gs != [] ==>
            var last := gs[|gs| - 1];
            last.window <= last.at <= r.now && RunsOf(gs, last.window) <= o.maxRuns)
  {
    var gs := Grants(o, UNUSED, requests);
    EarlierInOrder(requests, r);
    RunTracks(o, requests);
    GrantsInThePast(o, requests, r);
    if gs != [] {
      var last := gs[|gs| - 1];
      GrantsAreSpaced(o, UNUSED, requests);
      WindowsWithinLimits(o, UNUSED, requests, last.window);
    }
  }

  lemma EarlierInOrder(requests: seq<Request>, r: Request)
    requires ClockNonDecreasing(requests + [r])
    ensures ClockNonDecreasing(requests)
    ensures forall i :: 0 <= i < |requests| ==> requests[i].now <= r.now
  {
    assert forall i :: 0 <= i < |requests| ==> (requests + [r])[i] == requests[i];
    assert (requests + [r])[|requests|] == r;
  }

  lemma {:induction false} GrantsInThePast(o: Options, requests: seq<Request>, r: Request)
    requires ValidOptions(o) && ClockNonDecreasing(requests + [r])
    ensures forall g :: g in Grants(o, UNUSED, requests) ==> g.at <= r.now
    decreases |requests|
  {
    if requests != [] {
      var n := |requests| - 1;
      EarlierInOrder(requests, r);
      assert requests == requests[..n] + [requests[n]];
      GrantsInThePast(o, requests[..n], requests[n]);
      AfterAppend(o, UNUSED, requests[..n], requests[n]);
    }
  }

  /** Outside the current window, after its end or before its start, a request opens a new one and is accepted. */
  lemma OutsideWindowAccepts(o: Options, b: Budget, now: int, entries: int)
    requires ValidOptions(o) && 0 < entries <= o.maxEntries
    requires b.windowStartedAt.Some? ==>
      now < b.windowStartedAt.value || now >= b.windowStartedAt.value + o.windowMs
    ensures Reserve(o, b, now, entries) ==
      (Budget(Some(now), Some(now), 1, entries), Accepted(o.maxRuns - 1, o.maxEntries - entries))
  {
  }

  // ---- refunds

  /** A refund gives back just what it names, and is refused exactly when more is named than is reserved. */
  lemma RefundExact(b: Budget, runs: nat, entries: nat)
    ensures Refund(b, runs, entries).Some? <==> runs <= b.runs && entries <= b.entries
    ensures Refund(b, runs, entries).Some? ==>
      var left := Refund(b, runs, entries).value;
      && left.runs == b.runs - runs && left.entries == b.entries - entries
      && left.windowStartedAt == b.windowStartedAt
      && (left.lastAcceptedAt == b.lastAcceptedAt || (left.runs == 0 && left.entries == 0 && left.lastAcceptedAt.None?))
  {
  }

  /**
   * A reservation that is refunded leaves room for what was refunded: until the window ends, no more
   * entries are accepted again as soon as the interval is over, and at once if nothing else is reserved.
   */
  lemma RefundLeavesRoom(o: Options, b: Budget, now: int, entries: nat, t: int, again: nat)
    requires ValidOptions(o) && WithinLimits(o, b) && Reserve(o, b, now, entries).1.Accepted?
    requires 0 < again <= entries
    ensures var reserved := Reserve(o, b, now, entries).0;
      var refunded := Refund(reserved, 1, entries);
      && refunded.Some?
      && (now <= t < reserved.windowStartedAt.value + o.windowMs
          && (t - now >= o.minIntervalMs || (reserved.runs == 1 && reserved.entries == entries)) ==>
            Reserve(o, refunded.value, t, again).1 ==
              Accepted(o.maxRuns - reserved.runs, o.maxEntries - (reserved.entries - entries) - again))
  {
  }

  // ---- when to retry

  /** The state after retrying one request at each of the given times. */
  function Retry(o: Options, b: Budget, entries: int, times: seq<int>): Budget
    decreases |times|
  {
    if times == [] then b else Retry(o, Reserve(o, b, times[0], entries).0, entries, times[1..])
  }

  /**
   * A window-limit delay is exact: whatever retries come between, the same request is deferred at
   * every instant before it is over and accepted at the instant it is over.
   */
  lemma {:induction false} WindowLimitRetryExact(o: Options, b: Budget, now: int, entries: int, times: seq<int>, t: int)
    requires ValidOptions(o) && WithinLimits(o, b)
    requires Reserve(o, b, now, entries).1.Deferred? && Reserve(o, b, now, entries).1.reason == WindowLimit
    requires forall i :: 0 <= i < |times| ==> now <= times[i] < now + Reserve(o, b, now, entries).1.retryAfterMs
    ensures var (deferred, decision) := Reserve(o, b, now, entries);
      var state := Retry(o, deferred, entries, times);
      && decision.retryAfterMs >= 1
      && state == deferred
      && (now <= t < now + decision.retryAfterMs ==> Reserve(o, state, t, entries).1.Deferred?)
      && Reserve(o, state, now + decision.retryAfterMs, entries).1.Accepted?
    decreases |times|
  {
    if times != [] {
      var deferred := Reserve(o, b, now, entries).0;
      assert Reserve(o, deferred, times[0], entries).0 == deferred;
      WindowLimitRetryExact(o, b, now, entries, times[1..], t);
    }
  }

  /**
   * A minimum-interval delay is not exact: after the deferral the request is accepted from the end
   * of the window on, because a new window forgets the last acceptance, and before that exactly when
   * the interval since the last acceptance is over and the window has room. The clock may have gone
   * back inside the window before the deferral.
   */
  lemma MinimumIntervalRetryExactIff(o: Options, b: Budget, now: int, entries: int, t: int)
    requires ValidOptions(o) && WithinLimits(o, b)
    requires Reserve(o, b, now, entries).1.Deferred? && Reserve(o, b, now, entries).1.reason == MinimumInterval
    requires now <= t
    ensures var (deferred, decision) := Reserve(o, b, now, entries);
      var windowEnd := deferred.windowStartedAt.value + o.windowMs;
      Reserve(o, deferred, t, entries).1.Accepted? <==>
        || t >= windowEnd
        || (t >= deferred.lastAcceptedAt.value + o.minIntervalMs
            && deferred.runs + 1 <= o.maxRuns && deferred.entries + entries <= o.maxEntries)
  {
  }

  lemma AfterOne(o: Options, b: Budget, r: Request)
    ensures After(o, b, [r]) == Next(o, b, r)
  {
    assert [r][1..] == [];
  }

  lemma AfterTwo(o: Options, b: Budget, first: Request, second: Request)
    ensures After(o, b, [first, second]) == Next(o, Next(o, b, first), second)
  {
    assert [first, second][1..] == [second];
    AfterOne(o, Next(o, b, first), second);
  }

  /** A request deferred for half a second that would have been accepted 50 milliseconds later. */
  lemma MinimumIntervalRetryTooLong()
    ensures var o := Options(1000, 3, 5, 500);
      var b := After(o, UNUSED, [Request(0, 1), Request(900, 1)]);
      && Reserve(o, b, 950, 1) == (b, Deferred(MinimumInterval, 450))
      && Reserve(o, b, 1000, 1).1.Accepted?
  {
    AfterTwo(Options(1000, 3, 5, 500), UNUSED, Request(0, 1), Request(900, 1));
  }

  lemma OneRunLeavesFull()
    ensures After(Options(1000, 1, 5, 500), UNUSED, [Request(0, 1)]) == Budget(Some(0), Some(0), 1, 1)
  {
    AfterOne(Options(1000, 1, 5, 500), UNUSED, Request(0, 1));
  }

  lemma FullWindowAtOnce()
    ensures var o := Options(1000, 1, 5, 500);
      var b := After(o, UNUSED, [Request(0, 1)]);
      Reserve(o, b, 0, 1) == (b, Deferred(MinimumInterval, 500))
  {
    OneRunLeavesFull();
  }

  lemma FullWindowAfterDelay()
    ensures var o := Options(1000, 1, 5, 500);
      Reserve(o, After(o, UNUSED, [Request(0, 1)]), 500, 1).1 == Deferred(WindowLimit, 500)
  {
    OneRunLeavesFull();
  }

  /** A request deferred for half a second that is deferred again at the end of it, the window being full. */
  lemma MinimumIntervalRetryTooShort()
    ensures var o := Options(1000, 1, 5, 500);
      var b := After(o, UNUSED, [Request(0, 1)]);
      && Reserve(o, b, 0, 1) == (b, Deferred(MinimumInterval, 500))
      && Reserve(o, b, 500, 1).1 == Deferred(WindowLimit, 500)
  {
    FullWindowAtOnce();
    FullWindowAfterDelay();
  }

  /** The same with room left, after a clock that went back: the delay counts from the clock's own reading. */
  lemma ClockBackRetryTooShort()
    ensures var o := Options(1000, 3, 5, 300);
      var b := After(o, UNUSED, [Request(0, 1), Request(500, 1)]);
      && Reserve(o, b, 200, 1) == (b, Deferred(MinimumInterval, 300))
      && Reserve(o, b, 500, 1).1 == Deferred(MinimumInterval, 300)
      && b.runs < o.maxRuns && b.entries < o.maxEntries
  {
    AfterTwo(Options(1000, 3, 5, 300), UNUSED, Request(0, 1), Request(500, 1));
  }
}

/** The budget as the mutable object the sender keeps. */
module PwaSendBudgets {
  import opened Wrappers
  import opened SendBudget

  class PwaSendBudget {
    const options: Options
    var windowStartedAt: Option<int>
    var lastAcceptedAt: Option<int>
    var runs: nat
    var entries: nat

    constructor (options: Options)
      requires ValidOptions(options)
      ensures Valid() && this.options == options && State() == UNUSED
    {
      this.options := options;
      windowStartedAt, lastAcceptedAt, runs, entries := None, None, 0, 0;
    }

    ghost function State(): Budget
      reads this
    {
      Budget(windowStartedAt, lastAcceptedAt, runs, entries)
    }

    /** Reserved runs and entries never exceed the limits, refunds included. */
    ghost predicate Valid()
      reads this
    {
      ValidOptions(options) && WithinLimits(options, State())
    }

    method ResetMs(now: int)
      modifies this
      ensures State() == ResetAt(now)
    {
      windowStartedAt := Some(now);
      lastAcceptedAt := None;
      runs := 0;
      entries := 0;
    }

    method Roll(now: int)
      requires Valid()
      modifies this
      ensures Valid() && State() == RollWindow(options, old(State()), now)
    {
      if windowStartedAt.None? || now < windowStartedAt.value {
        ResetMs(now);
        return;
      }
      if now - windowStartedAt.value >= options.windowMs {
        ResetMs(now);
      }
    }

    method Reserve(now: int, count: int) returns (decision: Decision)
      requires Valid()
      modifies this
      ensures Valid() && (State(), decision) == SendBudget.Reserve(options, old(State()), now, count)
    {
      if count <= 0 || count > options.maxEntries {
        return Refused;
      }
      Roll(now);
      if lastAcceptedAt.Some? {
        var elapsed := if now < lastAcceptedAt.value then 0 else now - lastAcceptedAt.value;
        if elapsed < options.minIntervalMs {
          return Deferred(MinimumInterval, options.minIntervalMs - elapsed);
        }
      }
      var retryAfterMs := windowStartedAt.value + options.windowMs - now;
      if retryAfterMs < 1 {
        retryAfterMs := 1;
      }
      if runs + 1 > options.maxRuns || entries + count > options.maxEntries {
        return Deferred(WindowLimit, retryAfterMs);
      }
      runs := runs + 1;
      entries := entries + count;
      lastAcceptedAt := Some(now);
      return Accepted(options.maxRuns - runs, options.maxEntries - entries);
    }

    method Refund(refundRuns: nat, refundEntries: nat) returns (ok: bool)
      requires Valid()
      modifies this
      ensures Valid()
      ensures ok == SendBudget.Refund(old(State()), refundRuns, refundEntries).Some?
      ensures State() == if ok then SendBudget.Refund(old(State()), refundRuns, refundEntries).value else old(State())
    {
      if refundRuns == 0 && refundEntries == 0 {
        return true;
      }
      if refundRuns > runs || refundEntries > entries {
        return false;
      }
      runs := runs - refundRuns;
      entries := entries - refundEntries;
      if runs == 0 && entries == 0 {
        lastAcceptedAt := None;
      }
      return true;
    }
  }
}
