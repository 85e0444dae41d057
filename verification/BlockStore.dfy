/** Content-addressed block retrieval over untrusted fetchers. */
module BlockStore {
  import opened Wrappers
  import opened Positional
  import opened FetcherHealth

  type Bytes = seq<Byte>

  /** What a fetcher resolves with; Malformed is any value of the wrong shape. */
  datatype FetchResult = Threw | Malformed | NotFound | TransientError | Fetched(bytes: Bytes)

  /** A reference to a block, as far as retrieval depends on it. */
  datatype BlockRef = BlockRef(
    verifiable: bool,
    byteLength: nat,
    encrypted: bool,
    compression: Option<Compression>
  )
  datatype Compression = Compression(encodedSize: nat, decodedSize: nat)

  datatype AttemptOutcome =
    | Retrieved | Missing | Transient | LengthMismatch | DigestMismatch | SkippedUnhealthy

  datatype Attempt = Attempt(fetcherId: string, outcome: AttemptOutcome)

  datatype Outcome =
    | VerifiedBlock(bytes: Bytes)
    | VerificationUnsupported
    | ByteCapExceeded
    | InvalidInput
    | DecodedSizeExceeded
    | DecodeFailed
    | Aborted
    | Unavailable

  /** The n-th request made to a fetcher within one retrieval. */
  datatype Call = Call(fetcher: nat, attempt: nat)

  /**
   * Everything outside the store: what each call resolves with, what the clock says at its n-th
   * reading, whether the n-th look at the abort signal finds it set, the digest check of the
   * reference, and the decoder, None where it throws.
   */
  datatype Env = Env(
    respond: Call -> FetchResult,
    clock: nat -> real,
    abortSeen: nat -> bool,
    digestOk: Bytes -> bool,
    decode: Bytes -> Option<Bytes>
  )

  /** The answer has the declared length and the referenced digest. */
  predicate Correct(env: Env, block: BlockRef, r: FetchResult) {
    r.Fetched? && |r.bytes| == block.byteLength && env.digestOk(r.bytes)
  }

  predicate Retryable(r: FetchResult) {
    r.Threw? || r.Malformed? || r.TransientError?
  }

  /** What the store hands out for correct fetched bytes: ciphertext as it is, cleartext decoded. */
  function Delivered(env: Env, block: BlockRef, bytes: Bytes): Option<Bytes> {
    if block.encrypted then Some(bytes) else env.decode(bytes)
  }

  /** How an answer is entered in the attempt log. */
  function OutcomeOf(env: Env, block: BlockRef, r: FetchResult): AttemptOutcome {
    match r
    case NotFound => Missing
    case Fetched(bytes) =>
      if |bytes| != block.byteLength then LengthMismatch
      else if !env.digestOk(bytes) then DigestMismatch
      else Retrieved
    case _ => Transient
  }

  /** The entry says what the answer was worth. */
  lemma OutcomeSays(env: Env, block: BlockRef, r: FetchResult)
    ensures var outcome := OutcomeOf(env, block, r);
      && (outcome.Retrieved? <==> Correct(env, block, r))
      && (outcome.Transient? <==> Retryable(r))
      && (outcome.Missing? <==> r.NotFound?)
      && (outcome.LengthMismatch? <==> r.Fetched? && |r.bytes| != block.byteLength)
      && (outcome.DigestMismatch? <==> r.Fetched? && |r.bytes| == block.byteLength && !env.digestOk(r.bytes))
  {
  }

  /** One log entry for each call, in order; a call cut short by an abort leaves none. */
  ghost predicate Logged(env: Env, block: BlockRef, id: string, calls: seq<Call>, log: seq<Attempt>) {
    && |log| <= |calls| <= |log| + 1
    && forall k :: 0 <= k < |log| ==> log[k] == Attempt(id, OutcomeOf(env, block, env.respond(calls[k])))
  }

  /** Every call left its entry; only a consultation cut short by an abort lacks one. */
  ghost predicate Complete(c: Consult) {
    |c.calls| <= |c.log|
  }

  /** Which logged attempts count as successes of the fetcher: an answer either way, but not a wrong one. */
  function Healthy(log: seq<Attempt>): seq<bool> {
    seq(|log|, k requires 0 <= k < |log| => log[k].outcome.Retrieved? || log[k].outcome.Missing?)
  }

  lemma HealthyAppend(log: seq<Attempt>, a: Attempt)
    ensures Healthy(log + [a]) == Healthy(log) + [a.outcome.Retrieved? || a.outcome.Missing?]
  {
  }

  /** n successive readings of the clock. */
  function Readings(env: Env, from: nat, n: nat): seq<real> {
    seq(n, k requires 0 <= k < n => env.clock(from + k))
  }

  lemma ReadingsAppend(env: Env, from: nat, n: nat)
    ensures Readings(env, from, n) + [env.clock(from + n)] == Readings(env, from, n + 1)
  {
  }

  /**
   * What became of one fetcher: its log entries, the calls made to it and the events its breaker
   * saw, from the given reading of the clock on.
   */
  datatype Consult = Consult(start: nat, log: seq<Attempt>, calls: seq<Call>, events: seq<Event>)

  /**
   * The breaker's events tell the same story as the log: every logged outcome was recorded once, in
   * order and at its own reading of the clock, and every call had an admission of its own.
   */
  ghost predicate Accounted(cfg: BreakerConfig, b: Breaker, env: Env, c: Consult) {
    && Times(c.events) == Readings(env, c.start, |Times(c.events)|)
    && |c.calls| <= Admissions(cfg, b, c.events)
    && if c.log != [] && c.log[0].outcome.SkippedUnhealthy? then |c.log| == 1 && Outcomes(c.events) == []
       else Outcomes(c.events) == Healthy(c.log)
  }

  /** The breaker counts an answer as a success exactly if it is a correct block or says there is none. */
  lemma RecordedAsAnswered(cfg: BreakerConfig, b: Breaker, env: Env, block: BlockRef, id: string, c: Consult, k: nat)
    requires Accounted(cfg, b, env, c) && Logged(env, block, id, c.calls, c.log) && k < |c.log|
    ensures |Outcomes(c.events)| == |c.log|
    ensures Outcomes(c.events)[k] <==> env.respond(c.calls[k]).NotFound? || Correct(env, block, env.respond(c.calls[k]))
  {
    OutcomeSays(env, block, env.respond(c.calls[0]));
    OutcomeSays(env, block, env.respond(c.calls[k]));
    assert c.log[0] == Attempt(id, OutcomeOf(env, block, env.respond(c.calls[0])));
    assert c.log[k] == Attempt(id, OutcomeOf(env, block, env.respond(c.calls[k])));
  }

  /** What verified bytes lead to. */
  function Verdict(env: Env, block: BlockRef, bytes: Bytes): Outcome {
    match Delivered(env, block, bytes)
    case None => DecodeFailed
    case Some(decoded) => VerifiedBlock(decoded)
  }

  /** The calls of one fetcher: attempts in order, each but the last answered with something retryable. */
  ghost predicate FetcherCalls(env: Env, fetcher: nat, calls: seq<Call>, maxAttempts: nat) {
    && |calls| <= maxAttempts
    && (forall k :: 0 <= k < |calls| ==> calls[k] == Call(fetcher, k))
    && (forall k :: 0 <= k < |calls| - 1 ==> Retryable(env.respond(calls[k])))
  }

  /** The verdict a retrieval may return, and what it rests on. */
  ghost predicate Justified(env: Env, block: BlockRef, calls: seq<Call>, outcome: Outcome) {
    match outcome
    case VerifiedBlock(bytes) =>
      && calls != []
      && Correct(env, block, env.respond(calls[|calls| - 1]))
      && (if block.encrypted then bytes == env.respond(calls[|calls| - 1]).bytes
          else env.decode(env.respond(calls[|calls| - 1]).bytes) == Some(bytes))
    case DecodeFailed =>
      && calls != []
      && Correct(env, block, env.respond(calls[|calls| - 1]))
      && !block.encrypted && env.decode(env.respond(calls[|calls| - 1]).bytes) == None
    case Aborted => exists n :: env.abortSeen(n)
    case Unavailable => true
    case _ => calls == []
  }

  class Store {
    const fetchers: seq<string>
    const health: FetcherHealthTracker
    const maxAttempts: nat
    const maxBlockBytes: nat
    const maxDecodedBytes: nat
    // How often the clock and the abort signal have been looked at.
    var ticks: nat
    var looks: nat

    constructor (fetchers: seq<string>, health: FetcherHealthTracker, maxAttempts: nat,
                 maxBlockBytes: nat, maxDecodedBytes: nat)
      requires forall i, j :: 0 <= i < j < |fetchers| ==> fetchers[i] != fetchers[j]
      requires maxAttempts >= 1
      ensures this.fetchers == fetchers && this.health == health && this.maxAttempts == maxAttempts
      ensures this.maxBlockBytes == maxBlockBytes && this.maxDecodedBytes == maxDecodedBytes
      ensures Valid()
    {
      this.fetchers, this.health, this.maxAttempts := fetchers, health, maxAttempts;
      this.maxBlockBytes, this.maxDecodedBytes := maxBlockBytes, maxDecodedBytes;
      ticks, looks := 0, 0;
    }

    ghost predicate Valid()
    {
      && maxAttempts >= 1
      && forall i, j :: 0 <= i < j < |fetchers| ==> fetchers[i] != fetchers[j]
    }

    method Now(env: Env) returns (now: real)
      modifies this`ticks
      ensures now == env.clock(old(ticks)) && ticks == old(ticks) + 1
    {
      now := env.clock(ticks);
      ticks := ticks + 1;
    }

    method SeesAbort(env: Env) returns (aborted: bool)
      modifies this`looks
      ensures aborted ==> exists n :: env.abortSeen(n)
    {
      aborted := env.abortSeen(looks);
      looks := looks + 1;
    }

    /** Only this fetcher's breaker is touched. */
    twostate predicate OthersHealthy(id: string)
      reads health
    {
      forall other :: other != id ==> health.StateFor(other) == old(health.StateFor(other))
    }

    /** Since the clock stood at from, the fetcher's breaker went from b through exactly these events. */
    ghost predicate Traced(env: Env, id: string, b: Breaker, from: nat, events: seq<Event>)
      reads this, health
    {
      && health.StateFor(id) == Exec(health.config, b, events)
      && ticks == from + |Times(events)|
      && Times(events) == Readings(env, from, |Times(events)|)
    }

    /** Asks the breaker, at a fresh reading of the clock. */
    method AskBreaker(id: string, env: Env, ghost b: Breaker, ghost from: nat, ghost events: seq<Event>)
      returns (ok: bool, ghost events': seq<Event>)
      requires Traced(env, id, b, from, events)
      modifies this`ticks, health
      ensures Traced(env, id, b, from, events') && OthersHealthy(id)
      ensures events' == events + [Ask(env.clock(from + |Times(events)|))] && Outcomes(events') == Outcomes(events)
      ensures ok == Admit(Exec(health.config, b, events), env.clock(from + |Times(events)|)).1
      ensures Admissions(health.config, b, events') == Admissions(health.config, b, events) + (if ok then 1 else 0)
    {
      var now := Now(env);
      ok := health.CanAttempt(id, now);
      events' := events + [Ask(now)];
      ExecAppend(health.config, b, events, Ask(now));
      TraceAppend(events, Ask(now));
      ReadingsAppend(env, from, |Times(events)|);
    }

    /** Records a logged outcome with the breaker; a failure takes a fresh reading of the clock. */
    method RecordOutcome(id: string, outcome: AttemptOutcome, env: Env,
                         ghost b: Breaker, ghost from: nat, ghost events: seq<Event>)
      returns (ghost events': seq<Event>)
      requires Traced(env, id, b, from, events)
      modifies this`ticks, health
      ensures Traced(env, id, b, from, events') && OthersHealthy(id)
      ensures events' == events +
        [if outcome.Retrieved? || outcome.Missing? then Succeed else Fail(env.clock(from + |Times(events)|))]
      ensures Outcomes(events') == Outcomes(events) + [outcome.Retrieved? || outcome.Missing?]
      ensures Admissions(health.config, b, events') == Admissions(health.config, b, events)
      ensures !(outcome.Retrieved? || outcome.Missing?) ==> |Times(events')| == |Times(events)| + 1
    {
      ghost var e := Succeed;
      if outcome.Retrieved? || outcome.Missing? {
        health.RecordSuccess(id);
      } else {
        var now := Now(env);
        health.RecordFailure(id, now);
        e := Fail(now);
        ReadingsAppend(env, from, |Times(events)|);
      }
      events' := events + [e];
      ExecAppend(health.config, b, events, e);
      TraceAppend(events, e);
    }

    /** After a recorded answer: the breaker is asked again only where a retry makes sense and is left. */
    method Readmit(id: string, outcome: AttemptOutcome, attempt: nat, env: Env,
                   ghost b: Breaker, ghost from: nat, ghost events: seq<Event>)
      returns (again: bool, aborted: bool, ghost events': seq<Event>)
      requires Traced(env, id, b, from, events)
      modifies this`ticks, this`looks, health
      ensures Traced(env, id, b, from, events') && OthersHealthy(id) && Outcomes(events') == Outcomes(events)
      ensures !aborted ==>
        (again <==> outcome.Transient? && attempt + 1 < maxAttempts
                    && Admit(Exec(health.config, b, events), env.clock(from + |Times(events)|)).1)
      ensures aborted ==> !again && exists n :: env.abortSeen(n)
      ensures again ==> events' == events + [Ask(env.clock(from + |Times(events)|))]
      ensures Admissions(health.config, b, events') >= Admissions(health.config, b, events)
      ensures again ==> Admissions(health.config, b, events') == Admissions(health.config, b, events) + 1
    {
      again, aborted, events' := false, false, events;
      if outcome.Transient? && attempt + 1 < maxAttempts {
        again, events' := AskBreaker(id, env, b, from, events);
        if again {
          aborted := SeesAbort(env);
          again := !aborted;
        }
      }
    }

    /** Another attempt follows a failed one: an attempt is left and the breaker admits it. */
    ghost predicate GoesOn(env: Env, call: Call, b: Breaker, from: nat, events: seq<Event>)
    {
      var failed := events + [Fail(env.clock(from + |Times(events)|))];
      && Retryable(env.respond(call)) && call.attempt + 1 < maxAttempts
      && Admit(Exec(health.config, b, failed), env.clock(from + |Times(events)| + 1)).1
    }

    /**
     * What one request comes to: the entry and the recorded outcome match the answer, a verdict rests
     * on a correct answer or an abort, and without one the answer was not correct and another attempt
     * follows exactly where one may.
     */
    ghost predicate Attempted(env: Env, block: BlockRef, id: string, call: Call, b: Breaker, from: nat,
                              events: seq<Event>, verdict: Option<Outcome>, again: bool, called: bool,
                              entry: Option<Attempt>, events': seq<Event>) {
      var at := from + |Times(events)|;
      && (entry.Some? ==> called && entry.value == Attempt(id, OutcomeOf(env, block, env.respond(call))))
      && Outcomes(events') == Outcomes(events) +
           (if entry.Some? then [entry.value.outcome.Retrieved? || entry.value.outcome.Missing?] else [])
      && Admissions(health.config, b, events') >= Admissions(health.config, b, events)
      && match verdict
         case None =>
           && entry.Some? && !Correct(env, block, env.respond(call))
           && (again <==> GoesOn(env, call, b, from, events))
           && (again ==>
                 && events' == events + [Fail(env.clock(at)), Ask(env.clock(at + 1))]
                 && Admissions(health.config, b, events') == Admissions(health.config, b, events) + 1)
         case Some(Aborted) => !again && exists n :: env.abortSeen(n)
         case Some(outcome) =>
           && !again && entry.Some? && Correct(env, block, env.respond(call))
           && outcome == Verdict(env, block, env.respond(call).bytes)
    }

    /** What is made of an answer: it is logged, recorded with the breaker, and ends the attempts or not. */
    method Judge(id: string, call: Call, block: BlockRef, env: Env,
                 ghost b: Breaker, ghost from: nat, ghost events: seq<Event>)
      returns (verdict: Option<Outcome>, again: bool, entry: Option<Attempt>, ghost events': seq<Event>)
      requires Traced(env, id, b, from, events)
      modifies this`ticks, this`looks, health
      ensures Traced(env, id, b, from, events') && OthersHealthy(id)
      ensures Attempted(env, block, id, call, b, from, events, verdict, again, true, entry, events')
    {
      var result := env.respond(call);
      var outcome := OutcomeOf(env, block, result);
      again := false;
      events' := RecordOutcome(id, outcome, env, b, from, events);
      entry := Some(Attempt(id, outcome));
      if outcome.Retrieved? {
        verdict := Some(Verdict(env, block, result.bytes));
        return;
      }
      var aborted;
      again, aborted, events' := Readmit(id, outcome, call.attempt, env, b, from, events');
      verdict := if aborted then Some(Aborted) else None;
    }

    /** One request to an admitted fetcher and what is made of the answer; again says to go on with it. */
    method AttemptOnce(id: string, call: Call, block: BlockRef, env: Env,
                       ghost b: Breaker, ghost from: nat, ghost events: seq<Event>)
      returns (verdict: Option<Outcome>, again: bool, called: bool, entry: Option<Attempt>, ghost events': seq<Event>)
      requires Traced(env, id, b, from, events)
      modifies this`ticks, this`looks, health
      ensures Traced(env, id, b, from, events') && OthersHealthy(id)
      ensures Attempted(env, block, id, call, b, from, events, verdict, again, called, entry, events')
    {
      verdict, again, called, entry, events' := Some(Aborted), false, false, None, events;
      var aborted := SeesAbort(env);
      if aborted {
        return;
      }
      called := true;
      aborted := SeesAbort(env);
      if aborted {
        return;
      }
      verdict, again, entry, events' := Judge(id, call, block, env, b, from, events);
    }

    /** So far every attempt failed in a way worth a retry, and the next one is admitted. */
    ghost predicate Underway(env: Env, block: BlockRef, fetcher: nat, b: Breaker, c: Consult, attempt: nat)
      requires fetcher < |fetchers|
    {
      && attempt == |c.calls| == |c.log| < maxAttempts
      && FetcherCalls(env, fetcher, c.calls, maxAttempts)
      && Logged(env, block, fetchers[fetcher], c.calls, c.log)
      && Outcomes(c.events) == Healthy(c.log)
      && Admissions(health.config, b, c.events) == attempt + 1
      && Persisting(env, fetcher, b, c.start, c.events, attempt)
      && AdmitsAttempt(env, b, c.start, 0)
    }

    /** A consultation of an admitted fetcher that has come to its end. */
    ghost predicate Over(env: Env, block: BlockRef, fetcher: nat, b: Breaker, c: Consult, verdict: Option<Outcome>)
      requires fetcher < |fetchers|
    {
      && FetcherCalls(env, fetcher, c.calls, maxAttempts)
      && Logged(env, block, fetchers[fetcher], c.calls, c.log)
      && Outcomes(c.events) == Healthy(c.log)
      && |c.calls| <= Admissions(health.config, b, c.events)
      && (verdict != Some(Aborted) ==> Complete(c))
      && match verdict
         case None => !Serves(env, block, fetcher, b, c.start) && Exhausted(env, fetcher, b, c)
         case Some(outcome) => FinalVerdict(env, block, c, outcome)
    }

    /** The consultation with one more attempt. */
    ghost function WithAttempt(c: Consult, call: Call, called: bool, entry: Option<Attempt>, events: seq<Event>): Consult {
      Consult(c.start, if entry.Some? then c.log + [entry.value] else c.log,
              if called then c.calls + [call] else c.calls, events)
    }

    lemma AttemptKeepsBooks(env: Env, block: BlockRef, fetcher: nat, b: Breaker, c: Consult, attempt: nat,
                            verdict: Option<Outcome>, again: bool, called: bool, entry: Option<Attempt>,
                            events': seq<Event>)
      requires fetcher < |fetchers| && Underway(env, block, fetcher, b, c, attempt)
      requires Attempted(env, block, fetchers[fetcher], Call(fetcher, attempt), b, c.start, c.events,
                         verdict, again, called, entry, events')
      ensures var c' := WithAttempt(c, Call(fetcher, attempt), called, entry, events');
        && FetcherCalls(env, fetcher, c'.calls, maxAttempts)
        && Logged(env, block, fetchers[fetcher], c'.calls, c'.log)
        && Outcomes(c'.events) == Healthy(c'.log)
        && |c'.calls| <= Admissions(health.config, b, c'.events)
    {
      if entry.Some? {
        HealthyAppend(c.log, entry.value);
      }
    }

    lemma AttemptGoesOn(env: Env, block: BlockRef, fetcher: nat, b: Breaker, c: Consult, attempt: nat,
                        called: bool, entry: Option<Attempt>, events': seq<Event>)
      requires fetcher < |fetchers| && Underway(env, block, fetcher, b, c, attempt)
      requires Attempted(env, block, fetchers[fetcher], Call(fetcher, attempt), b, c.start, c.events,
                         None, true, called, entry, events')
      ensures Underway(env, block, fetcher, b, WithAttempt(c, Call(fetcher, attempt), called, entry, events'), attempt + 1)
    {
      AttemptKeepsBooks(env, block, fetcher, b, c, attempt, None, true, called, entry, events');
      PersistingGrows(env, fetcher, b, c.start, c.events, attempt);
      var at := c.start + |Times(c.events)|;
      assert c.events + [Fail(env.clock(at)), Ask(env.clock(at + 1))]
        == c.events + [Fail(env.clock(at))] + [Ask(env.clock(at + 1))];
    }

    lemma AttemptEnds(env: Env, block: BlockRef, fetcher: nat, b: Breaker, c: Consult, attempt: nat,
                      verdict: Option<Outcome>, called: bool, entry: Option<Attempt>, events': seq<Event>)
      requires fetcher < |fetchers| && Underway(env, block, fetcher, b, c, attempt)
      requires Attempted(env, block, fetchers[fetcher], Call(fetcher, attempt), b, c.start, c.events,
                         verdict, false, called, entry, events')
      ensures Over(env, block, fetcher, b, WithAttempt(c, Call(fetcher, attempt), called, entry, events'), verdict)
    {
      AttemptKeepsBooks(env, block, fetcher, b, c, attempt, verdict, false, called, entry, events');
      if verdict.None? {
        PersistingGrows(env, fetcher, b, c.start, c.events, attempt);
        GivenUp(env, block, fetcher, b, c.start, attempt);
      }
    }

    /** The attempts at one admitted fetcher; None when the store goes on to the next one. */
    method TryFetcher(fetcher: nat, block: BlockRef, env: Env,
                      ghost b: Breaker, ghost from: nat, ghost asked: seq<Event>)
      returns (verdict: Option<Outcome>, log: seq<Attempt>, ghost c: Consult)
      requires Valid() && fetcher < |fetchers| && Traced(env, fetchers[fetcher], b, from, asked)
      requires Underway(env, block, fetcher, b, Consult(from, [], [], asked), 0)
      modifies this`ticks, this`looks, health
      ensures OthersHealthy(fetchers[fetcher]) && Traced(env, fetchers[fetcher], b, from, c.events)
      ensures Over(env, block, fetcher, b, c, verdict) && c.start == from && c.log == log
    {
      verdict, log, c := None, [], Consult(from, [], [], asked);
      var attempt := 0;
      var again := true;
      while again
        invariant Traced(env, fetchers[fetcher], b, from, c.events) && OthersHealthy(fetchers[fetcher])
        invariant c.start == from && c.log == log
        invariant if again then Underway(env, block, fetcher, b, c, attempt)
                  else Over(env, block, fetcher, b, c, verdict)
        decreases again, maxAttempts - attempt
      {
        var called, entry;
        ghost var events;
        verdict, again, called, entry, events :=
          AttemptOnce(fetchers[fetcher], Call(fetcher, attempt), block, env, b, from, c.events);
        if again {
          AttemptGoesOn(env, block, fetcher, b, c, attempt, called, entry, events);
        } else {
          AttemptEnds(env, block, fetcher, b, c, attempt, verdict, called, entry, events);
        }
        c := WithAttempt(c, Call(fetcher, attempt), called, entry, events);
        if entry.Some? {
          log := log + [entry.value];
        }
        attempt := attempt + 1;
      }
    }

    /** The caps and consistency checks made before any bytes move; None when the fetch may go ahead. */
    function Refusal(block: BlockRef): (refusal: Option<Outcome>)
      ensures refusal.None? <==> WithinCaps(block)
    {
      if !block.verifiable then Some(VerificationUnsupported)
      else if block.byteLength > maxBlockBytes then Some(ByteCapExceeded)
      else if !block.encrypted && block.compression.Some? && block.compression.value.encodedSize != block.byteLength
        then Some(InvalidInput)
      else if !block.encrypted && block.compression.Some? && block.compression.value.decodedSize > maxDecodedBytes
        then Some(DecodedSizeExceeded)
      else None
    }

    /** What must hold of a reference before anything is fetched for it. */
    predicate WithinCaps(block: BlockRef) {
      && block.verifiable && block.byteLength <= maxBlockBytes
      && (!block.encrypted && block.compression.Some? ==>
            && block.compression.value.encodedSize == block.byteLength
            && block.compression.value.decodedSize <= maxDecodedBytes)
    }

    /** The first check that fails is the one reported. */
    lemma RefusalSays(block: BlockRef)
      ensures var sized, packed := block.byteLength <= maxBlockBytes, !block.encrypted && block.compression.Some?;
        && (Refusal(block) == Some(VerificationUnsupported) <==> !block.verifiable)
        && (Refusal(block) == Some(ByteCapExceeded) <==> block.verifiable && !sized)
        && (Refusal(block) == Some(InvalidInput) <==>
              block.verifiable && sized && packed && block.compression.value.encodedSize != block.byteLength)
        && (Refusal(block) == Some(DecodedSizeExceeded) <==>
              block.verifiable && sized && packed && block.compression.value.encodedSize == block.byteLength
              && block.compression.value.decodedSize > maxDecodedBytes)
    {
    }

    /** Calls of the fetchers below a bound, none repeated after an answer that rules the fetcher out. */
    ghost predicate OrderlyCalls(env: Env, calls: seq<Call>, bound: nat) {
      && |calls| <= bound * maxAttempts
      && (forall k :: 0 <= k < |calls| ==> calls[k].fetcher < bound && calls[k].attempt < maxAttempts)
      && (forall k, l :: 0 <= k < l < |calls| && calls[k].fetcher == calls[l].fetcher ==>
            Retryable(env.respond(calls[k])))
    }

    lemma AppendCalls(env: Env, calls: seq<Call>, more: seq<Call>, fetcher: nat)
      requires OrderlyCalls(env, calls, fetcher) && FetcherCalls(env, fetcher, more, maxAttempts)
      ensures OrderlyCalls(env, calls + more, fetcher + 1)
    {
    }

    lemma OrderlyBelow(env: Env, calls: seq<Call>, bound: nat)
      requires OrderlyCalls(env, calls, bound) && bound <= |fetchers|
      ensures OrderlyCalls(env, calls, |fetchers|)
    {
    }

    /** The breakers of the fetchers, in the fetchers' order. */
    ghost function Breakers(): (bs: seq<Breaker>)
      reads health
      ensures |bs| == |fetchers|
    {
      seq(|fetchers|, i requires 0 <= i < |fetchers| reads health => health.StateFor(fetchers[i]))
    }

    /** What the breaker sees of n failed attempts made from the given reading of the clock on. */
    function FailedAttempts(env: Env, at: nat, n: nat): seq<Event> {
      if n == 0 then []
      else FailedAttempts(env, at, n - 1) + [Ask(env.clock(at + 2 * n - 2)), Fail(env.clock(at + 2 * n - 1))]
    }

    /** After n failed attempts the breaker admits the next one. */
    predicate AdmitsAttempt(env: Env, b: Breaker, at: nat, n: nat) {
      Admit(Exec(health.config, b, FailedAttempts(env, at, n)), env.clock(at + 2 * n)).1
    }

    /** The first n answers are worth a retry, the next one is correct, and each attempt up to it is admitted. */
    ghost predicate ServesAttempt(env: Env, block: BlockRef, fetcher: nat, b: Breaker, at: nat, n: nat) {
      && n < maxAttempts
      && (forall k :: 0 <= k < n ==> Retryable(env.respond(Call(fetcher, k))))
      && Correct(env, block, env.respond(Call(fetcher, n)))
      && (forall k :: 0 <= k <= n ==> AdmitsAttempt(env, b, at, k))
    }

    /** A fetcher, asked from the given reading of the clock on, from which persisting obtains the block. */
    ghost predicate Serves(env: Env, block: BlockRef, fetcher: nat, b: Breaker, at: nat) {
      exists n :: ServesAttempt(env, block, fetcher, b, at, n)
    }

    /**
     * A fetcher that was admitted is given up only where its last answer is definite, the attempts are
     * used up, or the breaker refuses the next one.
     */
    ghost predicate Exhausted(env: Env, fetcher: nat, b: Breaker, c: Consult) {
      AdmitsAttempt(env, b, c.start, 0) ==>
        && c.calls != []
        && (|| !Retryable(env.respond(c.calls[|c.calls| - 1]))
            || |c.calls| == maxAttempts
            || !AdmitsAttempt(env, b, c.start, |c.calls|))
    }

    /** The failed attempts so far, the next one already admitted. */
    ghost predicate Persisting(env: Env, fetcher: nat, b: Breaker, from: nat, events: seq<Event>, attempt: nat) {
      && events == FailedAttempts(env, from, attempt) + [Ask(env.clock(from + 2 * attempt))]
      && (forall k :: 0 <= k < attempt ==> Retryable(env.respond(Call(fetcher, k))))
    }

    lemma FailedTimes(env: Env, at: nat, n: nat)
      ensures |Times(FailedAttempts(env, at, n))| == 2 * n
    {
      if n > 0 {
        FailedTimes(env, at, n - 1);
        var before, a, f := FailedAttempts(env, at, n - 1), Ask(env.clock(at + 2 * n - 2)), Fail(env.clock(at + 2 * n - 1));
        TraceAppend(before, a);
        TraceAppend(before + [a], f);
        assert before + [a] + [f] == before + [a, f];
      }
    }

    /** One more failed attempt; the clock then stands at the reading of the next ask. */
    lemma PersistingGrows(env: Env, fetcher: nat, b: Breaker, from: nat, events: seq<Event>, attempt: nat)
      requires Persisting(env, fetcher, b, from, events, attempt)
      ensures |Times(events)| == 2 * attempt + 1
      ensures events + [Fail(env.clock(from + |Times(events)|))] == FailedAttempts(env, from, attempt + 1)
    {
      FailedTimes(env, from, attempt);
      TraceAppend(FailedAttempts(env, from, attempt), Ask(env.clock(from + 2 * attempt)));
    }

    /** An attempt that ends the consultation without a verdict leaves none that would serve. */
    lemma GivenUp(env: Env, block: BlockRef, fetcher: nat, b: Breaker, at: nat, last: nat)
      requires forall k :: 0 <= k < last ==> Retryable(env.respond(Call(fetcher, k)))
      requires !Correct(env, block, env.respond(Call(fetcher, last)))
      requires !Retryable(env.respond(Call(fetcher, last))) || last + 1 >= maxAttempts
               || !AdmitsAttempt(env, b, at, last + 1)
      ensures !Serves(env, block, fetcher, b, at)
    {
      forall n: nat ensures !ServesAttempt(env, block, fetcher, b, at, n) {
      }
    }

    /** One fetcher consulted: its calls are logged, and breaker and log tell the same story. */
    ghost predicate Consulted(env: Env, block: BlockRef, fetcher: nat, b: Breaker, c: Consult)
      requires fetcher < |fetchers|
    {
      && FetcherCalls(env, fetcher, c.calls, maxAttempts)
      && Accounted(health.config, b, env, c)
      && (if Admit(b, env.clock(c.start)).1 then Logged(env, block, fetchers[fetcher], c.calls, c.log)
          else c.calls == [] && c.log == [Attempt(fetchers[fetcher], SkippedUnhealthy)])
    }

    /** Asks the breaker first, and only an admitted fetcher is tried. */
    method ConsultFetcher(fetcher: nat, block: BlockRef, env: Env)
      returns (verdict: Option<Outcome>, log: seq<Attempt>, ghost c: Consult)
      requires Valid() && fetcher < |fetchers|
      modifies this`ticks, this`looks, health
      ensures Breakers() == old(Breakers())[fetcher := Exec(health.config, old(Breakers())[fetcher], c.events)]
      ensures Consulted(env, block, fetcher, old(Breakers())[fetcher], c) && c.start == old(ticks) && c.log == log
      ensures verdict.Some? ==> FinalVerdict(env, block, c, verdict.value)
      ensures verdict != Some(Aborted) ==> Complete(c)
      ensures verdict.None? ==> !Serves(env, block, fetcher, old(Breakers())[fetcher], c.start)
      ensures verdict.None? ==> Exhausted(env, fetcher, old(Breakers())[fetcher], c)
      ensures ticks == c.start + |Times(c.events)|
    {
      ghost var b, from, id := health.StateFor(fetchers[fetcher]), ticks, fetchers[fetcher];
      var admitted;
      ghost var events;
      admitted, events := AskBreaker(fetchers[fetcher], env, b, from, []);
      assert [] + [Ask(env.clock(from))] == [Ask(env.clock(from))];
      assert admitted == AdmitsAttempt(env, b, from, 0);
      if !admitted {
        log := [Attempt(fetchers[fetcher], SkippedUnhealthy)];
        return None, log, Consult(from, log, [], events);
      }
      verdict, log, c := TryFetcher(fetcher, block, env, b, from, events);
    }

    ghost function AllCalls(consults: seq<Consult>): seq<Call> {
      if consults == [] then [] else AllCalls(consults[..|consults| - 1]) + consults[|consults| - 1].calls
    }

    ghost function AllLogs(consults: seq<Consult>): seq<Attempt> {
      if consults == [] then [] else AllLogs(consults[..|consults| - 1]) + consults[|consults| - 1].log
    }

    /**
     * The fetchers were consulted in their order, each breaker went where the events of its
     * consultation take it, and the log is that of the consultations in sequence.
     */
    ghost predicate History(env: Env, block: BlockRef, before: seq<Breaker>, after: seq<Breaker>,
                            consults: seq<Consult>, log: seq<Attempt>) {
      && |before| == |after| == |fetchers| && |consults| <= |fetchers|
      && log == AllLogs(consults)
      && (forall i :: 0 <= i < |consults| ==>
            Consulted(env, block, i, before[i], consults[i])
            && after[i] == Exec(health.config, before[i], consults[i].events))
      && (forall i :: |consults| <= i < |fetchers| ==> after[i] == before[i])
    }

    /** The first n consultations are complete. */
    ghost predicate CompleteUpTo(consults: seq<Consult>, n: int) {
      forall i :: 0 <= i < n && i < |consults| ==> Complete(consults[i])
    }

    /**
     * None of the first n fetchers, asked at the reading at which it was, would have served the block to
     * one who persists, and each was given up only when there was nothing left to try.
     */
    ghost predicate NoneServes(env: Env, block: BlockRef, before: seq<Breaker>, consults: seq<Consult>, n: int) {
      forall i :: 0 <= i < n && i < |consults| && i < |before| ==>
        !Serves(env, block, i, before[i], consults[i].start) && Exhausted(env, i, before[i], consults[i])
    }

    /** Each consultation reads the clock on from where the one before left it. */
    ghost predicate InTurn(consults: seq<Consult>, from: nat, to: nat)
      decreases |consults|
    {
      if consults == [] then from == to
      else
        var last := consults[|consults| - 1];
        InTurn(consults[..|consults| - 1], from, last.start) && to == last.start + |Times(last.events)|
    }

    lemma HistoryGrows(env: Env, block: BlockRef, before: seq<Breaker>, now: seq<Breaker>,
                       consults: seq<Consult>, log: seq<Attempt>, c: Consult)
      requires History(env, block, before, now, consults, log) && |consults| < |fetchers|
      requires Consulted(env, block, |consults|, now[|consults|], c)
      ensures var i := |consults|;
        History(env, block, before, now[i := Exec(health.config, now[i], c.events)], consults + [c], log + c.log)
    {
    }

    /** The consultations so far, the last one first; the same as History. */
    ghost predicate Progress(env: Env, block: BlockRef, before: seq<Breaker>, after: seq<Breaker>,
                             consults: seq<Consult>)
      decreases |consults|
    {
      if consults == [] then |before| == |fetchers| && after == before
      else
        var n := |consults| - 1;
        && n < |fetchers| && |before| == |after| == |fetchers|
        && Progress(env, block, before, after[n := before[n]], consults[..n])
        && Consulted(env, block, n, before[n], consults[n])
        && after[n] == Exec(health.config, before[n], consults[n].events)
    }

    /** Breakers of fetchers not reached yet are as they were. */
    lemma {:induction false} ProgressSpares(env: Env, block: BlockRef, before: seq<Breaker>, after: seq<Breaker>,
                                            consults: seq<Consult>, i: nat)
      requires Progress(env, block, before, after, consults) && |consults| <= i < |fetchers|
      ensures |before| == |after| == |fetchers| && after[i] == before[i]
      decreases |consults|
    {
      if consults != [] {
        var n := |consults| - 1;
        ProgressSpares(env, block, before, after[n := before[n]], consults[..n], i);
      }
    }

    lemma {:induction false} ProgressIsHistory(env: Env, block: BlockRef, before: seq<Breaker>, after: seq<Breaker>,
                                               consults: seq<Consult>)
      requires Progress(env, block, before, after, consults)
      ensures History(env, block, before, after, consults, AllLogs(consults))
      ensures OrderlyCalls(env, AllCalls(consults), |consults|)
      decreases |consults|
    {
      if consults != [] {
        var n := |consults| - 1;
        var now := after[n := before[n]];
        ProgressIsHistory(env, block, before, now, consults[..n]);
        HistoryGrows(env, block, before, now, consults[..n], AllLogs(consults[..n]), consults[n]);
        AppendCalls(env, AllCalls(consults[..n]), consults[n].calls, n);
        assert consults == consults[..n] + [consults[n]];
        assert after == now[n := Exec(health.config, now[n], consults[n].events)];
      }
    }

    lemma ProgressGrows(env: Env, block: BlockRef, before: seq<Breaker>, now: seq<Breaker>,
                        consults: seq<Consult>, c: Consult)
      requires Progress(env, block, before, now, consults) && |consults| < |fetchers| == |now|
      requires Consulted(env, block, |consults|, now[|consults|], c)
      ensures var after := now[|consults| := Exec(health.config, now[|consults|], c.events)];
        Progress(env, block, before, after, consults + [c])
      ensures |before| == |fetchers| && now[|consults|] == before[|consults|]
    {
      var n := |consults|;
      ProgressSpares(env, block, before, now, consults, n);
      assert (consults + [c])[..n] == consults;
      assert now[n := Exec(health.config, now[n], c.events)][n := before[n]] == now;
    }

    /** A consultation ends the retrieval with a block, a block that does not decode, or an abort. */
    ghost predicate FinalVerdict(env: Env, block: BlockRef, c: Consult, outcome: Outcome) {
      Justified(env, block, c.calls, outcome)
      && (outcome.VerifiedBlock? || outcome.DecodeFailed? || outcome.Aborted?)
    }

    /** Each consultation is complete and its fetcher would not have served the block. */
    ghost predicate Passed(env: Env, block: BlockRef, before: seq<Breaker>, consults: seq<Consult>)
      decreases |consults|
    {
      consults == []
      || (var n := |consults| - 1;
          && Passed(env, block, before, consults[..n])
          && Complete(consults[n])
          && n < |before| && !Serves(env, block, n, before[n], consults[n].start)
          && Exhausted(env, n, before[n], consults[n]))
    }

    lemma {:induction false} PassedAll(env: Env, block: BlockRef, before: seq<Breaker>, consults: seq<Consult>)
      requires Passed(env, block, before, consults)
      ensures CompleteUpTo(consults, |consults|) && NoneServes(env, block, before, consults, |consults|)
      decreases |consults|
    {
      if consults != [] {
        PassedAll(env, block, before, consults[..|consults| - 1]);
      }
    }

    /** The last consultation ends the retrieval; those before it were passed. */
    ghost predicate Ended(env: Env, block: BlockRef, before: seq<Breaker>, consults: seq<Consult>, outcome: Outcome) {
      && consults != []
      && Passed(env, block, before, consults[..|consults| - 1])
      && FinalVerdict(env, block, consults[|consults| - 1], outcome)
      && (!outcome.Aborted? ==> Complete(consults[|consults| - 1]))
    }

    lemma PassedGrows(env: Env, block: BlockRef, before: seq<Breaker>, consults: seq<Consult>, c: Consult)
      requires Passed(env, block, before, consults) && Complete(c)
      requires |consults| < |before| && !Serves(env, block, |consults|, before[|consults|], c.start)
      requires Exhausted(env, |consults|, before[|consults|], c)
      ensures Passed(env, block, before, consults + [c])
    {
      assert (consults + [c])[..|consults|] == consults;
    }

    lemma EndedGrows(env: Env, block: BlockRef, before: seq<Breaker>, consults: seq<Consult>, c: Consult,
                     outcome: Outcome)
      requires Passed(env, block, before, consults) && FinalVerdict(env, block, c, outcome)
      requires !outcome.Aborted? ==> Complete(c)
      ensures Ended(env, block, before, consults + [c], outcome)
    {
      assert (consults + [c])[..|consults|] == consults;
    }

    lemma LogsGrow(consults: seq<Consult>, c: Consult, from: nat)
      requires InTurn(consults, from, c.start)
      ensures AllLogs(consults + [c]) == AllLogs(consults) + c.log
      ensures InTurn(consults + [c], from, c.start + |Times(c.events)|)
    {
      assert (consults + [c])[..|consults|] == consults;
    }

    /** One turn of the loop over the fetchers. */
    method ConsultNext(block: BlockRef, env: Env, i: nat,
                       ghost before: seq<Breaker>, ghost consults: seq<Consult>, ghost from: nat)
      returns (verdict: Option<Outcome>, tried: seq<Attempt>, ghost consults': seq<Consult>)
      requires Valid() && i < |fetchers| && |consults| == i && InTurn(consults, from, ticks)
      requires Progress(env, block, before, Breakers(), consults) && Passed(env, block, before, consults)
      modifies this`ticks, this`looks, health
      ensures Progress(env, block, before, Breakers(), consults') && |consults'| == i + 1
      ensures AllLogs(consults') == AllLogs(consults) + tried && InTurn(consults', from, ticks)
      ensures verdict.None? ==> Passed(env, block, before, consults')
      ensures verdict.Some? ==> Ended(env, block, before, consults', verdict.value)
    {
      ghost var now, c := Breakers(), Consult(0, [], [], []);
      verdict, tried, c := ConsultFetcher(i, block, env);
      ProgressGrows(env, block, before, now, consults, c);
      if verdict.None? {
        PassedGrows(env, block, before, consults, c);
      } else {
        EndedGrows(env, block, before, consults, c, verdict.value);
      }
      LogsGrow(consults, c, from);
      consults' := consults + [c];
    }

    /** The loop over the fetchers, in their order, until one gives a verdict. */
    method ConsultFetchers(block: BlockRef, env: Env)
      returns (verdict: Option<Outcome>, log: seq<Attempt>, ghost consults: seq<Consult>)
      requires Valid()
      modifies this`ticks, this`looks, health
      ensures Progress(env, block, old(Breakers()), Breakers(), consults) && log == AllLogs(consults)
      ensures |consults| <= |fetchers| && InTurn(consults, old(ticks), ticks)
      ensures verdict.None? ==> |consults| == |fetchers| && Passed(env, block, old(Breakers()), consults)
      ensures verdict.Some? ==> Ended(env, block, old(Breakers()), consults, verdict.value)
    {
      ghost var before := Breakers();
      verdict, log, consults := None, [], [];
      var i := 0;
      while i < |fetchers| && verdict.None?
        invariant 0 <= i <= |fetchers| && |consults| == i
        invariant Progress(env, block, before, Breakers(), consults) && log == AllLogs(consults)
        invariant InTurn(consults, old(ticks), ticks)
        invariant verdict.None? ==> Passed(env, block, before, consults)
        invariant verdict.Some? ==> Ended(env, block, before, consults, verdict.value)
      {
        var tried;
        verdict, tried, consults := ConsultNext(block, env, i, before, consults, old(ticks));
        log := log + tried;
        i := i + 1;
      }
    }

    /** What the last consultation justifies, all the calls together justify. */
    lemma LastJustifies(env: Env, block: BlockRef, consults: seq<Consult>, outcome: Outcome)
      requires consults != [] && FinalVerdict(env, block, consults[|consults| - 1], outcome)
      ensures Justified(env, block, AllCalls(consults), outcome)
    {
      if !outcome.Aborted? {
        LastCall(consults);
      }
    }

    lemma LastCall(consults: seq<Consult>)
      requires consults != [] && consults[|consults| - 1].calls != []
      ensures var calls, all := consults[|consults| - 1].calls, AllCalls(consults);
        all != [] && all[|all| - 1] == calls[|calls| - 1]
    {
    }

    /** The record a retrieval leaves behind, read off its consultations. */
    lemma OnRecord(env: Env, block: BlockRef, before: seq<Breaker>, after: seq<Breaker>, consults: seq<Consult>)
      requires Progress(env, block, before, after, consults) && |consults| <= |fetchers|
      ensures History(env, block, before, after, consults, AllLogs(consults))
      ensures OrderlyCalls(env, AllCalls(consults), |fetchers|)
    {
      ProgressIsHistory(env, block, before, after, consults);
      OrderlyBelow(env, AllCalls(consults), |consults|);
    }

    /** What the end of a retrieval that was not refused tells, read off its consultations. */
    lemma Concludes(env: Env, block: BlockRef, before: seq<Breaker>, consults: seq<Consult>, outcome: Outcome)
      requires if outcome.Unavailable? then Passed(env, block, before, consults)
               else Ended(env, block, before, consults, outcome)
      ensures Justified(env, block, AllCalls(consults), outcome)
      ensures CompleteUpTo(consults, |consults| - (if outcome.Aborted? then 1 else 0))
      ensures NoneServes(env, block, before, consults, |consults| - (if outcome.Unavailable? then 0 else 1))
    {
      if outcome.Unavailable? {
        PassedAll(env, block, before, consults);
      } else {
        PassedAll(env, block, before, consults[..|consults| - 1]);
        LastJustifies(env, block, consults, outcome);
      }
    }

    /** Bytes of the right length and digest always decode. */
    ghost predicate CorrectBytesDecode(env: Env, block: BlockRef) {
      forall bytes :: |bytes| == block.byteLength && env.digestOk(bytes) ==> Delivered(env, block, bytes).Some?
    }

    /**
     * Retrieval against arbitrary fetchers. Whatever they answer: the calls are bounded, none
     * follows a definite answer of the same fetcher, bytes come out only from an answer that passed
     * the length and digest checks, and when nobody aborts and correct bytes decode, no block comes
     * back only after every fetcher was consulted and none of them would have served it: none, however
     * often it fails in a way worth a retry, gives a correct answer within the attempts allowed, with
     * its breaker admitting each of them at its own reading. The log and the breakers record what
     * happened.
     */
    method GetBlock(block: BlockRef, env: Env)
      returns (outcome: Outcome, log: seq<Attempt>, ghost consults: seq<Consult>)
      requires Valid()
      modifies this`ticks, this`looks, health
      ensures History(env, block, old(Breakers()), Breakers(), consults, log)
      ensures OrderlyCalls(env, AllCalls(consults), |fetchers|)
      ensures Justified(env, block, AllCalls(consults), outcome)
      ensures CompleteUpTo(consults, |consults| - (if outcome.Aborted? then 1 else 0))
      ensures InTurn(consults, old(ticks), ticks)
      ensures
        outcome.Unavailable?
        || (Refusal(block).None? && (forall n :: !env.abortSeen(n)) && CorrectBytesDecode(env, block)
            && !outcome.VerifiedBlock?)
        ==> |consults| == |fetchers| && NoneServes(env, block, old(Breakers()), consults, |fetchers|)
      ensures NoneServes(env, block, old(Breakers()), consults, |consults| - 1)
      ensures consults != [] ==> WithinCaps(block)
      ensures Refusal(block).Some? && !outcome.Aborted? ==> outcome == Refusal(block).value && consults == []
      ensures Refusal(block).None? ==>
        outcome.VerifiedBlock? || outcome.DecodeFailed? || outcome.Aborted? || outcome.Unavailable?
    {
      consults := [];
      var aborted := SeesAbort(env);
      if aborted {
        return Aborted, [], [];
      }
      if Refusal(block).Some? {
        return Refusal(block).value, [], [];
      }
      var verdict;
      verdict, log, consults := ConsultFetchers(block, env);
      outcome := if verdict.None? then Unavailable else verdict.value;
      OnRecord(env, block, old(Breakers()), Breakers(), consults);
      Concludes(env, block, old(Breakers()), consults, outcome);
    }
  }
}
