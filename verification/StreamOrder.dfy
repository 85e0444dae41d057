/** In which order live records arrive: as they are published, which need not be as they were stored. */
module StreamOrder {
  import opened BridgeLog
  import opened StreamChannel
  import opened StreamHandshake
  import opened StreamDelivery

  /** A publication of a record of the stream leaves no earlier one of the stream behind. */
  ghost predicate TakesInOrder(cfg: Config, s: System, step: Step) {
    step.Publish? && step.index < |s.pending| && s.pending[step.index].draft.target == cfg.target ==>
      forall i :: 0 <= i < step.index ==> s.pending[i].draft.target != cfg.target
  }

  /** The run publishes the stream's records in the order in which they were stored. */
  ghost predicate PublishedInOrder(cfg: Config, s: System, steps: seq<Step>)
    requires cfg.maxRecords > 0
    decreases |steps|
  {
    steps != [] ==> TakesInOrder(cfg, s, steps[0]) && PublishedInOrder(cfg, Next(cfg, s, steps[0]), steps[1..])
  }

  // ---- the exact condition for a live connection

  /** A record already sent is later than one of the stream that is still to come. */
  ghost predicate Overtaken(cfg: Config, s: System) {
    exists p, r ::
      p in s.pending && p.draft.target == cfg.target && r in s.channel.socket.sent && p.sequence < r.sequence
  }

  ghost predicate OrderedLive(cfg: Config, s: System) {
    Increasing(s.channel.socket.sent) && !Overtaken(cfg, s)
  }

  lemma AppendIncreasing(rs: seq<Record>, r: Record)
    requires Increasing(rs)
    ensures Increasing(rs + [r]) <==> forall x :: x in rs ==> x.sequence < r.sequence
  {
    if Increasing(rs + [r]) {
      forall x | x in rs ensures x.sequence < r.sequence {
        var i :| 0 <= i < |rs| && rs[i] == x;
        assert (rs + [r])[i] == x && (rs + [r])[|rs|] == r;
      }
    }
    assert forall i :: 0 <= i < |rs| ==> rs[i] in rs;
  }

  /** Published and pending records of the system have different sequences. */
  lemma PendingDiffers(cfg: Config, s: System, p: Record, r: Record)
    requires Inv(cfg, s) && p in s.pending && r in s.published
    ensures p.sequence != r.sequence
  {
    if p.sequence == r.sequence {
      SameSequenceSame(s.stored, p, r);
    }
  }

  /** From an ordered live state a publication stays ordered exactly when it is taken in order. */
  lemma PublishOrder(cfg: Config, s: System, k: nat)
    requires cfg.maxRecords > 0 && Inv(cfg, s) && Settled(cfg, s) && Accepting(s)
    requires OrderedLive(cfg, s) && k < |s.pending| && s.pending[k].draft.target == cfg.target
    ensures OrderedLive(cfg, Next(cfg, s, Publish(k))) <==> TakesInOrder(cfg, s, Publish(k))
  {
    var t, p := Next(cfg, s, Publish(k)), s.pending[k];
    LivePublish(cfg, s, k);
    AppendIncreasing(s.channel.socket.sent, p);
    forall r | r in s.channel.socket.sent ensures r.sequence < p.sequence {
      PendingDiffers(cfg, s, p, r);
    }
    if i :| 0 <= i < k && s.pending[i].draft.target == cfg.target {
      assert s.pending[i] in t.pending && p in t.channel.socket.sent;
      assert Overtaken(cfg, t);
    }
  }

  lemma StepOrder(cfg: Config, s: System, step: Step)
    requires cfg.maxRecords > 0 && Inv(cfg, s) && Settled(cfg, s) && Accepting(s)
    requires OrderedLive(cfg, s) && (step.Store? || step.Publish?)
    ensures OrderedLive(cfg, Next(cfg, s, step)) <==> TakesInOrder(cfg, s, step)
  {
    match step
    case Store(op) =>
      StoreKeepsLog(cfg, s, op);
      assert forall r :: r in s.channel.socket.sent ==> r in s.stored;
    case Publish(k) =>
      if k < |s.pending| {
        if s.pending[k].draft.target == cfg.target {
          PublishOrder(cfg, s, k);
        } else {
          LivePublish(cfg, s, k);
        }
      }
  }

  lemma DisorderStaysOne(cfg: Config, s: System, k: nat)
    requires cfg.maxRecords > 0 && Inv(cfg, s) && Settled(cfg, s) && Accepting(s)
    requires !OrderedLive(cfg, s) && k < |s.pending|
    ensures !OrderedLive(cfg, Next(cfg, s, Publish(k)))
  {
    var t := Next(cfg, s, Publish(k));
    LivePublish(cfg, s, k);
    var sent, sent' := s.channel.socket.sent, t.channel.socket.sent;
    assert forall i :: 0 <= i < |sent| ==> sent'[i] == sent[i];
    if Increasing(sent) {
      var p, r :| p in s.pending && p.draft.target == cfg.target && r in sent && p.sequence < r.sequence;
      if p == s.pending[k] {
        AppendIncreasing(sent, p);
      } else {
        assert p in t.pending && r in sent';
      }
    }
  }

  /** Once out of order, for good. */
  lemma DisorderStays(cfg: Config, s: System, step: Step)
    requires cfg.maxRecords > 0 && Inv(cfg, s) && Settled(cfg, s) && Accepting(s)
    requires !OrderedLive(cfg, s) && (step.Store? || step.Publish?)
    ensures !OrderedLive(cfg, Next(cfg, s, step))
  {
    if step.Store? {
      StoreKeepsLog(cfg, s, step.op);
    } else if step.index < |s.pending| {
      DisorderStaysOne(cfg, s, step.index);
    }
  }

  lemma DeliveryKeeps(cfg: Config, s: System, step: Step)
    requires cfg.maxRecords > 0 && Inv(cfg, s) && Settled(cfg, s) && Accepting(s) && (step.Store? || step.Publish?)
    ensures var t := Next(cfg, s, step); Inv(cfg, t) && Settled(cfg, t) && Accepting(t)
  {
    StepKeepsInv(cfg, s, step);
    DeliveryKeepsAccepting(cfg, s, step);
    SettledStep(cfg, s, step);
  }

  /** A run of deliveries keeps a live connection ordered exactly when it publishes in order. */
  lemma {:induction false} RunOrder(cfg: Config, s: System, steps: seq<Step>)
    requires cfg.maxRecords > 0 && Inv(cfg, s) && Settled(cfg, s) && Accepting(s) && DeliveriesOnly(steps)
    ensures var t := Exec(cfg, s, steps); Inv(cfg, t) && Settled(cfg, t) && Accepting(t)
    ensures OrderedLive(cfg, Exec(cfg, s, steps)) <==> OrderedLive(cfg, s) && PublishedInOrder(cfg, s, steps)
    decreases |steps|
  {
    if steps != [] {
      assert steps[0] in steps;
      DeliveryKeeps(cfg, s, steps[0]);
      RunOrder(cfg, Next(cfg, s, steps[0]), steps[1..]);
      if OrderedLive(cfg, s) {
        StepOrder(cfg, s, steps[0]);
      } else {
        DisorderStays(cfg, s, steps[0]);
      }
    }
  }

  /** Publishing whatever is pending, oldest first. */
  function Flush(n: nat): seq<Step> {
    seq(n, _ => Publish(0))
  }

  lemma {:induction false} FlushEmpties(cfg: Config, s: System)
    requires cfg.maxRecords > 0
    ensures Exec(cfg, s, Flush(|s.pending|)).pending == []
    ensures PublishedInOrder(cfg, s, Flush(|s.pending|)) && DeliveriesOnly(Flush(|s.pending|))
    decreases |s.pending|
  {
    if s.pending != [] {
      var t := Next(cfg, s, Publish(0));
      assert Flush(|s.pending|)[1..] == Flush(|t.pending|);
      FlushEmpties(cfg, t);
    }
  }

  /**
   * Order, exactly: on a live connection that has been in order, once everything still in flight
   * has been published as well, the records have arrived in order if and only if the run published
   * the stream's records in the order in which they were stored.
   */
  lemma InOrderIffPublishedInOrder(cfg: Config, s: System, steps: seq<Step>)
    requires cfg.maxRecords > 0 && Inv(cfg, s) && Settled(cfg, s) && Accepting(s) && OrderedLive(cfg, s)
    requires DeliveriesOnly(steps)
    ensures var t := Exec(cfg, s, steps);
      Increasing(Exec(cfg, t, Flush(|t.pending|)).channel.socket.sent) <==> PublishedInOrder(cfg, s, steps)
  {
    var t := Exec(cfg, s, steps);
    RunOrder(cfg, s, steps);
    FlushEmpties(cfg, t);
    RunOrder(cfg, t, Flush(|t.pending|));
  }

  // ---- whole connections

  /** The stream's records have been published in order, all before those still pending. */
  ghost predicate OrderedSoFar(cfg: Config, s: System) {
    && Increasing(Filter(s.published, OfStream(cfg.target)))
    && forall p, r ::
         && p in s.pending && p.draft.target == cfg.target
         && r in s.published && r.draft.target == cfg.target ==>
           r.sequence < p.sequence
  }

  lemma OrderedPublish(cfg: Config, s: System, k: nat)
    requires cfg.maxRecords > 0 && Inv(cfg, s) && OrderedSoFar(cfg, s)
    requires k < |s.pending| && TakesInOrder(cfg, s, Publish(k))
    ensures OrderedSoFar(cfg, Next(cfg, s, Publish(k)))
  {
    var p, mine := s.pending[k], Filter(s.published, OfStream(cfg.target));
    WithoutIndexMembers(s.pending, k);
    FilterConcat(s.published, [p], OfStream(cfg.target));
    if p.draft.target == cfg.target {
      forall r | r in mine ensures r.sequence < p.sequence {
        FilterMember(s.published, OfStream(cfg.target), r);
      }
      AppendIncreasing(mine, p);
      assert mine + [p] == Filter(s.published + [p], OfStream(cfg.target));
    } else {
      assert mine + [] == mine;
    }
  }

  /** A newly stored record is later than everything published. */
  lemma NewIsLater(cfg: Config, s: System, t: System)
    requires OrderedSoFar(cfg, s) && t.published == s.published
    requires StoresNothing(s, t) || exists r :: StoresNew(s, t, r)
    requires forall r :: r in s.published ==> r.sequence <= s.log.latest
    ensures OrderedSoFar(cfg, t)
  {
  }

  lemma OrderedStore(cfg: Config, s: System, op: Op)
    requires cfg.maxRecords > 0 && Inv(cfg, s) && OrderedSoFar(cfg, s)
    ensures OrderedSoFar(cfg, Next(cfg, s, Store(op)))
  {
    StoreKeepsLog(cfg, s, op);
    assert forall r :: r in s.published ==> r in s.stored;
    NewIsLater(cfg, s, Next(cfg, s, Store(op)));
  }

  lemma OrderedStep(cfg: Config, s: System, step: Step)
    requires cfg.maxRecords > 0 && Inv(cfg, s) && OrderedSoFar(cfg, s) && TakesInOrder(cfg, s, step)
    ensures OrderedSoFar(cfg, Next(cfg, s, step))
  {
    if step.Store? {
      OrderedStore(cfg, s, step.op);
    } else if step.Publish? && step.index < |s.pending| {
      OrderedPublish(cfg, s, step.index);
    }
  }

  lemma {:induction false} OrderedRun(cfg: Config, s: System, steps: seq<Step>)
    requires cfg.maxRecords > 0 && Inv(cfg, s) && OrderedSoFar(cfg, s) && PublishedInOrder(cfg, s, steps)
    ensures OrderedSoFar(cfg, Exec(cfg, s, steps)) && Inv(cfg, Exec(cfg, s, steps))
    decreases |steps|
  {
    if steps != [] {
      StepKeepsInv(cfg, s, steps[0]);
      OrderedStep(cfg, s, steps[0]);
      OrderedRun(cfg, Next(cfg, s, steps[0]), steps[1..]);
    }
  }

  /** A settled, ordered connection that stays open sends on in order. */
  lemma OrderedSentStep(cfg: Config, s: System, step: Step)
    requires cfg.maxRecords > 0 && Inv(cfg, s) && Settled(cfg, s) && OrderedSoFar(cfg, s)
    requires TakesInOrder(cfg, s, step) && Increasing(s.channel.socket.sent)
    requires s.channel.socket.open && Next(cfg, s, step).channel.socket.open
    ensures Increasing(Next(cfg, s, step).channel.socket.sent)
  {
    if step.Publish? && step.index < |s.pending| {
      LivePublish(cfg, s, step.index);
      AppendIncreasing(s.channel.socket.sent, s.pending[step.index]);
    }
  }

  lemma {:induction false} OrderedSentRun(cfg: Config, s: System, steps: seq<Step>)
    requires cfg.maxRecords > 0 && Inv(cfg, s) && Settled(cfg, s) && OrderedSoFar(cfg, s)
    requires PublishedInOrder(cfg, s, steps) && Increasing(s.channel.socket.sent)
    requires Exec(cfg, s, steps).channel.socket.open
    ensures Increasing(Exec(cfg, s, steps).channel.socket.sent)
    decreases |steps|
  {
    if steps != [] {
      var t := Next(cfg, s, steps[0]);
      StepKeepsInv(cfg, s, steps[0]);
      ReopensNever(cfg, t, steps[1..]);
      ReopensNever(cfg, s, steps);
      SettledStep(cfg, s, steps[0]);
      OrderedStep(cfg, s, steps[0]);
      OrderedSentStep(cfg, s, steps[0]);
      OrderedSentRun(cfg, t, steps[1..]);
    }
  }

  function DueOf(cfg: Config, s: System, cursor: nat): Record -> bool {
    (r: Record) => Due(cfg, s, cursor, r)
  }

  /** Of the given records those that the connection can expect, as they stand. */
  function Expected(cfg: Config, s: System, rs: seq<Record>, cursor: nat): seq<Record> {
    Filter(rs, DueOf(cfg, s, cursor))
  }

  /** Where nothing is gone, that is the stream after the cursor. */
  lemma NothingGoneAllExpected(cfg: Config, s: System, rs: seq<Record>, cursor: nat)
    requires forall r :: r in rs && Selects(cfg.target, cursor, r) ==> !Gone(s, r)
    ensures Expected(cfg, s, rs, cursor) == Wanted(cfg, rs, cursor)
  {
    FilterSame(rs, DueOf(cfg, s, cursor), Selection(cfg.target, cursor));
  }

  /** What is sent in order, once each, of records published in order is what is expected of them itself. */
  lemma OrderedIsExpected(cfg: Config, s: System)
    requires Settled(cfg, s) && OrderedSoFar(cfg, s) && Increasing(s.channel.socket.sent)
    ensures s.channel.socket.sent == Expected(cfg, s, s.published, s.phase.cursor)
  {
    var due := DueOf(cfg, s, s.phase.cursor);
    FilterImplied(s.published, OfStream(cfg.target), due);
    FilterIncreasing(Filter(s.published, OfStream(cfg.target)), due);
    forall r ensures r in s.channel.socket.sent <==> r in Filter(s.published, due) {
      FilterMember(s.published, due, r);
    }
    IncreasingUnique(s.channel.socket.sent, Filter(s.published, due));
  }

  /** With nothing pending, what is published in order is what is stored. */
  lemma PublishedIsStored(cfg: Config, s: System, cursor: nat)
    requires Inv(cfg, s) && OrderedSoFar(cfg, s) && s.pending == []
    ensures Expected(cfg, s, s.published, cursor) == Expected(cfg, s, s.stored, cursor)
  {
    var due := DueOf(cfg, s, cursor);
    FilterImplied(s.published, OfStream(cfg.target), due);
    FilterIncreasing(Filter(s.published, OfStream(cfg.target)), due);
    FilterIncreasing(s.stored, due);
    forall r ensures r in Filter(s.published, due) <==> r in Filter(s.stored, due) {
      FilterMember(s.published, due, r);
      FilterMember(s.stored, due, r);
    }
    IncreasingUnique(Filter(s.published, due), Filter(s.stored, due));
  }

  /** A connection settled in order sends what it can expect, as published, while publication is in order. */
  lemma SettledInOrder(cfg: Config, s: System, steps: seq<Step>)
    requires cfg.maxRecords > 0 && Inv(cfg, s) && OrderedSoFar(cfg, s) && PublishedInOrder(cfg, s, steps)
    requires s.channel.socket.open ==> Settled(cfg, s) && Increasing(s.channel.socket.sent)
    ensures var t := Exec(cfg, s, steps);
      && Inv(cfg, t) && OrderedSoFar(cfg, t)
      && (t.channel.socket.open ==>
            s.phase.Streaming? && t.channel.socket.sent == Expected(cfg, t, t.published, s.phase.cursor))
  {
    OrderedRun(cfg, s, steps);
    if Exec(cfg, s, steps).channel.socket.open {
      ReopensNever(cfg, s, steps);
      SettledForever(cfg, s, steps);
      OrderedSentRun(cfg, s, steps);
      OrderedIsExpected(cfg, Exec(cfg, s, steps));
    }
  }

  /** From a deliverable state, publishing in order sends in order for good. */
  lemma DeliverableInOrder(cfg: Config, s: System, after: seq<Step>)
    requires cfg.maxRecords > 0 && Inv(cfg, s) && s.phase.Finishing? && Deliverable(cfg, s) && OrderedSoFar(cfg, s)
    requires PublishedInOrder(cfg, Next(cfg, s, Finish), after)
    ensures var t := Exec(cfg, Next(cfg, s, Finish), after);
      && Inv(cfg, t) && OrderedSoFar(cfg, t)
      && (t.channel.socket.open ==> t.channel.socket.sent == Expected(cfg, t, t.published, s.phase.cursor))
  {
    OrderedStep(cfg, s, Finish);
    DeliverableGoesLive(cfg, s);
    FinishKeepsRest(cfg, s);
    SettledInOrder(cfg, Next(cfg, s, Finish), after);
  }

  lemma FinishIsReachedOrdered(cfg: Config, s: System, cursor: nat, limit: nat, before: seq<Step>, now: int,
                               between: seq<Step>)
    requires cfg.maxRecords > 0 && Inv(cfg, s) && OrderedSoFar(cfg, s)
    requires PublishedInOrder(cfg, Next(cfg, s, Subscribe(cursor, limit)), before)
    requires PublishedInOrder(cfg, Next(cfg, AtRead(cfg, s, cursor, limit, before), Read(now)), between)
    ensures OrderedSoFar(cfg, AtFinish(cfg, s, cursor, limit, before, now, between))
  {
    var s1, s2 := Next(cfg, s, Subscribe(cursor, limit)), AtRead(cfg, s, cursor, limit, before);
    StepKeepsInv(cfg, s, Subscribe(cursor, limit));
    OrderedStep(cfg, s, Subscribe(cursor, limit));
    OrderedRun(cfg, s1, before);
    StepKeepsInv(cfg, s2, Read(now));
    OrderedStep(cfg, s2, Read(now));
    OrderedRun(cfg, Next(cfg, s2, Read(now)), between);
  }

  /**
   * In order as well: if besides what exactly-once delivery takes the stream's records are published
   * in the order they were stored, an open connection has been sent, of the published records, those
   * that it can expect, as they stand.
   */
  lemma DeliveredInOrder(cfg: Config, s: System, cursor: nat, limit: nat, before: seq<Step>, now: int,
                         between: seq<Step>, after: seq<Step>)
    requires cfg.maxRecords > 0 && Inv(cfg, s) && s.phase == Idle && s.channel.socket.open
    requires cursor <= s.log.latest && OrderedSoFar(cfg, s)
    requires Background(before) && Background(between)
    requires PublishedInOrder(cfg, Next(cfg, s, Subscribe(cursor, limit)), before)
    requires PublishedInOrder(cfg, Next(cfg, AtRead(cfg, s, cursor, limit, before), Read(now)), between)
    requires PublishedInOrder(cfg, Next(cfg, AtFinish(cfg, s, cursor, limit, before, now, between), Finish), after)
    requires ReadIsComplete(cfg, AtRead(cfg, s, cursor, limit, before), cursor, limit, now)
    requires ReadAfterPublished(cfg, AtFinish(cfg, s, cursor, limit, before, now, between))
    ensures var t := AtEnd(cfg, s, cursor, limit, before, now, between, after);
      && Inv(cfg, t) && OrderedSoFar(cfg, t)
      && (t.channel.socket.open ==> t.channel.socket.sent == Expected(cfg, t, t.published, cursor))
  {
    var t := AtFinish(cfg, s, cursor, limit, before, now, between);
    FinishIsReachedOrdered(cfg, s, cursor, limit, before, now, between);
    FinishIsReachedClean(cfg, s, cursor, limit, before, now, between);
    NoneInFlightIffReadAfterPublished(cfg, t);
    CleanIsDeliverable(cfg, t);
    DeliverableInOrder(cfg, t, after);
  }

  // ---- deliveries in one step

  /** Deliveries that store and publish without anything coming between, and disconnections. */
  ghost predicate Atomic(steps: seq<Step>)
    decreases |steps|
  {
    || steps == []
    || (steps[0].Disconnect? && Atomic(steps[1..]))
    || (|steps| > 1 && steps[0].Store? && steps[1] == Publish(0) && Atomic(steps[2..]))
  }

  /** Such runs are background runs, publish in order and leave nothing in flight. */
  lemma {:induction false} AtomicRun(cfg: Config, s: System, steps: seq<Step>)
    requires cfg.maxRecords > 0 && s.pending == [] && Atomic(steps)
    ensures Background(steps) && PublishedInOrder(cfg, s, steps)
    ensures Exec(cfg, s, steps).pending == []
    decreases |steps|
  {
    if steps != [] && steps[0].Disconnect? && Atomic(steps[1..]) {
      AtomicRun(cfg, Next(cfg, s, steps[0]), steps[1..]);
      assert steps == [steps[0]] + steps[1..];
    } else if steps != [] {
      var t := Next(cfg, s, steps[0]);
      assert steps[1..][0] == steps[1] && steps[1..][1..] == steps[2..];
      AtomicRun(cfg, Next(cfg, t, steps[1]), steps[2..]);
      assert steps == [steps[0], steps[1]] + steps[2..];
      assert PublishedInOrder(cfg, t, steps[1..]);
    }
  }

  lemma AtomicFinish(cfg: Config, s: System, cursor: nat, limit: nat, before: seq<Step>, now: int, between: seq<Step>)
    requires cfg.maxRecords > 0 && s.pending == [] && Atomic(before) && Atomic(between)
    ensures Background(before) && PublishedInOrder(cfg, Next(cfg, s, Subscribe(cursor, limit)), before)
    ensures Background(between)
    ensures PublishedInOrder(cfg, Next(cfg, AtRead(cfg, s, cursor, limit, before), Read(now)), between)
    ensures AtFinish(cfg, s, cursor, limit, before, now, between).pending == []
  {
    AtomicRun(cfg, Next(cfg, s, Subscribe(cursor, limit)), before);
    AtomicRun(cfg, Next(cfg, AtRead(cfg, s, cursor, limit, before), Read(now)), between);
  }

  /**
   * Were each delivery stored and published in one step, the handshake would deliver exactly once
   * and in order in every interleaving whose read is complete: an open connection has been sent, of
   * all that was stored, what it can expect, as it stands.
   */
  lemma AtomicDeliveryIsExact(cfg: Config, s: System, cursor: nat, limit: nat, before: seq<Step>, now: int,
                              between: seq<Step>, after: seq<Step>)
    requires cfg.maxRecords > 0 && Inv(cfg, s) && s.phase == Idle && s.channel.socket.open
    requires cursor <= s.log.latest && s.pending == [] && OrderedSoFar(cfg, s)
    requires Atomic(before) && Atomic(between) && Atomic(after)
    requires ReadIsComplete(cfg, AtRead(cfg, s, cursor, limit, before), cursor, limit, now)
    ensures var t := AtEnd(cfg, s, cursor, limit, before, now, between, after);
      t.channel.socket.open ==>
        && t.channel.socket.sent == Expected(cfg, t, t.published, cursor)
        && t.channel.socket.sent == Expected(cfg, t, t.stored, cursor)
  {
    var s4 := AtFinish(cfg, s, cursor, limit, before, now, between);
    AtomicFinish(cfg, s, cursor, limit, before, now, between);
    AtomicRun(cfg, Next(cfg, s4, Finish), after);
    FinishIsReachedClean(cfg, s, cursor, limit, before, now, between);
    NoneInFlightIffReadAfterPublished(cfg, s4);
    DeliveredInOrder(cfg, s, cursor, limit, before, now, between, after);
    PublishedIsStored(cfg, AtEnd(cfg, s, cursor, limit, before, now, between, after), cursor);
  }

  /** Of two puts of one stream the later one resumes first: the live frames arrive swapped. */
  lemma LaterFirstSwaps(cfg: Config, s: System, a: Record, b: Record)
    requires cfg.maxRecords > 0 && Inv(cfg, s) && Accepting(s) && s.pending == [a, b]
    requires a.draft.target == b.draft.target == cfg.target
    ensures Exec(cfg, s, [Publish(1), Publish(0)]).channel.socket.sent == s.channel.socket.sent + [b, a]
    ensures a.sequence < b.sequence
  {
    var t := Next(cfg, s, Publish(1));
    StepKeepsInv(cfg, s, Publish(1));
    LivePublish(cfg, s, 1);
    assert t.pending == [a];
    LivePublish(cfg, t, 0);
    ExecConcat(cfg, s, [Publish(1)], [Publish(0)]);
    ExecOne(cfg, s, Publish(1));
    ExecOne(cfg, t, Publish(0));
    assert [Publish(1), Publish(0)] == [Publish(1)] + [Publish(0)];
  }

  function Arrival(key: string): Draft {
    Draft(key, "t", "e", Timestamp(10, "10"), true)
  }

  /** A connection goes live on an empty store. */
  lemma LiveOnEmpty(cfg: Config, accepts: nat -> bool) returns (live: System)
    requires cfg == Config("t", 10, 10) && forall n :: accepts(n)
    ensures live == Exec(cfg, Unused(accepts), [Subscribe(0, 10), Read(0), Finish])
    ensures live.phase == Streaming(0) && live.pending == [] && live.log == Log([], 0)
    ensures live.channel.socket.open && live.channel.socket.sent == [] && live.channel.socket.accepts == accepts
  {
    ExecThree(cfg, Unused(accepts), Subscribe(0, 10), Read(0), Finish);
    var asked := Next(cfg, Unused(accepts), Subscribe(0, 10));
    var read := Next(cfg, asked, Read(0));
    assert read.phase == Finishing(0, []) && read.pending == [] && read.log == Log([], 0);
    FinishSends(cfg, read);
    assert Drained(read) == [];
    live := Next(cfg, read, Finish);
  }

  /** Two deliveries are stored, neither put having settled. */
  lemma TwoStored(cfg: Config, live: System) returns (s: System)
    requires cfg == Config("t", 10, 10) && live.pending == [] && live.log == Log([], 0)
    ensures s == Next(cfg, Next(cfg, live, Store(Op.PutIfAbsent(Arrival("a"), 0))),
                      Store(Op.PutIfAbsent(Arrival("b"), 0)))
    ensures s.pending == [Record(Arrival("a"), 1), Record(Arrival("b"), 2)]
    ensures s.phase == live.phase && s.channel == live.channel
  {
    var a := Record(Arrival("a"), 1);
    var one := Next(cfg, live, Store(Op.PutIfAbsent(Arrival("a"), 0)));
    assert one.log == Log([a], 1) && one.pending == [a];
    FilterAll([a], Unexpired(0));
    s := Next(cfg, one, Store(Op.PutIfAbsent(Arrival("b"), 0)));
    assert s.pending == [a] + [Record(Arrival("b"), 2)];
  }

  /** From an unused system to live frames that arrive swapped. */
  lemma LaterPutFirstSwaps(cfg: Config, accepts: nat -> bool) returns (live: System, s: System)
    requires cfg == Config("t", 10, 10) && forall n :: accepts(n)
    ensures live == Exec(cfg, Unused(accepts), [Subscribe(0, 10), Read(0), Finish])
    ensures s == Next(cfg, Next(cfg, live, Store(Op.PutIfAbsent(Arrival("a"), 0))),
                      Store(Op.PutIfAbsent(Arrival("b"), 0)))
    ensures Inv(cfg, s) && live.channel.socket.sent == []
    ensures Exec(cfg, s, [Publish(1), Publish(0)]).channel.socket.sent ==
      [Record(Arrival("b"), 2), Record(Arrival("a"), 1)]
  {
    live := LiveOnEmpty(cfg, accepts);
    s := TwoStored(cfg, live);
    UnusedIsValid(cfg, accepts);
    RunKeepsInv(cfg, Unused(accepts), [Subscribe(0, 10), Read(0), Finish]);
    StepKeepsInv(cfg, live, Store(Op.PutIfAbsent(Arrival("a"), 0)));
    StepKeepsInv(cfg, Next(cfg, live, Store(Op.PutIfAbsent(Arrival("a"), 0))), Store(Op.PutIfAbsent(Arrival("b"), 0)));
    LaterFirstSwaps(cfg, s, s.pending[0], s.pending[1]);
  }
}
