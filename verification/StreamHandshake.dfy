/**
 * The live-stream handshake as a concurrent protocol: deliveries store and publish records in two
 * steps, while one connection subscribes, reads its backlog and goes live, all interleaved. A put
 * may settle at any time, so records may be published in another order than they were stored in.
 */
module StreamHandshake {
  import opened BridgeLog
  import opened StreamChannel

  datatype Config = Config(target: string, maxRecords: nat, maxBuffered: nat)

  datatype Phase =
    | Idle
    | Reading(cursor: nat, limit: nat)
    | Finishing(cursor: nat, backlog: seq<Record>)
    | Streaming(cursor: nat)

  /**
   * stored lists every record ever inserted, in order; published those handed to the broker, in the
   * order of that; pending the stored ones not yet handed over. subscribedAt counts the published
   * records at the time of subscribing, readAt the stored ones at the time of the backlog read, and kept
   * is what the store then held.
   */
  datatype System = System(
    log: Log,
    stored: seq<Record>,
    published: seq<Record>,
    pending: seq<Record>,
    phase: Phase,
    channel: Channel,
    subscribedAt: nat,
    readAt: nat,
    kept: seq<Record>
  )

  /** Publish names the delivery that resumes, by its position among the pending ones. */
  datatype Step =
    | Store(op: Op)
    | Publish(index: nat)
    | Subscribe(from: nat, pageLimit: nat)
    | Read(now: int)
    | Finish
    | Disconnect

  function WithoutIndex(rs: seq<Record>, k: nat): seq<Record>
    requires k < |rs|
  {
    rs[..k] + rs[k + 1..]
  }

  function Next(cfg: Config, s: System, step: Step): System
    requires cfg.maxRecords > 0
  {
    match step
    case Store(op) =>
      if op.PutIfAbsent? && !op.draft.hasEvent then s
      else
        var (log, answer) := Apply(s.log, op, cfg.maxRecords);
        if answer.Inserted? then
          s.(log := log, stored := s.stored + [answer.stored], pending := s.pending + [answer.stored])
        else s.(log := log)
    case Publish(k) =>
      if k >= |s.pending| then s
      else
        var r := s.pending[k];
        s.(published := s.published + [r], pending := WithoutIndex(s.pending, k),
           channel := if r.draft.target == cfg.target then PublishTo(s.channel, r, cfg.maxBuffered) else s.channel)
    case Subscribe(cursor, limit) =>
      if s.phase != Idle then s.(channel := Close(s.channel))
      else if !s.channel.socket.open then s
      else
        s.(phase := Reading(cursor, limit), subscribedAt := |s.published|,
           channel := s.channel.(state := Buffering, buffer := []))
    case Read(now) =>
      if !s.phase.Reading? then s
      else
        var log := PruneLog(s.log, now);
        s.(log := log, readAt := |s.stored|, kept := log.records,
           phase := Finishing(s.phase.cursor, ListAfter(log.records, cfg.target, s.phase.cursor, s.phase.limit)))
    case Finish =>
      if !s.phase.Finishing? then s
      else
        s.(phase := Streaming(s.phase.cursor),
           channel := FinishSubscribe(s.channel, s.phase.backlog, s.phase.cursor))
    case Disconnect => s.(channel := Close(s.channel))
  }

  function Exec(cfg: Config, s: System, steps: seq<Step>): System
    requires cfg.maxRecords > 0
    decreases |steps|
  {
    if steps == [] then s else Exec(cfg, Next(cfg, s, steps[0]), steps[1..])
  }

  lemma {:induction false} ExecConcat(cfg: Config, s: System, a: seq<Step>, b: seq<Step>)
    requires cfg.maxRecords > 0
    ensures Exec(cfg, s, a + b) == Exec(cfg, Exec(cfg, s, a), b)
    decreases |a|
  {
    if a == [] {
      assert a + b == b;
    } else {
      assert (a + b)[1..] == a[1..] + b;
      ExecConcat(cfg, Next(cfg, s, a[0]), a[1..], b);
    }
  }

  // ---- what every step keeps

  function OfStream(target: string): Record -> bool {
    (r: Record) => r.draft.target == target
  }

  /** Every stored record is either published, once, or pending. */
  ghost predicate Partition(stored: seq<Record>, published: seq<Record>, pending: seq<Record>) {
    && Increasing(pending)
    && DistinctSequences(published)
    && (forall r :: r in published ==> r !in pending)
    && (forall r :: r in stored <==> r in published || r in pending)
  }

  /** Store and records: what is stored is in sequence order, bounded by the counter, and holds the log. */
  ghost predicate InvLog(s: System) {
    && ValidLog(s.log)
    && Increasing(s.stored)
    && (forall r :: r in s.stored ==> r.sequence <= s.log.latest && r.draft.hasEvent)
    && (forall r :: r in s.log.records ==> r in s.stored)
    && Partition(s.stored, s.published, s.pending)
    && s.subscribedAt <= |s.published|
    && s.readAt <= |s.stored|
  }

  /** Connection: bounded buffer, at most one overflow, and a closed socket holds and takes nothing. */
  ghost predicate InvChannel(cfg: Config, s: System)
    requires s.subscribedAt <= |s.published|
  {
    var c := s.channel;
    && |c.buffer| <= cfg.maxBuffered
    && c.overflows <= 1
    && (c.overflows == 1 ==> !c.socket.open)
    && (!c.socket.open ==> c.state == Closed && c.buffer == [])
    && match s.phase
       case Idle => c.state == Closed && c.socket.sent == []
       case Streaming(_) => c.socket.open ==> c.state == Live && c.buffer == []
       case _ =>
         c.socket.open ==>
           && c.state == Buffering
           && c.socket.sent == []
           && c.buffer == Filter(s.published[s.subscribedAt..], OfStream(cfg.target))
  }

  /** Read: the backlog is the first of what the store then held of the stream after the cursor. */
  ghost predicate InvRead(cfg: Config, s: System)
    requires s.readAt <= |s.stored|
  {
    && Increasing(s.kept)
    && (forall r :: r in s.kept ==> r in s.stored[..s.readAt])
    && (s.phase.Finishing? ==> s.phase.backlog <= Wanted(cfg, s.kept, s.phase.cursor))
  }

  ghost predicate Inv(cfg: Config, s: System) {
    InvLog(s) && InvChannel(cfg, s) && InvRead(cfg, s)
  }

  /** In a strictly increasing sequence the sequence number determines the record. */
  lemma SameSequenceSame(rs: seq<Record>, a: Record, b: Record)
    requires Increasing(rs) && a in rs && b in rs && a.sequence == b.sequence
    ensures a == b
  {
  }

  lemma WithoutIndexMembers(rs: seq<Record>, k: nat)
    requires Increasing(rs) && k < |rs|
    ensures Increasing(WithoutIndex(rs, k))
    ensures forall r :: r in WithoutIndex(rs, k) <==> r in rs && r != rs[k]
  {
    var rest := WithoutIndex(rs, k);
    forall r | r in rs && r != rs[k] ensures r in rest {
      var i :| 0 <= i < |rs| && rs[i] == r;
      assert r == if i < k then rest[i] else rest[i - 1];
    }
  }

  lemma PublishKeepsPartition(stored: seq<Record>, published: seq<Record>, pending: seq<Record>, k: nat)
    requires Increasing(stored) && Partition(stored, published, pending) && k < |pending|
    ensures Partition(stored, published + [pending[k]], WithoutIndex(pending, k))
  {
    WithoutIndexMembers(pending, k);
    forall i | 0 <= i < |published| ensures published[i].sequence != pending[k].sequence {
      assert published[i] in stored && pending[k] in stored;
      if published[i].sequence == pending[k].sequence {
        SameSequenceSame(stored, published[i], pending[k]);
      }
    }
  }

  /** An operation invents nothing: its log holds old records and, at most, the one it stored. */
  lemma ApplyAmong(log: Log, op: Op, maxRecords: nat)
    requires maxRecords > 0
    ensures var (next, answer) := Apply(log, op, maxRecords);
      && (forall r :: r in next.records ==> r in log.records || (answer.Inserted? && r == answer.stored))
      && (answer.Inserted? ==>
            op.PutIfAbsent? && answer.stored.draft == op.draft && next.latest == answer.stored.sequence)
  {
    var pruned := PruneLog(log, op.now);
    forall r | r in pruned.records ensures r in log.records {
      FilterMember(log.records, Unexpired(op.now), r);
    }
    if op.PutIfAbsent? && FindKey(pruned.records, op.draft.key).None? {
      InsertedAmong(pruned, op.draft, op.now, maxRecords);
    }
  }

  lemma InsertedAmong(log: Log, d: Draft, now: int, maxRecords: nat)
    requires maxRecords > 0
    ensures var (next, stored) := InsertLog(log, d, now, maxRecords);
      forall r :: r in next.records ==> r in log.records || r == stored
  {
  }

  /** A new record above all others joins the stored and the pending ones. */
  lemma StoreKeepsPartition(stored: seq<Record>, published: seq<Record>, pending: seq<Record>, r: Record)
    requires Increasing(stored) && Partition(stored, published, pending)
    requires forall x :: x in stored ==> x.sequence < r.sequence
    ensures Increasing(stored + [r]) && Partition(stored + [r], published, pending + [r])
  {
  }

  lemma StoreKeepsLog(cfg: Config, s: System, op: Op)
    requires cfg.maxRecords > 0 && InvLog(s)
    ensures InvLog(Next(cfg, s, Store(op)))
    ensures Next(cfg, s, Store(op)).log.latest >= s.log.latest
    ensures StoresNothing(s, Next(cfg, s, Store(op))) || exists r :: StoresNew(s, Next(cfg, s, Store(op)), r)
  {
    if !(op.PutIfAbsent? && !op.draft.hasEvent) {
      var t := Next(cfg, s, Store(op));
      ApplyKeepsOrder(s.log, op, cfg.maxRecords);
      ApplyAmong(s.log, op, cfg.maxRecords);
      var answer := Apply(s.log, op, cfg.maxRecords).1;
      if answer.Inserted? {
        StoreKeepsPartition(s.stored, s.published, s.pending, answer.stored);
        assert StoresNew(s, t, answer.stored);
      }
    }
  }

  ghost predicate StoresNothing(s: System, t: System) {
    t.stored == s.stored && t.pending == s.pending
  }

  /** The step stored r, above everything stored before. */
  ghost predicate StoresNew(s: System, t: System, r: Record) {
    t.stored == s.stored + [r] && t.pending == s.pending + [r] && r.sequence > s.log.latest
  }

  lemma PublishKeepsChannel(cfg: Config, s: System, k: nat)
    requires cfg.maxRecords > 0 && Inv(cfg, s) && k < |s.pending|
    ensures InvChannel(cfg, Next(cfg, s, Publish(k)))
  {
    var t := Next(cfg, s, Publish(k));
    var r := s.pending[k];
    assert t.published[s.subscribedAt..] == s.published[s.subscribedAt..] + [r];
    FilterConcat(s.published[s.subscribedAt..], [r], OfStream(cfg.target));
  }

  /** Going live turns a buffering channel into a live one, or a closed one if a send failed. */
  lemma FinishKeepsChannel(cfg: Config, s: System)
    requires cfg.maxRecords > 0 && Inv(cfg, s)
    ensures InvChannel(cfg, Next(cfg, s, Finish))
  {
    if s.phase.Finishing? && s.channel.socket.open {
      var c := WithSocket(s.channel, Send(s.channel.socket, s.phase.backlog));
      if c.socket.open {
        var last := LastDelivered(s.phase.backlog, s.phase.cursor);
        var drained := SortBySequence(Filter(c.buffer, After(last)));
        DeliverAllClosed(c.(state := Live, buffer := []), drained);
      }
    }
  }

  lemma {:induction false} DeliverAllClosed(c: Channel, rs: seq<Record>)
    requires c.buffer == [] && (if c.socket.open then c.state == Live else c.state == Closed)
    ensures var d := DeliverAll(c, rs);
      d.buffer == [] && d.overflows == c.overflows && (if d.socket.open then d.state == Live else d.state == Closed)
      && (d.socket.open ==> c.socket.open)
    decreases |rs|
  {
    if rs != [] {
      DeliverAllClosed(Deliver(c, rs[0]), rs[1..]);
    }
  }

  lemma ReadKeepsInv(cfg: Config, s: System, now: int)
    requires cfg.maxRecords > 0 && Inv(cfg, s)
    ensures Inv(cfg, Next(cfg, s, Read(now)))
  {
    PrunedIsValid(s.log, now);
    assert s.stored[..|s.stored|] == s.stored;
    forall r | r in Prune(s.log.records, now) ensures r in s.log.records {
      FilterMember(s.log.records, Unexpired(now), r);
    }
  }

  /** Later steps leave the read as it was. */
  lemma ReadStands(cfg: Config, s: System, t: System)
    requires InvLog(s) && InvRead(cfg, s) && s.stored <= t.stored
    requires t.readAt == s.readAt && t.kept == s.kept && (t.phase == s.phase || !t.phase.Finishing?)
    ensures InvRead(cfg, t)
  {
    assert t.stored[..t.readAt] == s.stored[..s.readAt];
  }

  lemma StoreKeepsInv(cfg: Config, s: System, op: Op)
    requires cfg.maxRecords > 0 && Inv(cfg, s)
    ensures Inv(cfg, Next(cfg, s, Store(op)))
  {
    StoreKeepsLog(cfg, s, op);
    ReadStands(cfg, s, Next(cfg, s, Store(op)));
  }

  lemma PublishKeepsInv(cfg: Config, s: System, k: nat)
    requires cfg.maxRecords > 0 && Inv(cfg, s) && k < |s.pending|
    ensures Inv(cfg, Next(cfg, s, Publish(k)))
  {
    PublishKeepsPartition(s.stored, s.published, s.pending, k);
    PublishKeepsChannel(cfg, s, k);
    ReadStands(cfg, s, Next(cfg, s, Publish(k)));
  }

  lemma FinishKeepsInv(cfg: Config, s: System)
    requires cfg.maxRecords > 0 && Inv(cfg, s)
    ensures Inv(cfg, Next(cfg, s, Finish))
  {
    FinishKeepsChannel(cfg, s);
    ReadStands(cfg, s, Next(cfg, s, Finish));
  }

  lemma EdgeKeepsInv(cfg: Config, s: System, step: Step)
    requires cfg.maxRecords > 0 && Inv(cfg, s) && (step.Subscribe? || step.Disconnect?)
    ensures Inv(cfg, Next(cfg, s, step))
  {
    ReadStands(cfg, s, Next(cfg, s, step));
  }

  /** Every step of every interleaving, in whatever order puts settle, keeps the invariant. */
  lemma StepKeepsInv(cfg: Config, s: System, step: Step)
    requires cfg.maxRecords > 0 && Inv(cfg, s)
    ensures Inv(cfg, Next(cfg, s, step))
  {
    match step
    case Store(op) => StoreKeepsInv(cfg, s, op);
    case Publish(k) => if k < |s.pending| { PublishKeepsInv(cfg, s, k); }
    case Read(now) => ReadKeepsInv(cfg, s, now);
    case Finish => FinishKeepsInv(cfg, s);
    case _ => EdgeKeepsInv(cfg, s, step);
  }

  lemma {:induction false} RunKeepsInv(cfg: Config, s: System, steps: seq<Step>)
    requires cfg.maxRecords > 0 && Inv(cfg, s)
    ensures Inv(cfg, Exec(cfg, s, steps))
    decreases |steps|
  {
    if steps != [] {
      StepKeepsInv(cfg, s, steps[0]);
      RunKeepsInv(cfg, Next(cfg, s, steps[0]), steps[1..]);
    }
  }

  /** Over any run the buffer stays within its cap and overflow fires at most once, closing the connection. */
  lemma OverflowIsBoundedAndFatal(cfg: Config, s: System, steps: seq<Step>)
    requires cfg.maxRecords > 0 && Inv(cfg, s)
    ensures var c := Exec(cfg, s, steps).channel;
      |c.buffer| <= cfg.maxBuffered && c.overflows <= 1 && (c.overflows == 1 ==> !c.socket.open)
  {
    RunKeepsInv(cfg, s, steps);
  }

  // ---- when exactly the buffer overflows

  /** The records of the stream published since the connection subscribed. */
  function Since(cfg: Config, s: System): seq<Record>
    requires s.subscribedAt <= |s.published|
  {
    Filter(s.published[s.subscribedAt..], OfStream(cfg.target))
  }

  /** Subscribed and not live yet, open exactly while no more came than the buffer may hold. */
  ghost predicate OpenWhileItFits(cfg: Config, s: System) {
    && (s.phase.Reading? || s.phase.Finishing?) && s.subscribedAt <= |s.published|
    && (s.channel.socket.open <==> |Since(cfg, s)| <= cfg.maxBuffered)
    && s.channel.overflows == (if |Since(cfg, s)| > cfg.maxBuffered then 1 else 0)
  }

  /** Deliveries and the connection's own read: nobody disconnects and no second subscribe arrives. */
  ghost predicate Undisturbed(steps: seq<Step>) {
    forall step :: step in steps ==> step.Store? || step.Publish? || step.Read?
  }

  lemma PublishWhileItFits(cfg: Config, s: System, k: nat)
    requires cfg.maxRecords > 0 && Inv(cfg, s) && OpenWhileItFits(cfg, s) && k < |s.pending|
    ensures OpenWhileItFits(cfg, Next(cfg, s, Publish(k)))
  {
    var r := s.pending[k];
    assert Next(cfg, s, Publish(k)).published[s.subscribedAt..] == s.published[s.subscribedAt..] + [r];
    FilterConcat(s.published[s.subscribedAt..], [r], OfStream(cfg.target));
    assert Filter([r], OfStream(cfg.target)) == if r.draft.target == cfg.target then [r] else [];
  }

  lemma {:induction false} RunWhileItFits(cfg: Config, s: System, steps: seq<Step>)
    requires cfg.maxRecords > 0 && Inv(cfg, s) && OpenWhileItFits(cfg, s) && Undisturbed(steps)
    ensures OpenWhileItFits(cfg, Exec(cfg, s, steps)) && Exec(cfg, s, steps).subscribedAt == s.subscribedAt
    decreases |steps|
  {
    if steps != [] {
      var t := Next(cfg, s, steps[0]);
      assert steps[0] in steps;
      StepKeepsInv(cfg, s, steps[0]);
      if steps[0].Publish? && steps[0].index < |s.pending| {
        PublishWhileItFits(cfg, s, steps[0].index);
      }
      assert OpenWhileItFits(cfg, t);
      RunWhileItFits(cfg, t, steps[1..]);
    }
  }

  /**
   * Between subscribing and going live, with nobody disconnecting and no second subscribe, the
   * socket is open if and only if no more records of the stream were published since subscribing
   * than the buffer may hold, and the overflow callback was called, once, if and only if more were.
   */
  lemma OverflowsExactlyBeyondCap(cfg: Config, s: System, cursor: nat, limit: nat, steps: seq<Step>)
    requires cfg.maxRecords > 0 && Inv(cfg, s) && s.phase == Idle && s.channel.socket.open && Undisturbed(steps)
    ensures var t := Exec(cfg, Next(cfg, s, Subscribe(cursor, limit)), steps);
      && t.subscribedAt == |s.published| <= |t.published|
      && (t.channel.socket.open <==> |Since(cfg, t)| <= cfg.maxBuffered)
      && (t.channel.overflows == 1 <==> |Since(cfg, t)| > cfg.maxBuffered)
  {
    var s1 := Next(cfg, s, Subscribe(cursor, limit));
    StepKeepsInv(cfg, s, Subscribe(cursor, limit));
    assert s1.published[s1.subscribedAt..] == [];
    RunWhileItFits(cfg, s1, steps);
  }

  lemma ClosedStep(cfg: Config, s: System, step: Step)
    requires cfg.maxRecords > 0 && InvLog(s) && InvChannel(cfg, s) && !s.channel.socket.open
    ensures var c := Next(cfg, s, step).channel;
      !c.socket.open && c.socket.sent == s.channel.socket.sent && c.overflows == s.channel.overflows
  {
  }

  /** Nothing is sent on a connection whose socket has closed, whatever happens next. */
  lemma {:induction false} ClosedStaysSilent(cfg: Config, s: System, steps: seq<Step>)
    requires cfg.maxRecords > 0 && Inv(cfg, s) && !s.channel.socket.open
    ensures var c := Exec(cfg, s, steps).channel;
      !c.socket.open && c.socket.sent == s.channel.socket.sent && c.overflows == s.channel.overflows
    decreases |steps|
  {
    if steps != [] {
      ClosedStep(cfg, s, steps[0]);
      StepKeepsInv(cfg, s, steps[0]);
      ClosedStaysSilent(cfg, Next(cfg, s, steps[0]), steps[1..]);
    }
  }

  lemma ReopensNever(cfg: Config, s: System, steps: seq<Step>)
    requires cfg.maxRecords > 0 && Inv(cfg, s) && Exec(cfg, s, steps).channel.socket.open
    ensures s.channel.socket.open
  {
    if !s.channel.socket.open {
      ClosedStaysSilent(cfg, s, steps);
    }
  }

  // ---- exactly once, in whatever order the records are published

  /** The records of the stream after the cursor. */
  function Wanted(cfg: Config, rs: seq<Record>, cursor: nat): seq<Record> {
    Filter(rs, Selection(cfg.target, cursor))
  }

  ghost predicate NoRepeats(rs: seq<Record>) {
    forall i, j :: 0 <= i < j < |rs| ==> rs[i] != rs[j]
  }

  /** Published before the connection subscribed, and no longer in the store when it read its backlog. */
  predicate Gone(s: System, r: Record) {
    s.subscribedAt <= |s.published| && r in s.published[..s.subscribedAt] && r !in s.kept
  }

  /** What a connection can expect: all of its stream after its cursor, except what was gone. */
  predicate Due(cfg: Config, s: System, cursor: nat, r: Record) {
    Selects(cfg.target, cursor, r) && !Gone(s, r)
  }

  /**
   * No record was sent twice, only stored records that the connection can expect were sent, and all
   * of them that were published.
   */
  ghost predicate Faithful(cfg: Config, s: System, cursor: nat) {
    && NoRepeats(s.channel.socket.sent)
    && (forall r :: r in s.channel.socket.sent ==> r in s.stored && Due(cfg, s, cursor, r))
    && (forall r :: r in s.published && Due(cfg, s, cursor, r) ==> r in s.channel.socket.sent)
  }

  /** Live, each published record it can expect sent once, and nothing at or before the cursor can still come. */
  ghost predicate Settled(cfg: Config, s: System) {
    && s.phase.Streaming?
    && NoRepeats(s.channel.socket.sent)
    && (forall r :: r in s.channel.socket.sent <==> r in s.published && Due(cfg, s, s.phase.cursor, r))
    && (forall r :: r in s.pending && r.draft.target == cfg.target ==> r.sequence > s.phase.cursor)
    && s.phase.cursor <= s.log.latest
  }

  /** The same request and the same read; what was published since adds to what had been. */
  ghost predicate SameRead(s: System, t: System) {
    && t.phase == s.phase && t.subscribedAt == s.subscribedAt && t.readAt == s.readAt && t.kept == s.kept
    && s.published <= t.published
  }

  /** What is gone, and so what can be expected, is fixed by the read. */
  lemma DueStands(cfg: Config, s: System, t: System, cursor: nat)
    requires s.subscribedAt <= |s.published| && SameRead(s, t)
    ensures forall r :: Due(cfg, t, cursor, r) <==> Due(cfg, s, cursor, r)
  {
    assert t.published[..t.subscribedAt] == s.published[..s.subscribedAt];
  }

  lemma DistinctSplit(rs: seq<Record>, n: nat, r: Record)
    requires DistinctSequences(rs) && n <= |rs|
    ensures r in rs <==> r in rs[..n] || r in rs[n..]
    ensures r in rs[..n] ==> r !in rs[n..]
  {
    assert rs == rs[..n] + rs[n..];
  }

  /** A record still to be published is not gone. */
  lemma PendingIsDue(cfg: Config, s: System, cursor: nat, r: Record)
    requires InvLog(s) && r in s.pending
    ensures Due(cfg, s, cursor, r) <==> r.draft.target == cfg.target && r.sequence > cursor
  {
    assert r in s.stored && r !in s.published;
    DistinctSplit(s.published, s.subscribedAt, r);
  }

  /** What a publication does to an open live connection. */
  lemma LivePublish(cfg: Config, s: System, k: nat)
    requires cfg.maxRecords > 0 && Inv(cfg, s) && s.phase.Streaming? && s.channel.socket.open && k < |s.pending|
    ensures var t := Next(cfg, s, Publish(k));
      && SameRead(s, t) && t.log == s.log && t.stored == s.stored
      && t.published == s.published + [s.pending[k]]
      && (forall r :: r in t.pending <==> r in s.pending && r != s.pending[k])
      && (t.channel.socket.open ==>
            var frame := if s.pending[k].draft.target == cfg.target then [s.pending[k]] else [];
            t.channel.socket.sent == s.channel.socket.sent + frame)
      && ((forall n :: s.channel.socket.accepts(n)) ==>
            t.channel.socket.open && t.channel.socket.accepts == s.channel.socket.accepts)
  {
    WithoutIndexMembers(s.pending, k);
  }

  lemma SettledPublish(cfg: Config, s: System, k: nat)
    requires cfg.maxRecords > 0 && Inv(cfg, s) && Settled(cfg, s) && k < |s.pending|
    requires s.channel.socket.open && Next(cfg, s, Publish(k)).channel.socket.open
    ensures Settled(cfg, Next(cfg, s, Publish(k)))
  {
    LivePublish(cfg, s, k);
    DueStands(cfg, s, Next(cfg, s, Publish(k)), s.phase.cursor);
    PendingIsDue(cfg, s, s.phase.cursor, s.pending[k]);
    assert s.pending[k] !in s.published;
  }

  lemma SettledStep(cfg: Config, s: System, step: Step)
    requires cfg.maxRecords > 0 && Inv(cfg, s) && Settled(cfg, s)
    requires Next(cfg, s, step).channel.socket.open
    ensures Settled(cfg, Next(cfg, s, step)) && SameRead(s, Next(cfg, s, step))
  {
    match step
    case Store(op) =>
      StoreKeepsLog(cfg, s, op);
      DueStands(cfg, s, Next(cfg, s, step), s.phase.cursor);
    case Publish(k) =>
      if !s.channel.socket.open {
        ClosedStep(cfg, s, step);
      } else if k < |s.pending| {
        SettledPublish(cfg, s, k);
      }
    case _ =>
  }

  /**
   * Safety over every run: once settled, as long as the connection stays open it has been sent each
   * published record it can expect exactly once, and nothing else.
   */
  lemma {:induction false} SettledForever(cfg: Config, s: System, steps: seq<Step>)
    requires cfg.maxRecords > 0 && Inv(cfg, s) && Settled(cfg, s)
    requires Exec(cfg, s, steps).channel.socket.open
    ensures Settled(cfg, Exec(cfg, s, steps)) && Inv(cfg, Exec(cfg, s, steps))
    ensures SameRead(s, Exec(cfg, s, steps))
    ensures Faithful(cfg, Exec(cfg, s, steps), s.phase.cursor)
    decreases |steps|
  {
    if steps != [] {
      var t := Next(cfg, s, steps[0]);
      StepKeepsInv(cfg, s, steps[0]);
      ReopensNever(cfg, t, steps[1..]);
      SettledStep(cfg, s, steps[0]);
      SettledForever(cfg, t, steps[1..]);
    }
  }

  // ---- going live

  lemma {:induction false} FilterDistinct(rs: seq<Record>, p: Record -> bool)
    requires DistinctSequences(rs)
    ensures DistinctSequences(Filter(rs, p))
  {
    if rs != [] {
      FilterDistinct(rs[1..], p);
      forall r | r in Filter(rs[1..], p) ensures r.sequence != rs[0].sequence {
        FilterMember(rs[1..], p, r);
      }
    }
  }

  lemma BufferDistinct(cfg: Config, s: System)
    requires Inv(cfg, s) && s.phase.Finishing? && s.channel.socket.open
    ensures DistinctSequences(s.channel.buffer)
  {
    FilterDistinct(s.published[s.subscribedAt..], OfStream(cfg.target));
  }

  /** The part of the buffer beyond the backlog, as going live sends it. */
  function Drained(s: System): seq<Record>
    requires s.phase.Finishing?
  {
    SortBySequence(Filter(s.channel.buffer, After(LastDelivered(s.phase.backlog, s.phase.cursor))))
  }

  lemma DrainedExact(cfg: Config, s: System)
    requires Inv(cfg, s) && s.phase.Finishing? && s.channel.socket.open
    ensures Increasing(Drained(s))
    ensures forall r :: r in Drained(s) <==>
      r in s.channel.buffer && r.sequence > LastDelivered(s.phase.backlog, s.phase.cursor)
  {
    var last := LastDelivered(s.phase.backlog, s.phase.cursor);
    BufferDistinct(cfg, s);
    FilterDistinct(s.channel.buffer, After(last));
    SortExact(Filter(s.channel.buffer, After(last)));
    forall r ensures r in Filter(s.channel.buffer, After(last)) <==> r in s.channel.buffer && r.sequence > last {
      FilterMember(s.channel.buffer, After(last), r);
    }
  }

  /** Going live sends the backlog and then, sorted, the part of the buffer beyond it. */
  lemma FinishSends(cfg: Config, s: System)
    requires cfg.maxRecords > 0 && s.phase.Finishing? && s.channel.socket.open
    requires s.channel.state == Buffering && s.channel.socket.sent == []
    ensures var t := Next(cfg, s, Finish);
      t.channel.socket.open ==> t.channel.socket.sent == s.phase.backlog + Drained(s)
    ensures (forall n :: s.channel.socket.accepts(n)) ==>
      Next(cfg, s, Finish).channel.socket.open
      && Next(cfg, s, Finish).channel.socket.accepts == s.channel.socket.accepts
  {
    FinishSubscribeSends(s.channel, s.phase.backlog, s.phase.cursor);
    assert [] + s.phase.backlog + Drained(s) == s.phase.backlog + Drained(s);
  }

  // ---- deliveries to an accepting socket

  /** A run of deliveries only: nobody disconnects and the connection is left alone. */
  ghost predicate DeliveriesOnly(steps: seq<Step>) {
    forall step :: step in steps ==> step.Store? || step.Publish?
  }

  /** Live on an open socket that accepts every frame. */
  ghost predicate Accepting(s: System) {
    s.phase.Streaming? && s.channel.socket.open && forall n :: s.channel.socket.accepts(n)
  }

  lemma DeliveryKeepsAccepting(cfg: Config, s: System, step: Step)
    requires cfg.maxRecords > 0 && Inv(cfg, s) && Accepting(s) && (step.Store? || step.Publish?)
    ensures Accepting(Next(cfg, s, step)) && Next(cfg, s, step).phase == s.phase
  {
    if step.Publish? && step.index < |s.pending| {
      LivePublish(cfg, s, step.index);
    }
  }

  lemma {:induction false} DeliveriesKeepOpen(cfg: Config, s: System, steps: seq<Step>)
    requires cfg.maxRecords > 0 && Inv(cfg, s) && Accepting(s) && DeliveriesOnly(steps)
    ensures Accepting(Exec(cfg, s, steps)) && Exec(cfg, s, steps).phase == s.phase
    decreases |steps|
  {
    if steps != [] {
      assert steps[0] in steps;
      StepKeepsInv(cfg, s, steps[0]);
      DeliveryKeepsAccepting(cfg, s, steps[0]);
      DeliveriesKeepOpen(cfg, Next(cfg, s, steps[0]), steps[1..]);
    }
  }

  /** Publishing what was sent already, or what lies at or before the cursor, breaks faithfulness. */
  lemma UnfitPublishBreaks(cfg: Config, s: System, k: nat, cursor: nat)
    requires cfg.maxRecords > 0 && Inv(cfg, s) && Accepting(s) && k < |s.pending|
    requires s.pending[k].draft.target == cfg.target
    requires s.pending[k].sequence <= cursor || s.pending[k] in s.channel.socket.sent
    ensures !Faithful(cfg, Exec(cfg, s, [Publish(k)]), cursor)
  {
    LivePublish(cfg, s, k);
    var t := Next(cfg, s, Publish(k));
    assert Exec(cfg, s, [Publish(k)]) == t by {
      assert [Publish(k)][1..] == [];
    }
    var sent, r := s.channel.socket.sent, s.pending[k];
    assert t.channel.socket.sent == sent + [r];
    assert t.channel.socket.sent[|sent|] == r;
    if r in sent {
      var i :| 0 <= i < |sent| && sent[i] == r;
      assert t.channel.socket.sent[i] == r;
    } else {
      assert r in t.channel.socket.sent && !Due(cfg, t, cursor, r);
    }
  }

  function TotalKeyLength(rs: seq<Record>): nat {
    if rs == [] then 0 else |rs[0].draft.key| + TotalKeyLength(rs[1..])
  }

  lemma {:induction false} KeyIsShorter(rs: seq<Record>, r: Record)
    requires r in rs
    ensures |r.draft.key| <= TotalKeyLength(rs)
  {
    if r != rs[0] {
      KeyIsShorter(rs[1..], r);
    }
  }

  /** A delivery under a key the log has never seen, at the epoch, gets the very next sequence. */
  lemma NextDelivery(cfg: Config, s: System) returns (op: Op)
    requires cfg.maxRecords > 0 && InvLog(s)
    ensures op.PutIfAbsent? && op.draft.hasEvent && op.draft.target == cfg.target
    ensures Next(cfg, s, Store(op)).pending == s.pending + [Record(op.draft, s.log.latest + 1)]
  {
    var key := seq(TotalKeyLength(s.log.records) + 1, _ => 'k');
    op := Op.PutIfAbsent(Draft(key, cfg.target, "event", Timestamp(1, "1"), true), 0);
    var pruned := PruneLog(s.log, 0);
    forall r | r in pruned.records ensures r.draft.key != key {
      FilterMember(s.log.records, Unexpired(0), r);
      KeyIsShorter(s.log.records, r);
    }
  }

  /** A cursor ahead of the counter lets a later delivery arrive at or before the cursor. */
  lemma CursorAheadBreaks(cfg: Config, s: System) returns (steps: seq<Step>)
    requires cfg.maxRecords > 0 && Inv(cfg, s) && Accepting(s) && s.phase.cursor > s.log.latest
    ensures DeliveriesOnly(steps) && !Faithful(cfg, Exec(cfg, s, steps), s.phase.cursor)
  {
    var op := NextDelivery(cfg, s);
    var t := Next(cfg, s, Store(op));
    var k := |s.pending|;
    StepKeepsInv(cfg, s, Store(op));
    steps := [Store(op), Publish(k)];
    assert steps[1..] == [Publish(k)];
    UnfitPublishBreaks(cfg, t, k, s.phase.cursor);
  }
}
