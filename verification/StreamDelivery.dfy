/** When delivery is exact: the condition on going live, and what gets a whole connection there. */
module StreamDelivery {
  import opened BridgeLog
  import opened StreamChannel
  import opened StreamHandshake

  /** Strictly increasing sequences with the same members are the same. */
  lemma {:induction false} IncreasingUnique(a: seq<Record>, b: seq<Record>)
    requires Increasing(a) && Increasing(b)
    requires forall r :: r in a <==> r in b
    ensures a == b
  {
    assert b != [] ==> b[0] in a;
    if a != [] {
      assert a[0] in b && b[0] in a;
      assert a[0] == b[0];
      forall r ensures r in a[1..] <==> r in b[1..] {
        TailMember(a, r);
        TailMember(b, r);
      }
      IncreasingUnique(a[1..], b[1..]);
    }
  }

  lemma TailMember(a: seq<Record>, r: Record)
    requires Increasing(a) && a != []
    ensures r in a[1..] <==> r in a && r != a[0]
  {
    assert a == [a[0]] + a[1..];
  }

  lemma WantedMember(cfg: Config, rs: seq<Record>, cursor: nat, r: Record)
    ensures r in Wanted(cfg, rs, cursor) <==> r in rs && Selects(cfg.target, cursor, r)
  {
    FilterMember(rs, Selection(cfg.target, cursor), r);
  }

  // ---- the backlog

  /** With room for all of it, a page is the stream after the cursor as stored, less what is no longer held. */
  lemma CompletePage(cfg: Config, s: System, cursor: nat, limit: nat, now: int)
    requires InvLog(s) && |Wanted(cfg, Prune(s.log.records, now), cursor)| <= limit
    ensures ListAfter(Prune(s.log.records, now), cfg.target, cursor, limit) ==
      Filter(Wanted(cfg, s.stored, cursor), r => r in Prune(s.log.records, now))
  {
    var kept, sel := Prune(s.log.records, now), Selection(cfg.target, cursor);
    var held := (r: Record) => r in kept;
    FilterIncreasing(s.log.records, Unexpired(now));
    FilterIncreasing(kept, sel);
    FilterIncreasing(s.stored, sel);
    FilterIncreasing(Filter(s.stored, sel), held);
    forall r ensures r in Filter(kept, sel) <==> r in Filter(Filter(s.stored, sel), held) {
      FilterMember(kept, sel, r);
      FilterMember(s.stored, sel, r);
      FilterMember(Filter(s.stored, sel), held, r);
      FilterMember(s.log.records, Unexpired(now), r);
    }
    IncreasingUnique(Filter(kept, sel), Filter(Filter(s.stored, sel), held));
  }

  /** The first of an increasing sequence are its records up to the last of them. */
  lemma PrefixReaches(all: seq<Record>, b: seq<Record>, cursor: nat)
    requires Increasing(all) && b <= all && forall r :: r in all ==> r.sequence > cursor
    ensures Increasing(b) && cursor <= LastDelivered(b, cursor)
    ensures forall r :: r in b <==> r in all && r.sequence <= LastDelivered(b, cursor)
  {
    assert forall i :: 0 <= i < |b| ==> b[i] == all[i];
    if b != [] {
      assert all[|b| - 1] in all;
    }
    forall r | r in all && r.sequence <= LastDelivered(b, cursor) ensures r in b {
      var i :| 0 <= i < |all| && all[i] == r;
      assert i < |b|;
    }
  }

  /** The backlog reaches up to its last sequence: of what the store held it has all up to there. */
  lemma BacklogReaches(cfg: Config, s: System)
    requires Inv(cfg, s) && s.phase.Finishing?
    ensures var last := LastDelivered(s.phase.backlog, s.phase.cursor);
      && Increasing(s.phase.backlog) && s.phase.cursor <= last
      && (forall r :: r in s.phase.backlog ==> r.sequence <= last)
      && (forall r :: r in s.phase.backlog <==>
            r in s.kept && Selects(cfg.target, s.phase.cursor, r) && r.sequence <= last)
  {
    var all := Wanted(cfg, s.kept, s.phase.cursor);
    FilterIncreasing(s.kept, Selection(cfg.target, s.phase.cursor));
    forall r ensures r in all <==> r in s.kept && Selects(cfg.target, s.phase.cursor, r) {
      WantedMember(cfg, s.kept, s.phase.cursor, r);
    }
    PrefixReaches(all, s.phase.backlog, s.phase.cursor);
  }

  // ---- going live

  /** What the buffer holds is what the stream published since subscribing. */
  lemma BufferMember(cfg: Config, s: System, r: Record)
    requires Inv(cfg, s) && s.phase.Finishing? && s.channel.socket.open
    ensures r in s.channel.buffer <==> r in s.published[s.subscribedAt..] && r.draft.target == cfg.target
  {
    FilterMember(s.published[s.subscribedAt..], OfStream(cfg.target), r);
  }

  /** Going live sends a record once it is in the backlog, or was published since subscribing and lies beyond it. */
  lemma SentMember(cfg: Config, s: System, r: Record)
    requires Inv(cfg, s) && s.phase.Finishing? && s.channel.socket.open
    ensures r in s.phase.backlog + Drained(s) <==>
      || r in s.phase.backlog
      || (r in s.published[s.subscribedAt..] && r.draft.target == cfg.target
          && r.sequence > LastDelivered(s.phase.backlog, s.phase.cursor))
  {
    DrainedExact(cfg, s);
    BufferMember(cfg, s, r);
  }

  /** No record of the stream that the backlog has, or that lies at or before the cursor, is still to be published. */
  ghost predicate NoneInFlight(cfg: Config, s: System)
    requires s.phase.Finishing?
  {
    forall r :: r in s.pending && r.draft.target == cfg.target ==>
      r.sequence > s.phase.cursor && r !in s.phase.backlog
  }

  /** The page had room for whatever the store held that was published before subscribing. */
  ghost predicate PageReaches(cfg: Config, s: System)
    requires s.phase.Finishing? && s.subscribedAt <= |s.published|
  {
    forall r :: r in s.published[..s.subscribedAt] && r in s.kept && Selects(cfg.target, s.phase.cursor, r) ==>
      r in s.phase.backlog
  }

  /** Nothing published since subscribing had left the store by the read and is passed over by the backlog. */
  ghost predicate NonePassedOver(cfg: Config, s: System)
    requires s.phase.Finishing? && s.subscribedAt <= |s.published|
  {
    forall r :: r in s.published[s.subscribedAt..] && r !in s.kept && Selects(cfg.target, s.phase.cursor, r) ==>
      r.sequence > LastDelivered(s.phase.backlog, s.phase.cursor)
  }

  /** What a connection about to go live can check: the cursor, the publications, the page and the store. */
  ghost predicate Deliverable(cfg: Config, s: System)
    requires s.phase.Finishing? && s.subscribedAt <= |s.published|
  {
    && s.phase.cursor <= s.log.latest
    && NoneInFlight(cfg, s)
    && PageReaches(cfg, s)
    && NonePassedOver(cfg, s)
  }

  /** Nothing in flight, told from the backlog: all of it is published, as is all up to the cursor. */
  lemma NoneInFlightIffReturnedPublished(cfg: Config, s: System)
    requires Inv(cfg, s) && s.phase.Finishing?
    ensures NoneInFlight(cfg, s) <==>
      && (forall r :: r in s.phase.backlog ==> r in s.published)
      && (forall r :: r in s.pending && r.draft.target == cfg.target ==> r.sequence > s.phase.cursor)
  {
    BacklogReaches(cfg, s);
    forall r | r in s.phase.backlog ensures r in s.published <==> r !in s.pending {
      assert r in s.stored[..s.readAt];
    }
  }

  /** Published, expected and not sent in going live: exactly what the page or the store dropped. */
  lemma DroppedMember(cfg: Config, s: System, r: Record)
    requires Inv(cfg, s) && s.phase.Finishing? && s.channel.socket.open
    requires r in s.published && Due(cfg, s, s.phase.cursor, r)
    ensures r !in s.phase.backlog + Drained(s) <==>
      r !in s.phase.backlog &&
      (r in s.published[s.subscribedAt..] ==>
        r !in s.kept && r.sequence <= LastDelivered(s.phase.backlog, s.phase.cursor))
  {
    SentMember(cfg, s, r);
    BacklogReaches(cfg, s);
    DistinctSplit(s.published, s.subscribedAt, r);
  }

  /** Page and store drop nothing exactly when all that is published and expected is sent in going live. */
  lemma NothingDropped(cfg: Config, s: System)
    requires Inv(cfg, s) && s.phase.Finishing? && s.channel.socket.open
    ensures PageReaches(cfg, s) && NonePassedOver(cfg, s) <==>
      forall r :: r in s.published && Due(cfg, s, s.phase.cursor, r) ==> r in s.phase.backlog + Drained(s)
  {
    BacklogReaches(cfg, s);
    forall r ensures r in s.published <==> r in s.published[..s.subscribedAt] || r in s.published[s.subscribedAt..] {
      DistinctSplit(s.published, s.subscribedAt, r);
    }
    forall r | r in s.published[s.subscribedAt..] ensures !Gone(s, r) {
      DistinctSplit(s.published, s.subscribedAt, r);
    }
    forall r | r in s.published && Due(cfg, s, s.phase.cursor, r)
      ensures r !in s.phase.backlog + Drained(s) <==>
        r !in s.phase.backlog &&
        (r in s.published[s.subscribedAt..] ==>
          r !in s.kept && r.sequence <= LastDelivered(s.phase.backlog, s.phase.cursor))
    {
      DroppedMember(cfg, s, r);
    }
    forall r | r in s.published[..s.subscribedAt] ensures r !in s.published[s.subscribedAt..] {
      DistinctSplit(s.published, s.subscribedAt, r);
    }
  }

  /** With nothing in flight, whatever is sent in going live is published and expected. */
  lemma SentIsDue(cfg: Config, s: System, r: Record)
    requires Inv(cfg, s) && s.phase.Finishing? && s.channel.socket.open && NoneInFlight(cfg, s)
    requires r in s.phase.backlog + Drained(s)
    ensures r in s.published && Due(cfg, s, s.phase.cursor, r)
  {
    SentMember(cfg, s, r);
    BacklogReaches(cfg, s);
    DistinctSplit(s.published, s.subscribedAt, r);
    if r in s.phase.backlog {
      assert r in s.stored[..s.readAt];
    }
    assert r in s.stored;
  }

  lemma BeyondNoRepeats(a: seq<Record>, b: seq<Record>, last: nat)
    requires Increasing(a) && Increasing(b)
    requires (forall r :: r in a ==> r.sequence <= last) && forall r :: r in b ==> r.sequence > last
    ensures Increasing(a + b) && NoRepeats(a + b)
  {
    assert forall i :: 0 <= i < |a| ==> a[i] in a;
    assert forall j :: 0 <= j < |b| ==> b[j] in b;
  }

  /** From a deliverable state, going live sends what is published and expected, once. */
  lemma DeliverableSends(cfg: Config, s: System)
    requires Inv(cfg, s) && s.phase.Finishing? && s.channel.socket.open && Deliverable(cfg, s)
    ensures var sent := s.phase.backlog + Drained(s);
      && Increasing(sent) && NoRepeats(sent)
      && forall r :: r in sent <==> r in s.published && Due(cfg, s, s.phase.cursor, r)
  {
    DrainedExact(cfg, s);
    BacklogReaches(cfg, s);
    BeyondNoRepeats(s.phase.backlog, Drained(s), LastDelivered(s.phase.backlog, s.phase.cursor));
    NothingDropped(cfg, s);
    forall r | r in s.phase.backlog + Drained(s) ensures r in s.published && Due(cfg, s, s.phase.cursor, r) {
      SentIsDue(cfg, s, r);
    }
  }

  /** Going live changes the connection only. */
  lemma FinishKeepsRest(cfg: Config, s: System)
    requires cfg.maxRecords > 0 && s.phase.Finishing?
    ensures var t := Next(cfg, s, Finish);
      && SameRead(s.(phase := Streaming(s.phase.cursor)), t)
      && t.log == s.log && t.stored == s.stored && t.published == s.published && t.pending == s.pending
      && forall r :: Due(cfg, t, s.phase.cursor, r) <==> Due(cfg, s, s.phase.cursor, r)
  {
  }

  /** On an accepting socket going live succeeds. */
  lemma AcceptedGoesLive(cfg: Config, s: System)
    requires cfg.maxRecords > 0 && Inv(cfg, s) && s.phase.Finishing?
    requires s.channel.socket.open && forall n :: s.channel.socket.accepts(n)
    ensures var t := Next(cfg, s, Finish);
      Inv(cfg, t) && Accepting(t) && t.channel.socket.sent == s.phase.backlog + Drained(s)
  {
    StepKeepsInv(cfg, s, Finish);
    FinishSends(cfg, s);
    FinishKeepsRest(cfg, s);
  }

  /** Going live from a deliverable state settles, and in order so far. */
  lemma DeliverableSettles(cfg: Config, s: System)
    requires cfg.maxRecords > 0 && Inv(cfg, s) && s.phase.Finishing? && Deliverable(cfg, s)
    requires Next(cfg, s, Finish).channel.socket.open && s.channel.socket.open
    ensures Settled(cfg, Next(cfg, s, Finish))
    ensures Increasing(Next(cfg, s, Finish).channel.socket.sent)
  {
    FinishSends(cfg, s);
    FinishKeepsRest(cfg, s);
    DeliverableSends(cfg, s);
  }

  lemma FinishKeepsOpen(cfg: Config, s: System)
    requires cfg.maxRecords > 0 && Inv(cfg, s) && s.phase.Finishing? && Next(cfg, s, Finish).channel.socket.open
    ensures s.channel.socket.open
  {
    if !s.channel.socket.open {
      ClosedStep(cfg, s, Finish);
    }
  }

  /** An open connection that has settled stays faithful. */
  lemma SettledIsFaithful(cfg: Config, s: System, steps: seq<Step>)
    requires cfg.maxRecords > 0 && Inv(cfg, s) && (s.channel.socket.open ==> Settled(cfg, s))
    ensures var t := Exec(cfg, s, steps);
      t.channel.socket.open ==> s.phase.Streaming? && Faithful(cfg, t, s.phase.cursor) && SameRead(s, t)
  {
    if Exec(cfg, s, steps).channel.socket.open {
      ReopensNever(cfg, s, steps);
      SettledForever(cfg, s, steps);
    }
  }

  lemma DeliverableGoesLive(cfg: Config, s: System)
    requires cfg.maxRecords > 0 && Inv(cfg, s) && s.phase.Finishing? && Deliverable(cfg, s)
    ensures var live := Next(cfg, s, Finish);
      Inv(cfg, live)
      && (live.channel.socket.open ==> Settled(cfg, live) && Increasing(live.channel.socket.sent))
  {
    StepKeepsInv(cfg, s, Finish);
    if Next(cfg, s, Finish).channel.socket.open {
      FinishKeepsOpen(cfg, s);
      DeliverableSettles(cfg, s);
    }
  }

  /** From a deliverable state, going live is faithful for good. */
  lemma DeliverableIsFaithful(cfg: Config, s: System, after: seq<Step>)
    requires cfg.maxRecords > 0 && Inv(cfg, s) && s.phase.Finishing? && Deliverable(cfg, s)
    ensures var t := Exec(cfg, Next(cfg, s, Finish), after);
      t.channel.socket.open ==> Faithful(cfg, t, s.phase.cursor) && t.kept == s.kept && t.subscribedAt == s.subscribedAt
  {
    DeliverableGoesLive(cfg, s);
    FinishKeepsRest(cfg, s);
    SettledIsFaithful(cfg, Next(cfg, s, Finish), after);
  }

  lemma AcceptingStaysFaithful(cfg: Config, s: System, steps: seq<Step>)
    requires cfg.maxRecords > 0 && Inv(cfg, s) && s.phase.Finishing? && Deliverable(cfg, s)
    requires s.channel.socket.open && forall n :: s.channel.socket.accepts(n)
    requires DeliveriesOnly(steps)
    ensures Faithful(cfg, Exec(cfg, Next(cfg, s, Finish), steps), s.phase.cursor)
  {
    AcceptedGoesLive(cfg, s);
    DeliveriesKeepOpen(cfg, Next(cfg, s, Finish), steps);
    DeliverableIsFaithful(cfg, s, steps);
  }

  /** What is in flight can be published next, and then shows. */
  lemma InFlightIsSeen(cfg: Config, s: System) returns (steps: seq<Step>)
    requires cfg.maxRecords > 0 && Inv(cfg, s) && s.phase.Finishing? && !NoneInFlight(cfg, s)
    requires s.channel.socket.open && forall n :: s.channel.socket.accepts(n)
    ensures DeliveriesOnly(steps)
    ensures !Faithful(cfg, Exec(cfg, Next(cfg, s, Finish), steps), s.phase.cursor)
  {
    var r :| r in s.pending && r.draft.target == cfg.target
             && (r.sequence <= s.phase.cursor || r in s.phase.backlog);
    var k :| 0 <= k < |s.pending| && s.pending[k] == r;
    AcceptedGoesLive(cfg, s);
    FinishKeepsRest(cfg, s);
    UnfitPublishBreaks(cfg, Next(cfg, s, Finish), k, s.phase.cursor);
    steps := [Publish(k)];
  }

  /** What is dropped is missing at once. */
  lemma DroppedIsSeen(cfg: Config, s: System)
    requires cfg.maxRecords > 0 && Inv(cfg, s) && s.phase.Finishing?
    requires !(PageReaches(cfg, s) && NonePassedOver(cfg, s))
    requires s.channel.socket.open && forall n :: s.channel.socket.accepts(n)
    ensures !Faithful(cfg, Exec(cfg, Next(cfg, s, Finish), []), s.phase.cursor)
  {
    var t := Next(cfg, s, Finish);
    AcceptedGoesLive(cfg, s);
    FinishKeepsRest(cfg, s);
    NothingDropped(cfg, s);
    var r :| r in s.published && Due(cfg, s, s.phase.cursor, r) && r !in s.phase.backlog + Drained(s);
    assert r in t.published && Due(cfg, t, s.phase.cursor, r);
  }

  lemma UndeliverableIsSeen(cfg: Config, s: System) returns (steps: seq<Step>)
    requires cfg.maxRecords > 0 && Inv(cfg, s) && s.phase.Finishing? && !Deliverable(cfg, s)
    requires s.channel.socket.open && forall n :: s.channel.socket.accepts(n)
    ensures DeliveriesOnly(steps)
    ensures !Faithful(cfg, Exec(cfg, Next(cfg, s, Finish), steps), s.phase.cursor)
  {
    if !NoneInFlight(cfg, s) {
      steps := InFlightIsSeen(cfg, s);
    } else if s.phase.cursor > s.log.latest {
      AcceptedGoesLive(cfg, s);
      FinishKeepsRest(cfg, s);
      steps := CursorAheadBreaks(cfg, Next(cfg, s, Finish));
    } else {
      DroppedIsSeen(cfg, s);
      steps := [];
    }
  }

  /**
   * The exact condition, whatever was read: for a socket that accepts its frames, every continuation
   * by deliveries is faithful if and only if the state in which the connection goes live is
   * deliverable.
   */
  lemma ExactIffDeliverable(cfg: Config, s: System)
    requires cfg.maxRecords > 0 && Inv(cfg, s) && s.phase.Finishing?
    requires s.channel.socket.open && forall n :: s.channel.socket.accepts(n)
    ensures Deliverable(cfg, s) <==>
      forall steps :: DeliveriesOnly(steps) ==>
        Faithful(cfg, Exec(cfg, Next(cfg, s, Finish), steps), s.phase.cursor)
  {
    if Deliverable(cfg, s) {
      forall steps | DeliveriesOnly(steps)
        ensures Faithful(cfg, Exec(cfg, Next(cfg, s, Finish), steps), s.phase.cursor)
      {
        AcceptingStaysFaithful(cfg, s, steps);
      }
    } else {
      var steps := UndeliverableIsSeen(cfg, s);
    }
  }

  // ---- what a page that is too small loses

  /** Published before subscribing, and neither sent nor about to be. */
  ghost predicate OutOfReach(s: System, r: Record) {
    && s.subscribedAt <= |s.published| && r in s.published[..s.subscribedAt]
    && r !in s.channel.buffer && r !in s.channel.socket.sent
    && (s.phase.Streaming? || (s.phase.Finishing? && r !in s.phase.backlog))
  }

  lemma {:induction false} DeliverAllAdds(c: Channel, rs: seq<Record>, r: Record)
    requires r !in rs && r !in c.buffer && r !in c.socket.sent
    ensures r !in DeliverAll(c, rs).socket.sent && r !in DeliverAll(c, rs).buffer
    decreases |rs|
  {
    if rs != [] {
      DeliverAllAdds(Deliver(c, rs[0]), rs[1..], r);
    }
  }

  lemma FinishAdds(cfg: Config, s: System, r: Record)
    requires cfg.maxRecords > 0 && Inv(cfg, s) && OutOfReach(s, r)
    ensures OutOfReach(Next(cfg, s, Finish), r)
  {
    if s.phase.Finishing? && s.channel.socket.open {
      var c := WithSocket(s.channel, Send(s.channel.socket, s.phase.backlog));
      DrainedExact(cfg, s);
      if c.socket.open {
        DeliverAllAdds(c.(state := Live, buffer := []), Drained(s), r);
      }
    }
  }

  lemma OutOfReachStep(cfg: Config, s: System, step: Step, r: Record)
    requires cfg.maxRecords > 0 && Inv(cfg, s) && OutOfReach(s, r)
    ensures OutOfReach(Next(cfg, s, step), r)
  {
    match step
    case Publish(k) =>
      assert s.published[..s.subscribedAt] == Next(cfg, s, step).published[..s.subscribedAt];
      assert r in s.published;
    case Finish => FinishAdds(cfg, s, r);
    case _ =>
  }

  lemma {:induction false} OutOfReachRun(cfg: Config, s: System, steps: seq<Step>, r: Record)
    requires cfg.maxRecords > 0 && Inv(cfg, s) && OutOfReach(s, r)
    ensures OutOfReach(Exec(cfg, s, steps), r)
    decreases |steps|
  {
    if steps != [] {
      OutOfReachStep(cfg, s, steps[0], r);
      StepKeepsInv(cfg, s, steps[0]);
      OutOfReachRun(cfg, Next(cfg, s, steps[0]), steps[1..], r);
    }
  }

  /** A record published before subscribing that the page did not reach is never sent, whatever happens. */
  lemma BeyondPageNeverSent(cfg: Config, s: System, steps: seq<Step>, r: Record)
    requires cfg.maxRecords > 0 && Inv(cfg, s) && s.phase.Finishing? && s.channel.socket.open
    requires r in s.published[..s.subscribedAt] && r !in s.phase.backlog
    ensures r !in Exec(cfg, s, steps).channel.socket.sent
  {
    DistinctSplit(s.published, s.subscribedAt, r);
    BufferMember(cfg, s, r);
    OutOfReachRun(cfg, s, steps, r);
  }

  /** Of what the store held beyond the page, going live sends exactly what was published since subscribing. */
  lemma BeyondPageSentIff(cfg: Config, s: System, r: Record)
    requires Inv(cfg, s) && s.phase.Finishing? && s.channel.socket.open
    requires r in s.kept && Selects(cfg.target, s.phase.cursor, r) && r !in s.phase.backlog
    ensures r in s.phase.backlog + Drained(s) <==> r in s.published[s.subscribedAt..]
  {
    SentMember(cfg, s, r);
    BacklogReaches(cfg, s);
  }

  // ---- a complete read

  /**
   * The read returns all that the store still holds after the cursor, and what it no longer holds had
   * been published before the connection subscribed.
   */
  ghost predicate ReadIsComplete(cfg: Config, s: System, cursor: nat, limit: nat, now: int) {
    && |Wanted(cfg, Prune(s.log.records, now), cursor)| <= limit
    && s.subscribedAt <= |s.published|
    && forall r :: r in s.stored && Selects(cfg.target, cursor, r) && r !in Prune(s.log.records, now) ==>
         r in s.published[..s.subscribedAt]
  }

  /** The same once read: and the cursor was not ahead of what had been stored by then. */
  ghost predicate CleanRead(cfg: Config, s: System) {
    && s.phase.Finishing?
    && s.readAt <= |s.stored| && s.subscribedAt <= |s.published|
    && s.phase.backlog == Wanted(cfg, s.kept, s.phase.cursor)
    && (forall r :: r in s.stored[..s.readAt] && Selects(cfg.target, s.phase.cursor, r) && r !in s.kept ==>
          r in s.published[..s.subscribedAt])
    && (forall i :: s.readAt <= i < |s.stored| ==> s.stored[i].sequence > s.phase.cursor)
    && s.phase.cursor <= s.log.latest
  }

  lemma CompleteReadIsClean(cfg: Config, s: System, now: int)
    requires cfg.maxRecords > 0 && Inv(cfg, s) && s.phase.Reading? && s.phase.cursor <= s.log.latest
    requires ReadIsComplete(cfg, s, s.phase.cursor, s.phase.limit, now)
    ensures CleanRead(cfg, Next(cfg, s, Read(now)))
  {
    assert s.stored[..|s.stored|] == s.stored;
  }

  /** What others do while a connection waits: use the store, publish, or cut the connection. */
  ghost predicate Background(steps: seq<Step>) {
    forall step :: step in steps ==> step.Store? || step.Publish? || step.Disconnect?
  }

  lemma CleanKept(cfg: Config, s: System, t: System)
    requires CleanRead(cfg, s) && s.log.latest <= t.log.latest && SameRead(s, t) && s.stored <= t.stored
    requires forall i :: |s.stored| <= i < |t.stored| ==> t.stored[i].sequence > s.log.latest
    ensures CleanRead(cfg, t)
  {
    assert t.stored[..s.readAt] == s.stored[..s.readAt];
    assert t.published[..s.subscribedAt] == s.published[..s.subscribedAt];
  }

  /** Others' steps add to what is stored and published and leave the connection's request alone. */
  lemma BackgroundAdds(cfg: Config, s: System, step: Step)
    requires cfg.maxRecords > 0 && Inv(cfg, s) && (step.Store? || step.Publish? || step.Disconnect?)
    ensures var t := Next(cfg, s, step);
      && s.log.latest <= t.log.latest && SameRead(s, t) && s.stored <= t.stored
      && forall i :: |s.stored| <= i < |t.stored| ==> t.stored[i].sequence > s.log.latest
  {
    if step.Store? {
      StoreKeepsLog(cfg, s, step.op);
    }
  }

  lemma {:induction false} CleanRun(cfg: Config, s: System, steps: seq<Step>)
    requires cfg.maxRecords > 0 && Inv(cfg, s) && CleanRead(cfg, s) && Background(steps)
    ensures CleanRead(cfg, Exec(cfg, s, steps)) && Inv(cfg, Exec(cfg, s, steps)) && SameRead(s, Exec(cfg, s, steps))
    decreases |steps|
  {
    if steps != [] {
      var t := Next(cfg, s, steps[0]);
      assert steps[0] in steps;
      BackgroundAdds(cfg, s, steps[0]);
      CleanKept(cfg, s, t);
      StepKeepsInv(cfg, s, steps[0]);
      CleanRun(cfg, t, steps[1..]);
    }
  }

  /** While a connection waits for its read, the counter only grows and the request stands. */
  lemma {:induction false} WaitingRun(cfg: Config, s: System, steps: seq<Step>)
    requires cfg.maxRecords > 0 && Inv(cfg, s) && s.phase.Reading? && Background(steps)
    ensures var t := Exec(cfg, s, steps);
      Inv(cfg, t) && t.phase == s.phase && t.log.latest >= s.log.latest && t.subscribedAt == s.subscribedAt
    decreases |steps|
  {
    if steps != [] {
      assert steps[0] in steps;
      StepKeepsInv(cfg, s, steps[0]);
      if steps[0].Store? {
        StoreKeepsLog(cfg, s, steps[0].op);
      }
      WaitingRun(cfg, Next(cfg, s, steps[0]), steps[1..]);
    }
  }

  /** Every record of the stream that had been stored when the store was read has been published. */
  ghost predicate ReadAfterPublished(cfg: Config, s: System) {
    s.readAt <= |s.stored| &&
    forall r :: r in s.stored[..s.readAt] && r.draft.target == cfg.target ==> r in s.published
  }

  /** After a complete read nothing is in flight exactly when all that had been stored by the read is published. */
  lemma NoneInFlightIffReadAfterPublished(cfg: Config, s: System)
    requires Inv(cfg, s) && CleanRead(cfg, s)
    ensures NoneInFlight(cfg, s) <==> ReadAfterPublished(cfg, s)
  {
    forall r | r in s.pending && r.draft.target == cfg.target
      ensures r.sequence > s.phase.cursor && r !in s.phase.backlog <==> r !in s.stored[..s.readAt]
    {
      PendingIsRead(cfg, s, r);
    }
    assert forall r :: r in s.stored[..s.readAt] ==> r in s.stored;
  }

  lemma PendingIsRead(cfg: Config, s: System, r: Record)
    requires Inv(cfg, s) && CleanRead(cfg, s) && r in s.pending && r.draft.target == cfg.target
    ensures r.sequence > s.phase.cursor && r !in s.phase.backlog <==> r !in s.stored[..s.readAt]
  {
    WantedMember(cfg, s.kept, s.phase.cursor, r);
    assert r in s.stored && r !in s.published;
    assert r !in s.published[..s.subscribedAt];
    var i :| 0 <= i < |s.stored| && s.stored[i] == r;
    if i < s.readAt {
      assert s.stored[..s.readAt][i] == r;
    }
  }

  /** After a complete read nothing is dropped, so that only what is in flight matters. */
  lemma CleanIsDeliverable(cfg: Config, s: System)
    requires Inv(cfg, s) && CleanRead(cfg, s)
    ensures Deliverable(cfg, s) <==> NoneInFlight(cfg, s)
  {
    BacklogReaches(cfg, s);
    forall r | r in s.kept && Selects(cfg.target, s.phase.cursor, r) ensures r in s.phase.backlog {
      WantedMember(cfg, s.kept, s.phase.cursor, r);
    }
    forall r | r in s.published[s.subscribedAt..] && r !in s.kept && Selects(cfg.target, s.phase.cursor, r)
      ensures r.sequence > LastDelivered(s.phase.backlog, s.phase.cursor)
    {
      LeftOutIsLater(cfg, s, r);
    }
  }

  lemma IndexBeyond(rs: seq<Record>, n: nat, r: Record) returns (i: nat)
    requires n <= |rs| && r in rs && r !in rs[..n]
    ensures n <= i < |rs| && rs[i] == r
  {
    assert rs == rs[..n] + rs[n..];
    var j :| 0 <= j < |rs[n..]| && rs[n..][j] == r;
    i := n + j;
  }

  lemma LeftOutIsLater(cfg: Config, s: System, r: Record)
    requires Inv(cfg, s) && CleanRead(cfg, s) && r in s.published[s.subscribedAt..] && r !in s.kept
    requires Selects(cfg.target, s.phase.cursor, r)
    ensures r.sequence > LastDelivered(s.phase.backlog, s.phase.cursor)
  {
    DistinctSplit(s.published, s.subscribedAt, r);
    assert r in s.stored && r !in s.stored[..s.readAt];
    var i := IndexBeyond(s.stored, s.readAt, r);
    if s.phase.backlog != [] {
      var last := s.phase.backlog[|s.phase.backlog| - 1];
      WantedMember(cfg, s.kept, s.phase.cursor, last);
      assert last in s.stored[..s.readAt];
    }
  }

  /** After a complete read every continuation by deliveries is faithful if and only if nothing is in flight. */
  lemma ExactIffNoneInFlight(cfg: Config, s: System)
    requires cfg.maxRecords > 0 && Inv(cfg, s) && CleanRead(cfg, s)
    requires s.channel.socket.open && forall n :: s.channel.socket.accepts(n)
    ensures NoneInFlight(cfg, s) <==>
      forall steps :: DeliveriesOnly(steps) ==>
        Faithful(cfg, Exec(cfg, Next(cfg, s, Finish), steps), s.phase.cursor)
  {
    CleanIsDeliverable(cfg, s);
    ExactIffDeliverable(cfg, s);
  }

  // ---- whole connections

  /** The states a connection passes through, with others' steps in between. */
  function AtRead(cfg: Config, s: System, cursor: nat, limit: nat, before: seq<Step>): System
    requires cfg.maxRecords > 0
  {
    Exec(cfg, Next(cfg, s, Subscribe(cursor, limit)), before)
  }

  function AtFinish(cfg: Config, s: System, cursor: nat, limit: nat, before: seq<Step>, now: int,
                    between: seq<Step>): System
    requires cfg.maxRecords > 0
  {
    Exec(cfg, Next(cfg, AtRead(cfg, s, cursor, limit, before), Read(now)), between)
  }

  function AtEnd(cfg: Config, s: System, cursor: nat, limit: nat, before: seq<Step>, now: int,
                 between: seq<Step>, after: seq<Step>): System
    requires cfg.maxRecords > 0
  {
    Exec(cfg, Next(cfg, AtFinish(cfg, s, cursor, limit, before, now, between), Finish), after)
  }

  /** A connection that asked with a cursor not ahead, and read all there was, gets to going live clean. */
  lemma FinishIsReachedClean(cfg: Config, s: System, cursor: nat, limit: nat, before: seq<Step>, now: int,
                             between: seq<Step>)
    requires cfg.maxRecords > 0 && Inv(cfg, s) && s.phase == Idle && s.channel.socket.open
    requires cursor <= s.log.latest
    requires Background(before) && Background(between)
    requires ReadIsComplete(cfg, AtRead(cfg, s, cursor, limit, before), cursor, limit, now)
    ensures var t := AtFinish(cfg, s, cursor, limit, before, now, between);
      && Inv(cfg, t) && CleanRead(cfg, t) && t.phase.cursor == cursor
      && t.kept == Prune(AtRead(cfg, s, cursor, limit, before).log.records, now)
      && t.subscribedAt == |s.published|
  {
    var s1 := Next(cfg, s, Subscribe(cursor, limit));
    StepKeepsInv(cfg, s, Subscribe(cursor, limit));
    WaitingRun(cfg, s1, before);
    var s2 := AtRead(cfg, s, cursor, limit, before);
    CompleteReadIsClean(cfg, s2, now);
    StepKeepsInv(cfg, s2, Read(now));
    CleanRun(cfg, Next(cfg, s2, Read(now)), between);
  }

  /**
   * In every interleaving and every order of publication: if the cursor was not ahead of the store
   * when subscribing, the read was complete, and going live waited until what had been stored by the
   * read was published, then a connection that is still open has been sent each published record of
   * its stream after its cursor exactly once, and nothing else, except for what had been published
   * before it subscribed and was no longer held at the read.
   */
  lemma DeliveredExactlyOnce(cfg: Config, s: System, cursor: nat, limit: nat, before: seq<Step>, now: int,
                             between: seq<Step>, after: seq<Step>)
    requires cfg.maxRecords > 0 && Inv(cfg, s) && s.phase == Idle && s.channel.socket.open
    requires cursor <= s.log.latest
    requires Background(before) && Background(between)
    requires ReadIsComplete(cfg, AtRead(cfg, s, cursor, limit, before), cursor, limit, now)
    requires ReadAfterPublished(cfg, AtFinish(cfg, s, cursor, limit, before, now, between))
    ensures var t := AtEnd(cfg, s, cursor, limit, before, now, between, after);
      t.channel.socket.open ==>
        && Faithful(cfg, t, cursor)
        && t.kept == Prune(AtRead(cfg, s, cursor, limit, before).log.records, now)
        && t.subscribedAt == |s.published|
  {
    var t := AtFinish(cfg, s, cursor, limit, before, now, between);
    FinishIsReachedClean(cfg, s, cursor, limit, before, now, between);
    NoneInFlightIffReadAfterPublished(cfg, t);
    CleanIsDeliverable(cfg, t);
    DeliverableIsFaithful(cfg, t, after);
  }

  /** An empty store and a connection that has not subscribed yet. */
  function Unused(accepts: nat -> bool): System {
    System(Log([], 0), [], [], [], Idle, Channel("t", Closed, [], 0, Socket(true, [], 0, accepts)), 0, 0, [])
  }

  lemma UnusedIsValid(cfg: Config, accepts: nat -> bool)
    ensures Inv(cfg, Unused(accepts))
  {
  }

  lemma ExecThree(cfg: Config, s: System, a: Step, b: Step, c: Step)
    requires cfg.maxRecords > 0
    ensures Exec(cfg, s, [a, b, c]) == Next(cfg, Next(cfg, Next(cfg, s, a), b), c)
  {
    ExecConcat(cfg, s, [a], [b, c]);
    ExecConcat(cfg, Next(cfg, s, a), [b], [c]);
    assert [a, b, c] == [a] + [b, c] && [b, c] == [b] + [c];
    ExecOne(cfg, s, a);
    ExecOne(cfg, Next(cfg, s, a), b);
    ExecOne(cfg, Next(cfg, Next(cfg, s, a), b), c);
  }

  lemma ExecOne(cfg: Config, s: System, a: Step)
    requires cfg.maxRecords > 0
    ensures Exec(cfg, s, [a]) == Next(cfg, s, a)
  {
    assert [a][1..] == [];
  }

  /** A record is stored, its put has not settled, and a connection has subscribed and read it. */
  lemma LatePutRead(cfg: Config, d: Draft, accepts: nat -> bool) returns (read: System)
    requires cfg == Config("t", 10, 10) && d == Draft("k", "t", "e", Timestamp(10, "10"), true)
    ensures read == Exec(cfg, Unused(accepts), [Store(Op.PutIfAbsent(d, 0)), Subscribe(0, 10), Read(0)])
    ensures read.phase == Finishing(0, [Record(d, 1)]) && read.pending == [Record(d, 1)]
    ensures read.channel == Channel("t", Buffering, [], 0, Socket(true, [], 0, accepts))
  {
    var r := Record(d, 1);
    var steps := [Store(Op.PutIfAbsent(d, 0)), Subscribe(0, 10), Read(0)];
    var stored := Next(cfg, Unused(accepts), steps[0]);
    ExecThree(cfg, Unused(accepts), steps[0], steps[1], steps[2]);
    assert stored.log.records == [r] && stored.pending == [r];
    read := Next(cfg, Next(cfg, stored, steps[1]), steps[2]);
    FilterAll([r], Unexpired(0));
    FilterAll([r], Selection("t", 0));
  }

  /**
   * A store whose put settles only after a read has shown its record: storing, then a whole
   * handshake, then publishing sends the record in the backlog and again live.
   */
  lemma LateSettlingPutDuplicates(cfg: Config, d: Draft, accepts: nat -> bool) returns (read: System)
    requires cfg == Config("t", 10, 10) && d == Draft("k", "t", "e", Timestamp(10, "10"), true)
    requires forall n :: accepts(n)
    ensures Inv(cfg, Unused(accepts)) && Inv(cfg, read)
    ensures read == Exec(cfg, Unused(accepts), [Store(Op.PutIfAbsent(d, 0)), Subscribe(0, 10), Read(0)])
    ensures var live := Next(cfg, read, Finish);
      Next(cfg, live, Publish(0)).channel.socket.sent == [Record(d, 1), Record(d, 1)]
  {
    read := LatePutRead(cfg, d, accepts);
    UnusedIsValid(cfg, accepts);
    RunKeepsInv(cfg, Unused(accepts), [Store(Op.PutIfAbsent(d, 0)), Subscribe(0, 10), Read(0)]);
    var live := Next(cfg, read, Finish);
    assert live.channel.socket.sent == [Record(d, 1)] && live.pending == [Record(d, 1)];
  }

  /** A connection has subscribed and the first of two deliveries has been published. */
  lemma FirstPublished(cfg: Config, a: Draft, accepts: nat -> bool) returns (s: System)
    requires cfg == Config("t", 1, 10) && a == Draft("a", "t", "e", Timestamp(10, "10"), true)
    ensures s == Exec(cfg, Unused(accepts), [Subscribe(0, 10), Store(Op.PutIfAbsent(a, 0)), Publish(0)])
    ensures s == System(Log([Record(a, 1)], 1), [Record(a, 1)], [Record(a, 1)], [], Reading(0, 10),
                        Channel("t", Buffering, [Record(a, 1)], 0, Socket(true, [], 0, accepts)), 0, 0, [])
  {
    ExecThree(cfg, Unused(accepts), Subscribe(0, 10), Store(Op.PutIfAbsent(a, 0)), Publish(0));
    var asked := Next(cfg, Unused(accepts), Subscribe(0, 10));
    var stored := Next(cfg, asked, Store(Op.PutIfAbsent(a, 0)));
    assert stored.log == Log([Record(a, 1)], 1) && stored.pending == [Record(a, 1)];
    s := Next(cfg, stored, Publish(0));
  }

  /** The second delivery evicts the first from the store, and then the store is read. */
  lemma SecondEvicts(cfg: Config, a: Draft, b: Draft, s: System) returns (read: System)
    requires cfg == Config("t", 1, 10) && a == Draft("a", "t", "e", Timestamp(10, "10"), true)
    requires b == Draft("b", "t", "e", Timestamp(10, "10"), true)
    requires s.log == Log([Record(a, 1)], 1) && s.phase == Reading(0, 10) && s.pending == []
    requires s.channel.state == Buffering && s.channel.buffer == [Record(a, 1)]
    ensures read == Exec(cfg, s, [Store(Op.PutIfAbsent(b, 0)), Publish(0), Read(0)])
    ensures read.phase == Finishing(0, [Record(b, 2)]) && read.kept == [Record(b, 2)]
    ensures read.channel == s.channel.(buffer := [Record(a, 1), Record(b, 2)])
    ensures read.published == s.published + [Record(b, 2)] && read.subscribedAt == s.subscribedAt
  {
    ExecThree(cfg, s, Store(Op.PutIfAbsent(b, 0)), Publish(0), Read(0));
    FilterAll([Record(a, 1)], Unexpired(0));
    var stored := Next(cfg, s, Store(Op.PutIfAbsent(b, 0)));
    assert stored.log == Log([Record(b, 2)], 2) && stored.pending == [Record(b, 2)];
    var published := Next(cfg, stored, Publish(0));
    FilterAll([Record(b, 2)], Unexpired(0));
    FilterAll([Record(b, 2)], Selection("t", 0));
    read := Next(cfg, published, Read(0));
  }

  /**
   * A record published since subscribing that is evicted before the read, while a later one is read,
   * is passed over: it was buffered, and the drain drops it as covered by the backlog.
   */
  lemma EvictedMeanwhileIsPassedOver(cfg: Config, a: Draft, b: Draft, accepts: nat -> bool)
      returns (first: System, read: System)
    requires cfg == Config("t", 1, 10) && a == Draft("a", "t", "e", Timestamp(10, "10"), true)
    requires b == Draft("b", "t", "e", Timestamp(10, "10"), true) && forall n :: accepts(n)
    ensures first == Exec(cfg, Unused(accepts), [Subscribe(0, 10), Store(Op.PutIfAbsent(a, 0)), Publish(0)])
    ensures read == Exec(cfg, first, [Store(Op.PutIfAbsent(b, 0)), Publish(0), Read(0)])
    ensures read.published == [Record(a, 1), Record(b, 2)] && read.subscribedAt == 0
    ensures Next(cfg, read, Finish).channel.socket.sent == [Record(b, 2)]
  {
    first := FirstPublished(cfg, a, accepts);
    read := SecondEvicts(cfg, a, b, first);
    FilterNone([Record(a, 1), Record(b, 2)], After(2));
    FinishSends(cfg, read);
    assert Drained(read) == [];
  }
}
