/** What the log holds after a run of operations: the newest records that have not expired. */
module BridgeRetention {
  import opened Wrappers
  import opened BridgeLog

  /** The next sequence is the least above the counter that is not behind the clock, while that is safe. */
  lemma NextSequenceLeast(current: nat, now: int, x: nat)
    ensures var next := NextSequence(current, now);
      && next > current
      && (now * 1000 < MAX_SAFE_INTEGER ==> next >= now * 1000)
      && (x > current && (x >= now * 1000 || x >= MAX_SAFE_INTEGER - 1) ==> x >= next)
  {
  }

  // ---- pages

  /** A page holds, in order, the first records of the stream after the cursor, as many as the limit. */
  lemma ListAfterExact(rs: seq<Record>, target: string, after: int, limit: nat)
    requires Increasing(rs)
    ensures var page := ListAfter(rs, target, after, limit);
      && |page| <= limit && Increasing(page)
      && (forall r :: r in page ==> r in rs && r.draft.target == target && r.sequence > after && r.draft.hasEvent)
      && (forall r :: r in rs && r.draft.target == target && r.sequence > after && r.draft.hasEvent && r !in page ==>
            |page| == limit && forall x :: x in page ==> x.sequence < r.sequence)
  {
    var all := Filter(rs, Selection(target, after));
    FilterIncreasing(rs, Selection(target, after));
    forall r ensures r in all <==> r in rs && Selects(target, after, r) {
      FilterMember(rs, Selection(target, after), r);
    }
    var page := ListAfter(rs, target, after, limit);
    assert forall i :: 0 <= i < |page| ==> page[i] == all[i] && page[i] in all;
    forall r | r in all && r !in page ensures |page| == limit && forall x :: x in page ==> x.sequence < r.sequence {
      var i :| 0 <= i < |all| && all[i] == r;
      assert i >= |page|;
    }
  }

  // ---- what one put keeps

  function Newer(r: Record): Record -> bool {
    (x: Record) => x.sequence > r.sequence
  }

  function NewerUnexpired(r: Record, now: int): Record -> bool {
    (x: Record) => x.sequence > r.sequence && x.draft.expiresAt.ms > now
  }

  lemma {:induction false} NewerIsRest(rs: seq<Record>, i: nat)
    requires Increasing(rs) && i < |rs|
    ensures Filter(rs, Newer(rs[i])) == rs[i + 1..]
  {
    var p := Newer(rs[i]);
    assert rs == rs[..i + 1] + rs[i + 1..];
    FilterConcat(rs[..i + 1], rs[i + 1..], p);
    FilterNone(rs[..i + 1], p);
    FilterAll(rs[i + 1..], p);
  }

  lemma EvictionKeepsIff(rs: seq<Record>, r: Record, maxRecords: nat)
    requires Increasing(rs) && r in rs && maxRecords > 0
    ensures r in EvictToCapacity(rs, maxRecords) <==> |Filter(rs, Newer(r))| < maxRecords - 1
  {
    var i :| 0 <= i < |rs| && rs[i] == r;
    NewerIsRest(rs, i);
    if |rs| >= maxRecords {
      var n := |rs| - (maxRecords - 1);
      assert rs[n..] == EvictToCapacity(rs, maxRecords);
      if i >= n {
        assert rs[n..][i - n] == r;
      }
    }
  }

  /**
   * An insertion keeps a record exactly if it has not expired and the unexpired records after it
   * leave room for the new one.
   */
  lemma PutKeepsIff(log: Log, d: Draft, now: int, maxRecords: nat, r: Record)
    requires ValidLog(log) && maxRecords > 0 && r in log.records
    requires Apply(log, Op.PutIfAbsent(d, now), maxRecords).1.Inserted?
    ensures r in Apply(log, Op.PutIfAbsent(d, now), maxRecords).0.records <==>
      r.draft.expiresAt.ms > now && |Filter(log.records, NewerUnexpired(r, now))| < maxRecords - 1
  {
    var pruned := Prune(log.records, now);
    PrunedIsValid(log, now);
    FilterMember(log.records, Unexpired(now), r);
    FilterImplied(log.records, Unexpired(now), NewerUnexpired(r, now));
    forall x | x in pruned ensures x.draft.expiresAt.ms > now {
      FilterMember(log.records, Unexpired(now), x);
    }
    FilterSame(pruned, NewerUnexpired(r, now), Newer(r));
    if r in pruned {
      EvictionKeepsIff(pruned, r, maxRecords);
    }
    assert r.sequence <= log.latest;
    EvictionShrinks(pruned, maxRecords, r);
  }

  lemma EvictionShrinks(rs: seq<Record>, maxRecords: nat, r: Record)
    requires maxRecords > 0
    ensures r in EvictToCapacity(rs, maxRecords) ==> r in rs
  {
  }

  // ---- over a run

  /** The records a run inserts, in order. */
  function InsertedBy(log: Log, ops: seq<Op>, maxRecords: nat): seq<Record>
    requires maxRecords > 0
    decreases |ops|
  {
    if ops == [] then []
    else
      var (next, answer) := Apply(log, ops[0], maxRecords);
      (if answer.Inserted? then [answer.stored] else []) + InsertedBy(next, ops[1..], maxRecords)
  }

  lemma {:induction false} FilterFewer(rs: seq<Record>, p: Record -> bool, q: Record -> bool)
    requires forall r :: p(r) ==> q(r)
    ensures |Filter(rs, p)| <= |Filter(rs, q)|
  {
    if rs != [] {
      FilterFewer(rs[1..], p, q);
    }
  }

  lemma {:induction false} FilterCommutes(rs: seq<Record>, p: Record -> bool, q: Record -> bool)
    ensures Filter(Filter(rs, p), q) == Filter(Filter(rs, q), p)
  {
    if rs != [] {
      FilterCommutes(rs[1..], p, q);
    }
  }

  /** Pruning and eviction only take away, so the records after a given one grow by insertions only. */
  lemma NewerGrowsByInsertion(log: Log, op: Op, maxRecords: nat, r: Record)
    requires maxRecords > 0
    ensures var (next, answer) := Apply(log, op, maxRecords);
      |Filter(next.records, Newer(r))| <= |Filter(log.records, Newer(r))| + (if answer.Inserted? then 1 else 0)
  {
    var pruned := Prune(log.records, op.now);
    FilterCommutes(log.records, Unexpired(op.now), Newer(r));
    FilterShrinks(Filter(log.records, Newer(r)), Unexpired(op.now));
    var (next, answer) := Apply(log, op, maxRecords);
    if answer.Inserted? {
      var kept := EvictToCapacity(pruned, maxRecords);
      assert pruned == pruned[..|pruned| - |kept|] + kept;
      FilterConcat(pruned[..|pruned| - |kept|], kept, Newer(r));
      FilterConcat(kept, [answer.stored], Newer(r));
      FilterShrinks([answer.stored], Newer(r));
    }
  }

  lemma StepHolds(log: Log, op: Op, maxRecords: nat, r: Record)
    requires ValidLog(log) && maxRecords > 0 && r in log.records && r.draft.expiresAt.ms > op.now
    requires Apply(log, op, maxRecords).1.Inserted? ==> |Filter(log.records, Newer(r))| < maxRecords - 1
    ensures r in Apply(log, op, maxRecords).0.records
  {
    if Apply(log, op, maxRecords).1.Inserted? {
      PutKeepsIff(log, op.draft, op.now, maxRecords, r);
      FilterFewer(log.records, NewerUnexpired(r, op.now), Newer(r));
    } else {
      FilterMember(log.records, Unexpired(op.now), r);
    }
  }

  /**
   * Over any run a record that has not expired at any of its operations stays held as long as fewer
   * records than the capacity come after it; so it goes only by expiry or by that many insertions.
   */
  lemma {:induction false} StaysHeld(log: Log, ops: seq<Op>, maxRecords: nat, r: Record)
    requires ValidLog(log) && maxRecords > 0 && r in log.records
    requires forall op :: op in ops ==> op.now < r.draft.expiresAt.ms
    requires |Filter(log.records, Newer(r))| + |InsertedBy(log, ops, maxRecords)| < maxRecords
    ensures r in Run(log, ops, maxRecords).0.records && ValidLog(Run(log, ops, maxRecords).0)
    decreases |ops|
  {
    if ops != [] {
      assert ops[0] in ops;
      StepHolds(log, ops[0], maxRecords, r);
      NewerGrowsByInsertion(log, ops[0], maxRecords, r);
      ApplyKeepsOrder(log, ops[0], maxRecords);
      StaysHeld(Apply(log, ops[0], maxRecords).0, ops[1..], maxRecords, r);
    }
  }

  lemma HeldIsFound(log: Log, r: Record, now: int, maxRecords: nat, d: Draft)
    requires ValidLog(log) && maxRecords > 0 && r in log.records && now < r.draft.expiresAt.ms
    requires d.key == r.draft.key
    ensures Apply(log, Op.Get(r.draft.key, now), maxRecords).1 == Found(Some(r))
    ensures Apply(log, Op.PutIfAbsent(d, now), maxRecords).1 == Existing(r)
  {
    PrunedIsValid(log, now);
    FilterMember(log.records, Unexpired(now), r);
    var pruned := Prune(log.records, now);
    var i :| 0 <= i < |pruned| && pruned[i] == r;
    var found := FindKey(pruned, r.draft.key);
    assert found.Some?;
    var j :| 0 <= j < |pruned| && pruned[j] == found.value;
    assert i == j;
  }

  lemma JustInsertedIsLast(log: Log, d: Draft, now: int, maxRecords: nat)
    requires ValidLog(log) && maxRecords > 0
    requires Apply(log, Op.PutIfAbsent(d, now), maxRecords).1.Inserted?
    ensures var (next, answer) := Apply(log, Op.PutIfAbsent(d, now), maxRecords);
      && ValidLog(next) && answer.stored in next.records && answer.stored.draft == d
      && Filter(next.records, Newer(answer.stored)) == []
  {
    var (next, answer) := Apply(log, Op.PutIfAbsent(d, now), maxRecords);
    ApplyKeepsOrder(log, Op.PutIfAbsent(d, now), maxRecords);
    assert next.records[|next.records| - 1] == answer.stored;
    NewerIsRest(next.records, |next.records| - 1);
  }

  /**
   * A record that was put is found again, and its key not taken again, until it expires or as many
   * records as the capacity have been put after it.
   */
  lemma PutIsFound(log: Log, d: Draft, now: int, ops: seq<Op>, later: int, again: Draft, maxRecords: nat)
    requires ValidLog(log) && maxRecords > 0
    requires Apply(log, Op.PutIfAbsent(d, now), maxRecords).1.Inserted?
    requires forall op :: op in ops ==> op.now < d.expiresAt.ms
    requires |InsertedBy(Apply(log, Op.PutIfAbsent(d, now), maxRecords).0, ops, maxRecords)| < maxRecords
    requires later < d.expiresAt.ms && again.key == d.key
    ensures var (next, answer) := Apply(log, Op.PutIfAbsent(d, now), maxRecords);
      var end := Run(next, ops, maxRecords).0;
      && Apply(end, Op.Get(d.key, later), maxRecords).1 == Found(Some(answer.stored))
      && Apply(end, Op.PutIfAbsent(again, later), maxRecords).1 == Existing(answer.stored)
  {
    JustInsertedIsLast(log, d, now, maxRecords);
    var (next, answer) := Apply(log, Op.PutIfAbsent(d, now), maxRecords);
    StaysHeld(next, ops, maxRecords, answer.stored);
    HeldIsFound(Run(next, ops, maxRecords).0, answer.stored, later, maxRecords, again);
  }

  // ---- exactly the newest

  /** The last n of a sequence, or all of it. */
  function Newest(rs: seq<Record>, n: nat): seq<Record> {
    if |rs| <= n then rs else rs[|rs| - n..]
  }

  /** Records expire in the order in which they were inserted. */
  ghost predicate ExpireInOrder(rs: seq<Record>) {
    forall i, j :: 0 <= i < j < |rs| ==> rs[i].draft.expiresAt.ms <= rs[j].draft.expiresAt.ms
  }

  /** From the given time on the log shows the newest unexpired of all records ever inserted. */
  ghost predicate ShowsNewest(log: Log, all: seq<Record>, clock: int, maxRecords: nat) {
    forall t :: clock <= t ==> Prune(log.records, t) == Newest(Prune(all, t), maxRecords)
  }

  /** What has not expired of records expiring in order is a suffix of them. */
  lemma {:induction false} UnexpiredIsSuffix(rs: seq<Record>, t: int) returns (k: nat)
    requires ExpireInOrder(rs)
    ensures k <= |rs| && Prune(rs, t) == rs[k..]
    ensures forall i :: 0 <= i < |rs| ==> (rs[i].draft.expiresAt.ms > t <==> i >= k)
  {
    k := 0;
    if rs != [] {
      if rs[0].draft.expiresAt.ms > t {
        FilterAll(rs, Unexpired(t));
      } else {
        k := UnexpiredIsSuffix(rs[1..], t);
        assert rs[1..][k..] == rs[k + 1..];
        assert forall i :: 0 < i < |rs| ==> rs[1..][i - 1] == rs[i];
        k := k + 1;
      }
    }
  }

  predicate Lives(rs: seq<Record>, i: nat, t: int)
    requires i < |rs|
  {
    rs[i].draft.expiresAt.ms > t
  }

  /** Two bounds that tell the unexpired from position m on tell the same. */
  lemma SameBound(rs: seq<Record>, m: nat, k: nat, a: nat, t: int)
    requires m <= a <= |rs| && k <= |rs|
    requires forall i :: m <= i < |rs| ==> (Lives(rs, i, t) <==> i >= k) && (Lives(rs, i, t) <==> i >= a)
    ensures a == if k < m then m else k
  {
    assert a < |rs| ==> Lives(rs, a, t);
    assert m <= k < |rs| ==> Lives(rs, k, t);
    assert k < m < |rs| ==> Lives(rs, m, t);
  }

  /** Pruning commutes with taking the newest. */
  lemma PruneNewest(rs: seq<Record>, n: nat, t: int)
    requires ExpireInOrder(rs)
    ensures Prune(Newest(rs, n), t) == Newest(Prune(rs, t), n)
  {
    var k := UnexpiredIsSuffix(rs, t);
    if |rs| > n {
      var m := |rs| - n;
      var l := UnexpiredIsSuffix(rs[m..], t);
      assert rs[m..][l..] == rs[m + l..];
      assert forall i :: m <= i < |rs| ==> rs[m..][i - m] == rs[i];
      assert forall i :: m <= i < |rs| ==> (Lives(rs, i, t) <==> i >= m + l);
      SameBound(rs, m, k, m + l, t);
    }
  }

  lemma NewestAppend(rs: seq<Record>, r: Record, n: nat)
    requires n > 0
    ensures Newest(rs, n - 1) + [r] == Newest(rs + [r], n)
  {
  }

  lemma EvictNewest(rs: seq<Record>, n: nat)
    requires n > 0
    ensures EvictToCapacity(Newest(rs, n), n) == Newest(rs, n - 1)
  {
  }

  lemma ExpireInOrderPrefix(rs: seq<Record>, r: Record)
    requires ExpireInOrder(rs + [r])
    ensures ExpireInOrder(rs)
    ensures forall x :: x in rs ==> x.draft.expiresAt.ms <= r.draft.expiresAt.ms
  {
    assert forall i :: 0 <= i < |rs| ==> (rs + [r])[i] == rs[i];
    assert (rs + [r])[|rs|] == r;
  }

  lemma PrunedInOrder(rs: seq<Record>, t: int)
    requires ExpireInOrder(rs)
    ensures ExpireInOrder(Prune(rs, t))
  {
    var k := UnexpiredIsSuffix(rs, t);
  }

  lemma InsertShowsNewest(pruned: seq<Record>, all: seq<Record>, r: Record, now: int, t: int, maxRecords: nat)
    requires maxRecords > 0 && now <= t && ExpireInOrder(all + [r])
    requires pruned == Newest(Prune(all, now), maxRecords)
    ensures Prune(EvictToCapacity(pruned, maxRecords) + [r], t) == Newest(Prune(all + [r], t), maxRecords)
  {
    ExpireInOrderPrefix(all, r);
    PrunedInOrder(all, now);
    EvictNewest(Prune(all, now), maxRecords);
    PruneNewest(Prune(all, now), maxRecords - 1, t);
    PruneTwice(all, now, t);
    FilterConcat(EvictToCapacity(pruned, maxRecords), [r], Unexpired(t));
    FilterConcat(all, [r], Unexpired(t));
    if r.draft.expiresAt.ms > t {
      assert Prune([r], t) == [r];
      NewestAppend(Prune(all, t), r, maxRecords);
    } else {
      FilterNone(all, Unexpired(t));
      assert Prune([r], t) == [];
    }
  }

  lemma StepShowsNewest(log: Log, all: seq<Record>, op: Op, clock: int, maxRecords: nat)
    requires maxRecords > 0 && clock <= op.now && ShowsNewest(log, all, clock, maxRecords)
    requires var answer := Apply(log, op, maxRecords).1; answer.Inserted? ==> ExpireInOrder(all + [answer.stored])
    ensures var (next, answer) := Apply(log, op, maxRecords);
      ShowsNewest(next, if answer.Inserted? then all + [answer.stored] else all, op.now, maxRecords)
  {
    var (next, answer) := Apply(log, op, maxRecords);
    forall t | op.now <= t
      ensures Prune(next.records, t) ==
        Newest(Prune(if answer.Inserted? then all + [answer.stored] else all, t), maxRecords)
    {
      if answer.Inserted? {
        InsertShowsNewest(Prune(log.records, op.now), all, answer.stored, op.now, t, maxRecords);
      } else {
        PruneTwice(log.records, op.now, t);
      }
    }
  }

  lemma {:induction false} RunShowsNewest(log: Log, all: seq<Record>, ops: seq<Op>, clock: int, maxRecords: nat)
    requires maxRecords > 0 && ClockNonDecreasing(ops, clock) && ShowsNewest(log, all, clock, maxRecords)
    requires ExpireInOrder(all + InsertedBy(log, ops, maxRecords))
    ensures ShowsNewest(Run(log, ops, maxRecords).0, all + InsertedBy(log, ops, maxRecords),
                        if ops == [] then clock else ops[|ops| - 1].now, maxRecords)
    decreases |ops|
  {
    if ops == [] {
      assert all + [] == all;
    } else {
      var (next, answer) := Apply(log, ops[0], maxRecords);
      var more := InsertedBy(next, ops[1..], maxRecords);
      var all' := if answer.Inserted? then all + [answer.stored] else all;
      assert all + InsertedBy(log, ops, maxRecords) == all' + more;
      assert ExpireInOrder(all') by {
        assert forall i :: 0 <= i < |all'| ==> (all' + more)[i] == all'[i];
      }
      StepShowsNewest(log, all, ops[0], clock, maxRecords);
      RunShowsNewest(next, all', ops[1..], ops[0].now, maxRecords);
    }
  }

  /**
   * What is held is exactly the newest: with a clock that never goes back and records that expire in
   * the order of their insertion, as under one time to live, a log started empty shows at any later
   * time the newest unexpired of all records ever inserted, as many as the capacity.
   */
  lemma HeldIsNewest(ops: seq<Op>, initialSequence: nat, maxRecords: nat, t: int)
    requires maxRecords > 0 && ops != [] && ClockNonDecreasing(ops, ops[0].now) && ops[|ops| - 1].now <= t
    requires ExpireInOrder(InsertedBy(Log([], initialSequence), ops, maxRecords))
    ensures Prune(Run(Log([], initialSequence), ops, maxRecords).0.records, t) ==
      Newest(Prune(InsertedBy(Log([], initialSequence), ops, maxRecords), t), maxRecords)
  {
    var log := Log([], initialSequence);
    assert [] + InsertedBy(log, ops, maxRecords) == InsertedBy(log, ops, maxRecords);
    RunShowsNewest(log, [], ops, ops[0].now, maxRecords);
  }
}
