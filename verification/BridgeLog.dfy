/**
 * The log that every bridge store implements: idempotent, bounded, pruned by time to live, and
 * numbered by a strictly increasing sequence.
 */
module BridgeLog {
  import opened Wrappers

  const MAX_SAFE_INTEGER: nat := 0x1F_FFFF_FFFF_FFFF

  /** A timestamp as written, with the epoch milliseconds it parses to. */
  datatype Timestamp = Timestamp(ms: int, text: string)

  /** A delivery to be stored. Rows written before events were kept have hasEvent false. */
  datatype Draft = Draft(key: string, target: string, eventId: string, expiresAt: Timestamp, hasEvent: bool)
  datatype Record = Record(draft: Draft, sequence: nat)
  datatype Log = Log(records: seq<Record>, latest: nat)

  function Max(a: int, b: int): int { if a < b then b else a }
  function Min(a: int, b: int): int { if a < b then a else b }

  /** At least one above the current sequence, and at least the clock in microseconds while that is safe. */
  function NextSequence(current: nat, now: int): nat {
    Max(current + 1, Min(now * 1000, MAX_SAFE_INTEGER - 1))
  }

  // ---- filtering

  function Filter(rs: seq<Record>, p: Record -> bool): seq<Record> {
    if rs == [] then []
    else if p(rs[0]) then [rs[0]] + Filter(rs[1..], p)
    else Filter(rs[1..], p)
  }

  lemma {:induction false} FilterConcat(a: seq<Record>, b: seq<Record>, p: Record -> bool)
    ensures Filter(a + b, p) == Filter(a, p) + Filter(b, p)
  {
    if a == [] {
      assert a + b == b;
    } else {
      assert (a + b)[1..] == a[1..] + b;
      FilterConcat(a[1..], b, p);
    }
  }

  lemma {:induction false} FilterMember(rs: seq<Record>, p: Record -> bool, r: Record)
    ensures r in Filter(rs, p) <==> r in rs && p(r)
  {
    if rs != [] {
      FilterMember(rs[1..], p, r);
      assert rs == [rs[0]] + rs[1..];
    }
  }

  lemma {:induction false} FilterIncreasing(rs: seq<Record>, p: Record -> bool)
    requires Increasing(rs)
    ensures Increasing(Filter(rs, p))
  {
    if rs != [] {
      FilterIncreasing(rs[1..], p);
      forall r | r in Filter(rs[1..], p) ensures rs[0].sequence < r.sequence {
        FilterMember(rs[1..], p, r);
      }
    }
  }

  lemma {:induction false} FilterKeys(rs: seq<Record>, p: Record -> bool)
    requires DistinctKeys(rs)
    ensures DistinctKeys(Filter(rs, p))
  {
    if rs != [] {
      FilterKeys(rs[1..], p);
      forall r | r in Filter(rs[1..], p) ensures rs[0].draft.key != r.draft.key {
        FilterMember(rs[1..], p, r);
      }
    }
  }

  /** Filtering by a stronger condition may start from what a weaker one keeps. */
  lemma {:induction false} FilterImplied(rs: seq<Record>, p: Record -> bool, q: Record -> bool)
    requires forall r :: q(r) ==> p(r)
    ensures Filter(rs, q) == Filter(Filter(rs, p), q)
  {
    if rs != [] {
      FilterImplied(rs[1..], p, q);
    }
  }

  lemma {:induction false} FilterSame(rs: seq<Record>, p: Record -> bool, q: Record -> bool)
    requires forall r :: r in rs ==> (p(r) <==> q(r))
    ensures Filter(rs, p) == Filter(rs, q)
  {
    if rs != [] {
      FilterSame(rs[1..], p, q);
    }
  }

  function Unexpired(now: int): Record -> bool {
    (r: Record) => r.draft.expiresAt.ms > now
  }

  function Prune(rs: seq<Record>, now: int): seq<Record> {
    Filter(rs, Unexpired(now))
  }

  /** Pruning at a later time subsumes pruning at an earlier one. */
  lemma {:induction false} PruneTwice(rs: seq<Record>, earlier: int, now: int)
    requires earlier <= now
    ensures Prune(Prune(rs, earlier), now) == Prune(rs, now)
  {
    if rs != [] {
      PruneTwice(rs[1..], earlier, now);
    }
  }

  // ---- the log's invariant

  ghost predicate Increasing(rs: seq<Record>) {
    forall i, j :: 0 <= i < j < |rs| ==> rs[i].sequence < rs[j].sequence
  }

  ghost predicate DistinctKeys(rs: seq<Record>) {
    forall i, j :: 0 <= i < j < |rs| ==> rs[i].draft.key != rs[j].draft.key
  }

  ghost predicate ValidLog(log: Log) {
    && Increasing(log.records)
    && DistinctKeys(log.records)
    && (forall r :: r in log.records ==> r.sequence <= log.latest)
  }

  // ---- operations

  function FindKey(rs: seq<Record>, key: string): (found: Option<Record>)
    ensures found.None? <==> forall r :: r in rs ==> r.draft.key != key
    ensures found.Some? ==> found.value in rs && found.value.draft.key == key
  {
    if rs == [] then None
    else if rs[0].draft.key == key then Some(rs[0])
    else FindKey(rs[1..], key)
  }

  /** The newest records, as many as leave room for one more. */
  function EvictToCapacity(rs: seq<Record>, maxRecords: nat): seq<Record>
    requires maxRecords > 0
  {
    if |rs| < maxRecords then rs else rs[|rs| - (maxRecords - 1)..]
  }

  function PruneLog(log: Log, now: int): Log {
    Log(Prune(log.records, now), log.latest)
  }

  function InsertLog(log: Log, d: Draft, now: int, maxRecords: nat): (Log, Record)
    requires maxRecords > 0
  {
    var r := Record(d, NextSequence(log.latest, now));
    (Log(EvictToCapacity(log.records, maxRecords) + [r], r.sequence), r)
  }

  predicate Selects(target: string, after: int, r: Record) {
    r.draft.target == target && r.sequence > after && r.draft.hasEvent
  }

  function Selection(target: string, after: int): Record -> bool {
    (r: Record) => Selects(target, after, r)
  }

  function Take(rs: seq<Record>, limit: nat): seq<Record> {
    if |rs| <= limit then rs else rs[..limit]
  }

  function ListAfter(rs: seq<Record>, target: string, after: int, limit: nat): seq<Record> {
    Take(Filter(rs, Selection(target, after)), limit)
  }

  datatype Op =
    | Get(key: string, now: int)
    | PutIfAbsent(draft: Draft, now: int)
    | List(target: string, after: nat, limit: nat, now: int)
    | PruneExpired(now: int)

  datatype Answer =
    | Found(record: Option<Record>)
    | Existing(prior: Record)
    | Inserted(stored: Record)
    | Listed(records: seq<Record>)
    | Done
    | Failed

  /** An operation on a log that has just been pruned. */
  function Act(pruned: Log, op: Op, maxRecords: nat): (Log, Answer)
    requires maxRecords > 0
  {
    match op
    case Get(key, _) => (pruned, Found(FindKey(pruned.records, key)))
    case PutIfAbsent(d, now) =>
      var existing := FindKey(pruned.records, d.key);
      if existing.Some? then (pruned, Existing(existing.value))
      else
        var (after, r) := InsertLog(pruned, d, now, maxRecords);
        (after, Inserted(r))
    case List(target, after, limit, _) => (pruned, Listed(ListAfter(pruned.records, target, after, limit)))
    case PruneExpired(_) => (pruned, Done)
  }

  /** Every operation prunes first. */
  function Apply(log: Log, op: Op, maxRecords: nat): (Log, Answer)
    requires maxRecords > 0
  {
    Act(PruneLog(log, op.now), op, maxRecords)
  }

  /** Every operation keeps sequence order, unique keys and the sequence bound, and never goes back. */
  lemma ApplyKeepsOrder(log: Log, op: Op, maxRecords: nat)
    requires ValidLog(log) && maxRecords > 0
    ensures ValidLog(Apply(log, op, maxRecords).0)
    ensures Apply(log, op, maxRecords).0.latest >= log.latest
    ensures |log.records| <= maxRecords ==> |Apply(log, op, maxRecords).0.records| <= maxRecords
    ensures Apply(log, op, maxRecords).1.Inserted? ==>
      Apply(log, op, maxRecords).1.stored.sequence > log.latest
  {
    var pruned := PruneLog(log, op.now);
    PrunedIsValid(log, op.now);
    if op.PutIfAbsent? && FindKey(pruned.records, op.draft.key).None? {
      InsertKeepsOrder(pruned, op.draft, op.now, maxRecords);
    }
  }

  lemma InsertKeepsOrder(log: Log, d: Draft, now: int, maxRecords: nat)
    requires ValidLog(log) && maxRecords > 0 && forall r :: r in log.records ==> r.draft.key != d.key
    ensures var (next, r) := InsertLog(log, d, now, maxRecords);
      ValidLog(next) && next.latest == r.sequence > log.latest && |next.records| <= maxRecords
  {
  }

  lemma FilteredIsValid(log: Log, p: Record -> bool)
    requires ValidLog(log)
    ensures ValidLog(Log(Filter(log.records, p), log.latest))
    ensures |Filter(log.records, p)| <= |log.records|
  {
    FilterIncreasing(log.records, p);
    FilterKeys(log.records, p);
    FilterShrinks(log.records, p);
    forall r | r in Filter(log.records, p) ensures r.sequence <= log.latest {
      FilterMember(log.records, p, r);
    }
  }

  lemma PrunedIsValid(log: Log, now: int)
    requires ValidLog(log)
    ensures ValidLog(PruneLog(log, now))
    ensures |PruneLog(log, now).records| <= |log.records|
  {
    FilteredIsValid(log, Unexpired(now));
  }

  lemma FilterShrinks(rs: seq<Record>, p: Record -> bool)
    ensures |Filter(rs, p)| <= |rs|
  {
  }

  /** The scan both insertion-ordered stores make: first matches in record order, up to the limit. */
  method ScanAfter(rs: seq<Record>, target: string, after: nat, limit: nat) returns (records: seq<Record>)
    requires limit > 0
    ensures records == ListAfter(rs, target, after, limit)
  {
    ghost var p := Selection(target, after);
    records := [];
    var i := 0;
    while i < |rs|
      invariant 0 <= i <= |rs|
      invariant records == Filter(rs[..i], p) && |records| < limit
    {
      assert rs[..i + 1] == rs[..i] + [rs[i]];
      FilterConcat(rs[..i], [rs[i]], p);
      var record := rs[i];
      if !(record.draft.target != target || record.sequence <= after || !record.draft.hasEvent) {
        records := records + [record];
        if |records| >= limit {
          assert rs == rs[..i + 1] + rs[i + 1..];
          FilterConcat(rs[..i + 1], rs[i + 1..], p);
          return;
        }
      }
      i := i + 1;
    }
    assert rs[..i] == rs;
  }

  // ---- runs

  function Run(log: Log, ops: seq<Op>, maxRecords: nat): (Log, seq<Answer>)
    requires maxRecords > 0
    decreases |ops|
  {
    if ops == [] then (log, [])
    else
      var (next, answer) := Apply(log, ops[0], maxRecords);
      var (last, answers) := Run(next, ops[1..], maxRecords);
      (last, [answer] + answers)
  }

  /** No operation of the run is handed a sequence counter that has left the safe range. */
  ghost predicate SafeRun(log: Log, ops: seq<Op>, maxRecords: nat)
    requires maxRecords > 0
    decreases |ops|
  {
    ops != [] ==>
      && (ops[0].PutIfAbsent? ==> log.latest < MAX_SAFE_INTEGER)
      && SafeRun(Apply(log, ops[0], maxRecords).0, ops[1..], maxRecords)
  }

  ghost predicate ClockNonDecreasing(ops: seq<Op>, from: int) {
    ops != [] ==> from <= ops[0].now && ClockNonDecreasing(ops[1..], ops[0].now)
  }

  // ---- paging

  /** What a reader collects by asking again from the last sequence it saw until a page is empty. */
  function ReadAllPages(rs: seq<Record>, target: string, after: nat, limit: nat): seq<Record>
    requires Increasing(rs) && limit > 0
    decreases |Filter(rs, Selection(target, after))|
  {
    var page := ListAfter(rs, target, after, limit);
    if page == [] then []
    else
      AfterPage(rs, target, after, limit);
      page + ReadAllPages(rs, target, page[|page| - 1].sequence, limit)
  }

  /** The records after a page's last sequence are the ones the page left out. */
  lemma AfterPage(rs: seq<Record>, target: string, after: nat, limit: nat)
    requires Increasing(rs) && limit > 0
    requires ListAfter(rs, target, after, limit) != []
    ensures var all := Filter(rs, Selection(target, after));
      var page := ListAfter(rs, target, after, limit);
      Filter(rs, Selection(target, page[|page| - 1].sequence)) == all[|page|..]
  {
    var all := Filter(rs, Selection(target, after));
    var page := ListAfter(rs, target, after, limit);
    FilterIncreasing(rs, Selection(target, after));
    FilterMember(rs, Selection(target, after), page[|page| - 1]);
    FilterImplied(rs, Selection(target, after), Selection(target, page[|page| - 1].sequence));
    forall r | r in all ensures Selects(target, after, r) {
      FilterMember(rs, Selection(target, after), r);
    }
    FilterSuffix(all, target, after, |page| - 1);
  }

  lemma FilterSuffix(all: seq<Record>, target: string, after: int, k: nat)
    requires Increasing(all) && k < |all|
    requires forall r :: r in all ==> Selects(target, after, r)
    ensures Filter(all, Selection(target, all[k].sequence)) == all[k + 1..]
  {
    var p := Selection(target, all[k].sequence);
    assert all == all[..k + 1] + all[k + 1..];
    FilterConcat(all[..k + 1], all[k + 1..], p);
    FilterNone(all[..k + 1], p);
    forall r | r in all[k + 1..] ensures p(r) {
      assert r in all;
    }
    FilterAll(all[k + 1..], p);
  }

  lemma FilterNone(rs: seq<Record>, p: Record -> bool)
    requires forall r :: r in rs ==> !p(r)
    ensures Filter(rs, p) == []
  {
  }

  lemma FilterAll(rs: seq<Record>, p: Record -> bool)
    requires forall r :: r in rs ==> p(r)
    ensures Filter(rs, p) == rs
  {
  }

  /** Paging by last cursor yields every retained record after the cursor once, in order. */
  lemma {:induction false} PagesCoverSelection(rs: seq<Record>, target: string, after: nat, limit: nat)
    requires Increasing(rs) && limit > 0
    ensures ReadAllPages(rs, target, after, limit) == Filter(rs, Selection(target, after))
    decreases |Filter(rs, Selection(target, after))|
  {
    var page := ListAfter(rs, target, after, limit);
    if page != [] {
      AfterPage(rs, target, after, limit);
      PagesCoverSelection(rs, target, page[|page| - 1].sequence, limit);
    }
  }
}
