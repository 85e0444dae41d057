/** The three bridge stores and the proof that a client cannot tell them apart. */
module MemoryBridgeStore {
  import opened Wrappers
  import opened BridgeLog

  /** Records keyed by idempotency key, in the insertion order in which the map iterates. */
  class InMemoryBridgeStore {
    const maxRecords: nat
    var entries: seq<Record>
    var sequence: nat

    constructor (maxRecords: nat, initialSequence: nat)
      requires maxRecords > 0
      ensures Valid() && this.maxRecords == maxRecords && Contents() == Log([], initialSequence)
    {
      this.maxRecords, entries, sequence := maxRecords, [], initialSequence;
    }

    ghost predicate Valid()
      reads this
    {
      maxRecords > 0 && DistinctKeys(entries)
    }

    ghost function Contents(): Log
      reads this
    {
      Log(entries, sequence)
    }

    /** Deletes expired entries while iterating over the map. */
    method EvictExpired(now: int)
      requires Valid()
      modifies this`entries
      ensures Valid() && Contents() == PruneLog(old(Contents()), now)
    {
      ghost var all := entries;
      var i := 0;
      ghost var seen := 0;
      while i < |entries|
        invariant 0 <= i <= |entries| && 0 <= seen <= |all|
        invariant entries[..i] == Prune(all[..seen], now)
        invariant entries[i..] == all[seen..]
        decreases |entries| - i
      {
        assert entries[i] == entries[i..][0] == all[seen];
        assert all[..seen + 1] == all[..seen] + [all[seen]];
        FilterConcat(all[..seen], [all[seen]], Unexpired(now));
        assert entries[i + 1..] == entries[i..][1..] == all[seen + 1..];
        if entries[i].draft.expiresAt.ms > now {
          assert entries[..i + 1] == entries[..i] + [entries[i]];
          i := i + 1;
        } else {
          entries := entries[..i] + entries[i + 1..];
        }
        seen := seen + 1;
      }
      assert entries == entries[..i] && all == all[..seen];
      FilterKeys(all, Unexpired(now));
    }

    /** Deletes the oldest entry until there is room for one more. */
    method EvictToCapacity()
      requires Valid()
      modifies this`entries
      ensures Valid() && entries == BridgeLog.EvictToCapacity(old(entries), maxRecords)
    {
      ghost var dropped := 0;
      while |entries| >= maxRecords
        invariant Valid()
        invariant 0 <= dropped <= |old(entries)| && entries == old(entries)[dropped..]
        invariant dropped > 0 ==> |entries| >= maxRecords - 1
        decreases |entries|
      {
        entries := entries[1..];
        dropped := dropped + 1;
      }
    }

    method Get(key: string, now: int) returns (found: Option<Record>)
      requires Valid()
      modifies this
      ensures Valid() && (Contents(), Found(found)) == Apply(old(Contents()), Op.Get(key, now), maxRecords)
    {
      EvictExpired(now);
      found := FindKey(entries, key);
    }

    /** Beyond the safe integers the counter no longer counts by one, so it must still be below them. */
    method PutIfAbsent(d: Draft, now: int) returns (answer: Answer)
      requires Valid() && sequence < MAX_SAFE_INTEGER
      modifies this
      ensures Valid() && (Contents(), answer) == Apply(old(Contents()), Op.PutIfAbsent(d, now), maxRecords)
    {
      EvictExpired(now);
      var existing := FindKey(entries, d.key);
      if existing.Some? {
        return Existing(existing.value);
      }
      EvictToCapacity();
      sequence := NextSequence(sequence, now);
      var stored := Record(d, sequence);
      entries := entries + [stored];
      return Inserted(stored);
    }

    method ListAfter(target: string, after: nat, limit: nat, now: int) returns (records: seq<Record>)
      requires Valid() && limit > 0
      modifies this
      ensures Valid()
      ensures (Contents(), Listed(records)) == Apply(old(Contents()), Op.List(target, after, limit, now), maxRecords)
    {
      EvictExpired(now);
      records := ScanAfter(entries, target, after, limit);
    }

    method Serve(op: Op) returns (answer: Answer)
      requires Valid() && (op.PutIfAbsent? ==> sequence < MAX_SAFE_INTEGER) && (op.List? ==> op.limit > 0)
      modifies this
      ensures Valid() && (Contents(), answer) == Apply(old(Contents()), op, maxRecords)
    {
      match op
      case Get(key, now) => var found := Get(key, now); answer := Found(found);
      case PutIfAbsent(d, now) => answer := PutIfAbsent(d, now);
      case List(target, after, limit, now) => var rs := ListAfter(target, after, limit, now); answer := Listed(rs);
      case PruneExpired(now) => EvictExpired(now); answer := Done;
    }
  }
}

module JsonBridgeStore {
  import opened Wrappers
  import opened BridgeLog

  datatype State = State(latestSequence: nat, records: seq<Record>)

  /** The file on disk; Corrupt is one that does not parse or validate. */
  datatype File = Absent | Corrupt | Stored(state: State)

  /** The file and the copy in memory; reads prune only the copy. */
  datatype Disk = Disk(file: File, cache: Option<State>)

  function MaxSequence(rs: seq<Record>): nat {
    if rs == [] then 0 else Max(rs[0].sequence, MaxSequence(rs[1..]))
  }

  /** A state read from the file never counts below the configured start or its own records. */
  function Validated(s: State, initialSequence: nat): State {
    State(Max(initialSequence, Max(s.latestSequence, MaxSequence(s.records))), s.records)
  }

  /** None where reading the file throws. */
  function Fresh(disk: Disk, initialSequence: nat): (Disk, Option<State>) {
    match disk.file
    case Corrupt => (disk, None)
    case Stored(s) =>
      var v := Validated(s, initialSequence);
      (disk.(cache := Some(v)), Some(v))
    case Absent =>
      var v := State(initialSequence, []);
      (Disk(Stored(v), Some(v)), Some(v))
  }

  function Cached(disk: Disk, initialSequence: nat): (Disk, Option<State>) {
    match disk.cache
    case Some(s) => (disk, Some(s))
    case None => Fresh(disk, initialSequence)
  }

  lemma {:induction false} MaxSequenceIs(rs: seq<Record>)
    ensures forall r :: r in rs ==> r.sequence <= MaxSequence(rs)
    ensures MaxSequence(rs) == 0 || exists r :: r in rs && r.sequence == MaxSequence(rs)
  {
    if rs != [] {
      MaxSequenceIs(rs[1..]);
      assert rs == [rs[0]] + rs[1..];
      if MaxSequence(rs) != rs[0].sequence && MaxSequence(rs) != 0 {
        var r :| r in rs[1..] && r.sequence == MaxSequence(rs[1..]);
        assert r in rs;
      }
    }
  }

  /** The counter read back is the least that is behind neither the configured start, nor the file, nor its records. */
  lemma ValidatedIsLeast(s: State, initialSequence: nat)
    ensures var v := Validated(s, initialSequence);
      && v.records == s.records
      && v.latestSequence >= initialSequence && v.latestSequence >= s.latestSequence
      && (forall r :: r in s.records ==> v.latestSequence >= r.sequence)
      && (|| v.latestSequence == initialSequence || v.latestSequence == s.latestSequence
          || exists r :: r in s.records && r.sequence == v.latestSequence)
  {
    MaxSequenceIs(s.records);
  }

  function PruneState(s: State, now: int): State {
    s.(records := Prune(s.records, now))
  }

  function StateLog(s: State): Log { Log(s.records, s.latestSequence) }

  /** Insertions and prunings go back to the file; reads are content with the copy. */
  function Load(disk: Disk, op: Op, initialSequence: nat): (Disk, Option<State>) {
    if op.PutIfAbsent? || op.PruneExpired? then Fresh(disk, initialSequence) else Cached(disk, initialSequence)
  }

  /** One operation on a loaded state, cache and file apart. */
  function DiskAct(d: Disk, s: State, op: Op, maxRecords: nat): (Disk, Answer)
    requires maxRecords > 0
  {
    var p := PruneState(s, op.now);
    match op
    case Get(key, _) => (d.(cache := Some(p)), Found(FindKey(p.records, key)))
    case List(target, after, limit, _) =>
      (d.(cache := Some(p)), Listed(ListAfter(p.records, target, after, limit)))
    case PutIfAbsent(draft, now) =>
      var existing := FindKey(p.records, draft.key);
      if existing.Some? then (Disk(Stored(p), Some(p)), Existing(existing.value))
      else
        var (log, r) := InsertLog(StateLog(p), draft, now, maxRecords);
        var q := State(log.latest, log.records);
        (Disk(Stored(q), Some(q)), Inserted(r))
    case PruneExpired(_) =>
      (Disk(if |p.records| != |s.records| then Stored(p) else d.file, Some(p)), Done)
  }

  function DiskApply(disk: Disk, op: Op, initialSequence: nat, maxRecords: nat): (Disk, Answer)
    requires maxRecords > 0
  {
    match Load(disk, op, initialSequence)
    case (d, None) => (d, Failed)
    case (d, Some(s)) => DiskAct(d, s, op, maxRecords)
  }

  class JsonFileBridgeStore {
    const maxRecords: nat
    const initialSequence: nat
    var file: File
    var cache: Option<State>

    constructor (maxRecords: nat, initialSequence: nat, file: File)
      requires maxRecords > 0
      ensures this.maxRecords == maxRecords && this.initialSequence == initialSequence
      ensures Contents() == Disk(file, None)
    {
      this.maxRecords, this.initialSequence := maxRecords, initialSequence;
      this.file, cache := file, None;
    }

    ghost function Contents(): Disk
      reads this
    {
      Disk(file, cache)
    }

    method PersistState(s: State)
      modifies this`file, this`cache
      ensures file == Stored(s) && cache == Some(s)
    {
      cache := Some(s);
      file := Stored(s);
    }

    method LoadFreshState() returns (s: Option<State>)
      modifies this`file, this`cache
      ensures (Contents(), s) == Fresh(old(Contents()), initialSequence)
    {
      match file
      case Corrupt => s := None;
      case Stored(raw) =>
        s := Some(Validated(raw, initialSequence));
        cache := s;
      case Absent =>
        s := Some(State(initialSequence, []));
        PersistState(s.value);
    }

    method LoadCachedState() returns (s: Option<State>)
      modifies this`file, this`cache
      ensures (Contents(), s) == Cached(old(Contents()), initialSequence)
    {
      if cache.Some? {
        return cache;
      }
      s := LoadFreshState();
    }

    method PruneCachedStateOnly(s: State, now: int) returns (p: State)
      requires cache == Some(s)
      modifies this`cache
      ensures p == PruneState(s, now) && cache == Some(p)
    {
      p := PruneState(s, now);
      PruneIdentity(s.records, now);
      if |p.records| != |s.records| {
        cache := Some(p);
      }
    }

    method Get(key: string, now: int) returns (answer: Answer)
      requires maxRecords > 0
      modifies this
      ensures (Contents(), answer) == DiskApply(old(Contents()), Op.Get(key, now), initialSequence, maxRecords)
    {
      var loaded := LoadCachedState();
      if loaded.None? {
        return Failed;
      }
      var s := PruneCachedStateOnly(loaded.value, now);
      return Found(FindKey(s.records, key));
    }

    /** The loop that drops the first record while there are too many. */
    method ShiftToCapacity(all: seq<Record>) returns (records: seq<Record>)
      requires maxRecords > 0
      ensures records == EvictToCapacity(all, maxRecords)
    {
      records := all;
      while |records| >= maxRecords
        invariant |records| <= |all| && records == all[|all| - |records|..]
        invariant records != all ==> |records| >= maxRecords - 1
        decreases |records|
      {
        records := records[1..];
      }
    }

    method PutIfAbsent(d: Draft, now: int) returns (answer: Answer)
      requires maxRecords > 0
      modifies this
      ensures (Contents(), answer) ==
        DiskApply(old(Contents()), Op.PutIfAbsent(d, now), initialSequence, maxRecords)
    {
      var loaded := LoadFreshState();
      if loaded.None? {
        return Failed;
      }
      var s := PruneState(loaded.value, now);
      var existing := FindKey(s.records, d.key);
      if existing.Some? {
        PersistState(s);
        return Existing(existing.value);
      }
      var records := ShiftToCapacity(s.records);
      var latest := NextSequence(s.latestSequence, now);
      var stored := Record(d, latest);
      PersistState(State(latest, records + [stored]));
      return Inserted(stored);
    }

    method ListAfter(target: string, after: nat, limit: nat, now: int) returns (answer: Answer)
      requires maxRecords > 0 && limit > 0
      modifies this
      ensures (Contents(), answer) ==
        DiskApply(old(Contents()), Op.List(target, after, limit, now), initialSequence, maxRecords)
    {
      var loaded := LoadCachedState();
      if loaded.None? {
        return Failed;
      }
      var s := PruneCachedStateOnly(loaded.value, now);
      var records := ScanAfter(s.records, target, after, limit);
      return Listed(records);
    }

    method PruneExpired(now: int) returns (answer: Answer)
      requires maxRecords > 0
      modifies this
      ensures (Contents(), answer) == DiskApply(old(Contents()), Op.PruneExpired(now), initialSequence, maxRecords)
    {
      var loaded := LoadFreshState();
      if loaded.None? {
        return Failed;
      }
      var p := PruneState(loaded.value, now);
      PruneIdentity(loaded.value.records, now);
      if |p.records| != |loaded.value.records| {
        PersistState(p);
      } else {
        cache := Some(p);
      }
      return Done;
    }

    method Serve(op: Op) returns (answer: Answer)
      requires maxRecords > 0 && (op.List? ==> op.limit > 0)
      modifies this
      ensures (Contents(), answer) == DiskApply(old(Contents()), op, initialSequence, maxRecords)
    {
      match op
      case Get(key, now) => answer := Get(key, now);
      case PutIfAbsent(d, now) => answer := PutIfAbsent(d, now);
      case List(target, after, limit, now) => answer := ListAfter(target, after, limit, now);
      case PruneExpired(now) => answer := PruneExpired(now);
    }
  }

  lemma PruneIdentity(rs: seq<Record>, now: int)
    ensures |Prune(rs, now)| <= |rs|
    ensures |Prune(rs, now)| == |rs| ==> Prune(rs, now) == rs
  {
    if rs != [] {
      PruneIdentity(rs[1..], now);
      assert rs == [rs[0]] + rs[1..];
    }
  }

  // ---- refinement of the log

  /** A stored state that agrees with the log once both are pruned, as every operation first does. */
  ghost predicate Represents(s: State, log: Log, clock: int) {
    && Prune(s.records, clock) == Prune(log.records, clock)
    && s.latestSequence == log.latest
    && forall r :: r in s.records ==> r.sequence <= log.latest
  }

  ghost predicate Refines(disk: Disk, log: Log, clock: int, initialSequence: nat) {
    && initialSequence <= log.latest
    && !disk.file.Corrupt?
    && (disk.file.Absent? ==> disk.cache.None? && log == Log([], initialSequence))
    && (disk.file.Stored? ==> Represents(disk.file.state, log, clock))
    && (disk.cache.Some? ==> Represents(disk.cache.value, log, clock))
  }

  lemma {:induction false} MaxSequenceBounded(rs: seq<Record>, bound: nat)
    requires forall r :: r in rs ==> r.sequence <= bound
    ensures MaxSequence(rs) <= bound
  {
    if rs != [] {
      MaxSequenceBounded(rs[1..], bound);
    }
  }

  lemma RepresentsLater(s: State, log: Log, clock: int, now: int)
    requires Represents(s, log, clock) && clock <= now
    ensures Represents(s, PruneLog(log, now), now)
    ensures StateLog(PruneState(s, now)) == PruneLog(log, now)
    ensures Represents(PruneState(s, now), PruneLog(log, now), now)
  {
    PruneTwice(s.records, clock, now);
    PruneTwice(log.records, clock, now);
    PruneTwice(log.records, now, now);
    PruneTwice(s.records, now, now);
    forall r | r in Prune(s.records, now) ensures r.sequence <= log.latest {
      FilterMember(s.records, Unexpired(now), r);
    }
  }

  /** Loading, from either copy, yields a state that represents the log. */
  lemma LoadRepresents(disk: Disk, log: Log, clock: int, op: Op, initialSequence: nat)
    requires Refines(disk, log, clock, initialSequence)
    ensures var (d, s) := Load(disk, op, initialSequence);
      s.Some? && Represents(s.value, log, clock) && Refines(d, log, clock, initialSequence) && d.file.Stored?
  {
    if disk.file.Stored? {
      MaxSequenceBounded(disk.file.state.records, log.latest);
    }
  }

  /** While the clock does not go back, an operation answers as the log does. */
  lemma DiskStepRefines(disk: Disk, log: Log, clock: int, op: Op, initialSequence: nat, maxRecords: nat)
    requires Refines(disk, log, clock, initialSequence) && maxRecords > 0 && clock <= op.now
    ensures var (disk', answer) := DiskApply(disk, op, initialSequence, maxRecords);
      var (log', expected) := Apply(log, op, maxRecords);
      answer == expected && Refines(disk', log', op.now, initialSequence)
  {
    LoadRepresents(disk, log, clock, op, initialSequence);
    var (d, s) := Load(disk, op, initialSequence);
    RepresentsLater(s.value, log, clock, op.now);
    RepresentsLater(d.file.state, log, clock, op.now);
  }

  /** A put leaves file and copy equal and free of what had expired, apart from what it stored itself. */
  lemma PutLeavesBothEqual(disk: Disk, d: Draft, now: int, initialSequence: nat, maxRecords: nat)
    requires maxRecords > 0 && !disk.file.Corrupt?
    ensures var (disk', answer) := DiskApply(disk, Op.PutIfAbsent(d, now), initialSequence, maxRecords);
      && disk'.file.Stored? && disk'.cache == Some(disk'.file.state)
      && forall r :: r in disk'.file.state.records ==>
           r.draft.expiresAt.ms > now || (answer.Inserted? && r == answer.stored)
  {
    var s := Fresh(disk, initialSequence).1.value;
    forall r | r in Prune(s.records, now) ensures r.draft.expiresAt.ms > now {
      FilterMember(s.records, Unexpired(now), r);
    }
  }

  /** Pruning frees file and copy of what had expired. */
  lemma PruningReachesFile(disk: Disk, now: int, initialSequence: nat, maxRecords: nat)
    requires maxRecords > 0 && !disk.file.Corrupt?
    ensures var disk' := DiskApply(disk, Op.PruneExpired(now), initialSequence, maxRecords).0;
      && disk'.file.Stored? && disk'.cache.Some?
      && (forall r :: r in disk'.file.state.records ==> r.draft.expiresAt.ms > now)
      && disk'.cache.value.records == disk'.file.state.records
  {
    var s := Fresh(disk, initialSequence).1.value;
    PruneIdentity(s.records, now);
    forall r | r in Prune(s.records, now) ensures r.draft.expiresAt.ms > now {
      FilterMember(s.records, Unexpired(now), r);
    }
  }

  /** Reads never write the file, except to create it. */
  lemma ReadsSpareFile(disk: Disk, op: Op, initialSequence: nat, maxRecords: nat)
    requires maxRecords > 0 && (op.Get? || op.List?)
    ensures var disk' := DiskApply(disk, op, initialSequence, maxRecords).0;
      disk'.file == disk.file || (disk.file.Absent? && disk'.file == Stored(State(initialSequence, [])))
  {
  }

  /** Reads prune the copy only, so a clock that goes back lets a put see a record that a read had expired. */
  lemma ClockGoingBackDiverges()
    ensures var d := Draft("k", "t", "e", Timestamp(10, "10"), true);
      var put, read, putAgain := Op.PutIfAbsent(d, 0), Op.Get("k", 20), Op.PutIfAbsent(d, 5);
      var disk := DiskApply(DiskApply(Disk(Absent, None), put, 0, 1).0, read, 0, 1).0;
      var log := Apply(Apply(Log([], 0), put, 1).0, read, 1).0;
      DiskApply(disk, putAgain, 0, 1).1.Existing? && Apply(log, putAgain, 1).1.Inserted?
  {
    var d := Draft("k", "t", "e", Timestamp(10, "10"), true);
    var r := Record(d, 1);
    assert Apply(Log([], 0), Op.PutIfAbsent(d, 0), 1).0 == Log([r], 1);
    FilterNone([r], Unexpired(20));
    assert Apply(Log([r], 1), Op.Get("k", 20), 1).0 == Log([], 1);
  }
}

module SqlBridgeStore {
  import opened Wrappers
  import opened BridgeLog

  type Table = map<string, Record>

  /** rows lists the table's rows by ascending sequence. */
  ghost predicate Orders(table: Table, rows: seq<Record>) {
    && Increasing(rows)
    && DistinctKeys(rows)
    && (forall r :: r in rows ==> r.draft.key in table && table[r.draft.key] == r)
    && (forall k :: k in table ==> table[k].draft.key == k && table[k] in rows)
  }

  lemma {:induction false} OrdersCount(table: Table, rows: seq<Record>)
    requires Orders(table, rows)
    ensures |table| == |rows|
  {
    if rows == [] {
      assert table == map[];
    } else {
      RemoveSmallest(table, rows);
      OrdersCount(table - {rows[0].draft.key}, rows[1..]);
      assert table.Keys == (table - {rows[0].draft.key}).Keys + {rows[0].draft.key};
    }
  }

  lemma RemoveSmallest(table: Table, rows: seq<Record>)
    requires Orders(table, rows) && rows != []
    ensures Orders(table - {rows[0].draft.key}, rows[1..])
  {
  }

  /** Lexicographic order of texts by code point, as the database compares them. */
  predicate TextLess(a: string, b: string) {
    if b == "" then false
    else if a == "" then true
    else a[0] < b[0] || (a[0] == b[0] && TextLess(a[1..], b[1..]))
  }

  /** How the clock is written for the query: the text of toISOString. */
  type Iso = int -> string

  /** The rows the query DELETE WHERE expires_at <= now leaves, expires_at being a text. */
  function TextUnexpired(iso: Iso, now: int): Record -> bool {
    (r: Record) => TextLess(iso(now), r.draft.expiresAt.text)
  }

  /** One operation of the SQL store: as of the log, but expiring by text. */
  function SqlApply(log: Log, op: Op, iso: Iso, maxRecords: nat): (Log, Answer)
    requires maxRecords > 0
  {
    Act(Log(Filter(log.records, TextUnexpired(iso, op.now)), log.latest), op, maxRecords)
  }

  // The times that toISOString writes with a four-digit year.
  const FIRST_MS := -62167219200000
  const LAST_MS := 253402300799999

  predicate InIsoRange(ms: int) { FIRST_MS <= ms <= LAST_MS }

  /** Within that range texts are ordered as the times they write. */
  ghost predicate IsoOrdered(iso: Iso) {
    forall a, b :: InIsoRange(a) && InIsoRange(b) ==> (a < b <==> TextLess(iso(a), iso(b)))
  }

  /** Where the timestamp's text stands among the clock's: after all earlier ones and no later one. */
  predicate TextFits(iso: Iso, e: Timestamp) {
    && (e.ms > FIRST_MS ==> TextLess(iso(Min(e.ms - 1, LAST_MS)), e.text))
    && (e.ms <= LAST_MS ==> !TextLess(iso(Max(e.ms, FIRST_MS)), e.text))
  }

  /** At this instant the text comparison says of the timestamp what comparing times says. */
  predicate AgreesAt(iso: Iso, e: Timestamp, now: int) {
    TextLess(iso(now), e.text) <==> e.ms > now
  }

  lemma {:induction false} TextLessTransitive(a: string, b: string, c: string)
    requires TextLess(a, b) && TextLess(b, c)
    ensures TextLess(a, c)
  {
    if a != "" && a[0] == b[0] == c[0] {
      TextLessTransitive(a[1..], b[1..], c[1..]);
    }
  }

  lemma {:induction false} TextLessIrreflexive(a: string)
    ensures !TextLess(a, a)
  {
    if a != "" {
      TextLessIrreflexive(a[1..]);
    }
  }

  lemma FittingAgreesAt(iso: Iso, e: Timestamp, now: int)
    requires IsoOrdered(iso) && TextFits(iso, e) && InIsoRange(now)
    ensures AgreesAt(iso, e, now)
  {
    if now < e.ms {
      var last := Min(e.ms - 1, LAST_MS);
      if now < last {
        TextLessTransitive(iso(now), iso(last), e.text);
      }
    } else if TextLess(iso(now), e.text) && Max(e.ms, FIRST_MS) < now {
      TextLessTransitive(iso(Max(e.ms, FIRST_MS)), iso(now), e.text);
    }
  }

  /** An instant at which a timestamp that does not fit is judged differently. */
  function UnfitInstant(iso: Iso, e: Timestamp): (now: int)
    requires !TextFits(iso, e)
    ensures InIsoRange(now) && !AgreesAt(iso, e, now)
  {
    if e.ms > FIRST_MS && !TextLess(iso(Min(e.ms - 1, LAST_MS)), e.text) then Min(e.ms - 1, LAST_MS)
    else Max(e.ms, FIRST_MS)
  }

  /** Exactly the fitting timestamps expire by text when they expire by time, at every instant. */
  lemma AgreesIffTextFits(iso: Iso, e: Timestamp)
    requires IsoOrdered(iso)
    ensures TextFits(iso, e) <==> forall now :: InIsoRange(now) ==> AgreesAt(iso, e, now)
  {
    if TextFits(iso, e) {
      forall now | InIsoRange(now) ensures AgreesAt(iso, e, now) {
        FittingAgreesAt(iso, e, now);
      }
    } else {
      var now := UnfitInstant(iso, e);
    }
  }

  /** What toISOString writes fits, which is how the service writes every expiry. */
  lemma IsoTextFits(iso: Iso, ms: int)
    requires IsoOrdered(iso) && InIsoRange(ms)
    ensures TextFits(iso, Timestamp(ms, iso(ms)))
  {
    TextLessIrreflexive(iso(ms));
  }

  ghost predicate FittingLog(iso: Iso, log: Log) {
    forall r :: r in log.records ==> TextFits(iso, r.draft.expiresAt)
  }

  predicate FittingOp(iso: Iso, op: Op) {
    op.PutIfAbsent? ==> TextFits(iso, op.draft.expiresAt)
  }

  /** On fitting expiries the SQL store does what the log does, and its rows stay fitting. */
  lemma SqlApplyIsApply(log: Log, op: Op, iso: Iso, maxRecords: nat)
    requires maxRecords > 0 && IsoOrdered(iso) && InIsoRange(op.now) && FittingLog(iso, log) && FittingOp(iso, op)
    ensures SqlApply(log, op, iso, maxRecords) == Apply(log, op, maxRecords)
    ensures FittingLog(iso, Apply(log, op, maxRecords).0)
  {
    forall r | r in log.records ensures TextUnexpired(iso, op.now)(r) <==> Unexpired(op.now)(r) {
      FittingAgreesAt(iso, r.draft.expiresAt, op.now);
    }
    FilterSame(log.records, TextUnexpired(iso, op.now), Unexpired(op.now));
    forall r | r in Prune(log.records, op.now) ensures TextFits(iso, r.draft.expiresAt) {
      FilterMember(log.records, Unexpired(op.now), r);
    }
  }

  /** What the SQL store answers over a whole run. */
  function SqlRun(log: Log, ops: seq<Op>, iso: Iso, maxRecords: nat): seq<Answer>
    requires maxRecords > 0
    decreases |ops|
  {
    if ops == [] then []
    else
      var (next, answer) := SqlApply(log, ops[0], iso, maxRecords);
      [answer] + SqlRun(next, ops[1..], iso, maxRecords)
  }

  /** No operation of the run is handed a sequence counter that has left the safe range. */
  ghost predicate SqlSafeRun(log: Log, ops: seq<Op>, iso: Iso, maxRecords: nat)
    requires maxRecords > 0
    decreases |ops|
  {
    ops != [] ==>
      && (ops[0].PutIfAbsent? ==> log.latest < MAX_SAFE_INTEGER)
      && SqlSafeRun(SqlApply(log, ops[0], iso, maxRecords).0, ops[1..], iso, maxRecords)
  }

  ghost predicate FittingRun(iso: Iso, ops: seq<Op>) {
    forall op :: op in ops ==> InIsoRange(op.now) && FittingOp(iso, op)
  }

  /** Over any run of drafts with fitting expiries the SQL store answers as the log. */
  lemma {:induction false} SqlRunMatchesLog(log: Log, ops: seq<Op>, iso: Iso, maxRecords: nat)
    requires maxRecords > 0 && IsoOrdered(iso) && FittingLog(iso, log) && FittingRun(iso, ops)
    ensures SqlRun(log, ops, iso, maxRecords) == Run(log, ops, maxRecords).1
    ensures SqlSafeRun(log, ops, iso, maxRecords) <==> SafeRun(log, ops, maxRecords)
    decreases |ops|
  {
    if ops != [] {
      SqlApplyIsApply(log, ops[0], iso, maxRecords);
      SqlRunMatchesLog(Apply(log, ops[0], maxRecords).0, ops[1..], iso, maxRecords);
    }
  }

  /** A put into an empty store and a get of what was put, at one instant. */
  function PutThenGet(d: Draft, now: int): seq<Op> {
    [Op.PutIfAbsent(d, now), Op.Get(d.key, now)]
  }

  lemma PutIntoEmpty(d: Draft, now: int, initialSequence: nat, iso: Iso, maxRecords: nat)
    requires maxRecords > 0
    ensures var r := Record(d, NextSequence(initialSequence, now));
      && Apply(Log([], initialSequence), Op.PutIfAbsent(d, now), maxRecords) == (Log([r], r.sequence), Inserted(r))
      && SqlApply(Log([], initialSequence), Op.PutIfAbsent(d, now), iso, maxRecords) ==
           (Log([r], r.sequence), Inserted(r))
  {
    var r := Record(d, NextSequence(initialSequence, now));
    assert [] + [r] == [r];
    assert InsertLog(Log([], initialSequence), d, now, maxRecords) == (Log([r], r.sequence), r);
  }

  lemma GetFromOne(r: Record, now: int, iso: Iso, maxRecords: nat)
    requires maxRecords > 0
    ensures var log, get := Log([r], r.sequence), Op.Get(r.draft.key, now);
      && Apply(log, get, maxRecords).1 == Found(if r.draft.expiresAt.ms > now then Some(r) else None)
      && SqlApply(log, get, iso, maxRecords).1 ==
           Found(if TextLess(iso(now), r.draft.expiresAt.text) then Some(r) else None)
  {
    assert Filter([r], Unexpired(now)) == if r.draft.expiresAt.ms > now then [r] else [];
    assert Filter([r], TextUnexpired(iso, now)) == if TextLess(iso(now), r.draft.expiresAt.text) then [r] else [];
  }

  lemma RunTwo(log: Log, a: Op, b: Op, iso: Iso, maxRecords: nat)
    requires maxRecords > 0
    ensures var (next, answer) := Apply(log, a, maxRecords);
      Run(log, [a, b], maxRecords).1 == [answer, Apply(next, b, maxRecords).1]
    ensures var (next, answer) := SqlApply(log, a, iso, maxRecords);
      SqlRun(log, [a, b], iso, maxRecords) == [answer, SqlApply(next, b, iso, maxRecords).1]
  {
    assert [a, b][1..] == [b] && [b][1..] == [];
    assert Run(Apply(log, a, maxRecords).0, [b], maxRecords).1 ==
      [Apply(Apply(log, a, maxRecords).0, b, maxRecords).1];
    assert SqlRun(SqlApply(log, a, iso, maxRecords).0, [b], iso, maxRecords) ==
      [SqlApply(SqlApply(log, a, iso, maxRecords).0, b, iso, maxRecords).1];
  }

  /** Only the put draws on the counter. */
  lemma PutThenGetIsSafe(d: Draft, now: int, initialSequence: nat, iso: Iso, maxRecords: nat)
    requires maxRecords > 0 && initialSequence < MAX_SAFE_INTEGER
    ensures SafeRun(Log([], initialSequence), PutThenGet(d, now), maxRecords)
    ensures SqlSafeRun(Log([], initialSequence), PutThenGet(d, now), iso, maxRecords)
  {
    var start, ops := Log([], initialSequence), PutThenGet(d, now);
    assert ops[1..] == [Op.Get(d.key, now)] && ops[1..][1..] == [];
    assert SafeRun(Apply(start, ops[0], maxRecords).0, ops[1..], maxRecords);
    assert SqlSafeRun(SqlApply(start, ops[0], iso, maxRecords).0, ops[1..], iso, maxRecords);
  }

  /** The get shows whether the draft counts as expired. */
  lemma PutThenGetShows(d: Draft, now: int, initialSequence: nat, iso: Iso, maxRecords: nat)
    requires maxRecords > 0
    ensures var r := Record(d, NextSequence(initialSequence, now));
      && Run(Log([], initialSequence), PutThenGet(d, now), maxRecords).1 ==
           [Inserted(r), Found(if d.expiresAt.ms > now then Some(r) else None)]
      && SqlRun(Log([], initialSequence), PutThenGet(d, now), iso, maxRecords) ==
           [Inserted(r), Found(if TextLess(iso(now), d.expiresAt.text) then Some(r) else None)]
  {
    RunTwo(Log([], initialSequence), Op.PutIfAbsent(d, now), Op.Get(d.key, now), iso, maxRecords);
    PutIntoEmpty(d, now, initialSequence, iso, maxRecords);
    GetFromOne(Record(d, NextSequence(initialSequence, now)), now, iso, maxRecords);
  }

  /**
   * The exact condition for a draft: putting and getting it answers alike at every instant if and
   * only if its expiry fits.
   */
  lemma DraftShowsIffUnfit(d: Draft, initialSequence: nat, iso: Iso, maxRecords: nat)
    requires maxRecords > 0 && IsoOrdered(iso)
    ensures TextFits(iso, d.expiresAt) <==>
      forall now :: InIsoRange(now) ==>
        SqlRun(Log([], initialSequence), PutThenGet(d, now), iso, maxRecords) ==
        Run(Log([], initialSequence), PutThenGet(d, now), maxRecords).1
  {
    forall now | InIsoRange(now)
      ensures AgreesAt(iso, d.expiresAt, now) <==>
        SqlRun(Log([], initialSequence), PutThenGet(d, now), iso, maxRecords) ==
        Run(Log([], initialSequence), PutThenGet(d, now), maxRecords).1
    {
      PutThenGetShows(d, now, initialSequence, iso, maxRecords);
    }
    AgreesIffTextFits(iso, d.expiresAt);
  }

  lemma {:induction false} TextLessPrefix(p: string, a: string, b: string)
    ensures TextLess(p + a, p + b) <==> TextLess(a, b)
  {
    if p == "" {
      assert p + a == a && p + b == b;
    } else {
      assert (p + a)[1..] == p[1..] + a && (p + b)[1..] == p[1..] + b;
      TextLessPrefix(p[1..], a, b);
    }
  }

  /** An expiry written without milliseconds outlives its instant in the SQL store, and only there. */
  lemma TextExpiryDiverges(iso: Iso, second: string, ms: int)
    requires iso(ms) == second + ".000Z"
    ensures var r := Record(Draft("k", "t", "e", Timestamp(ms, second + "Z"), true), 1);
      var read := Op.Get("k", ms);
      SqlApply(Log([r], 1), read, iso, 1).1 == Found(Some(r)) && Apply(Log([r], 1), read, 1).1 == Found(None)
  {
    var r := Record(Draft("k", "t", "e", Timestamp(ms, second + "Z"), true), 1);
    TextLessPrefix(second, ".000Z", "Z");
    FilterAll([r], TextUnexpired(iso, ms));
    FilterNone([r], Unexpired(ms));
  }

  /** Keeping the rows a condition selects keeps their order. */
  lemma RestrictOrders(table: Table, rows: seq<Record>, p: Record -> bool)
    requires Orders(table, rows)
    ensures Orders(map k | k in table && p(table[k]) :: table[k], Filter(rows, p))
  {
    FilterIncreasing(rows, p);
    FilterKeys(rows, p);
    forall r | r in rows ensures r in Filter(rows, p) <==> p(r) {
      FilterMember(rows, p, r);
    }
    forall r | r in Filter(rows, p) ensures r in rows && p(r) {
      FilterMember(rows, p, r);
    }
  }

  /** The row that comes first by sequence. */
  method SmallestRow(table: Table, ghost rows: seq<Record>) returns (smallest: Record)
    requires Orders(table, rows) && table != map[]
    ensures rows != [] && smallest == rows[0]
  {
    var todo := table.Keys;
    var key :| key in todo;
    smallest := table[key];
    todo := todo - {key};
    while todo != {}
      invariant todo <= table.Keys
      invariant smallest.draft.key in table && table[smallest.draft.key] == smallest
      invariant forall k :: k in table && k !in todo ==> smallest.sequence <= table[k].sequence
    {
      key :| key in todo;
      if table[key].sequence < smallest.sequence {
        smallest := table[key];
      }
      todo := todo - {key};
    }
    assert smallest in rows;
    assert rows[0].draft.key in table;
  }

  method TakeSmallest(table: Table, ghost rows: seq<Record>)
    returns (row: Record, rest: Table, ghost left: seq<Record>)
    requires Orders(table, rows) && table != map[]
    ensures rows == [row] + left && Orders(rest, left)
  {
    row := SmallestRow(table, rows);
    RemoveSmallest(table, rows);
    rest := table - {row.draft.key};
    left := rows[1..];
  }

  lemma EmptyTable(table: Table, rows: seq<Record>)
    requires Orders(table, rows)
    ensures table == map[] ==> rows == []
  {
    if rows != [] {
      assert rows[0].draft.key in table;
    }
  }

  /** The query's ORDER BY sequence ASC LIMIT: repeatedly takes the smallest remaining row. */
  method SelectOrdered(table: Table, ghost rows: seq<Record>, limit: nat) returns (selected: seq<Record>)
    requires Orders(table, rows)
    ensures selected == Take(rows, limit)
    decreases limit
  {
    EmptyTable(table, rows);
    if table == map[] || limit == 0 {
      return [];
    }
    var row, rest, left := TakeSmallest(table, rows);
    var tail := SelectOrdered(rest, left, limit - 1);
    selected := [row] + tail;
  }

  /** Deletes the given rows, which are the first ones by sequence. */
  method DeleteRows(table: Table, ghost rows: seq<Record>, doomed: seq<Record>)
    returns (table': Table, ghost rows': seq<Record>)
    requires Orders(table, rows) && doomed <= rows
    ensures Orders(table', rows') && rows' == rows[|doomed|..]
  {
    table', rows' := table, rows;
    var i := 0;
    while i < |doomed|
      invariant 0 <= i <= |doomed|
      invariant Orders(table', rows') && rows' == rows[i..]
    {
      assert rows'[0] == doomed[i];
      RemoveSmallest(table', rows');
      table' := table' - {doomed[i].draft.key};
      rows' := rows'[1..];
      i := i + 1;
    }
  }

  /** The deletion by subquery: the keys of the first rows by sequence, then the rows under those keys. */
  method DeleteSmallest(table: Table, ghost rows: seq<Record>, count: nat)
    returns (table': Table, ghost rows': seq<Record>)
    requires Orders(table, rows) && count <= |rows|
    ensures Orders(table', rows') && rows' == rows[count..]
  {
    var doomed := SelectOrdered(table, rows, count);
    table', rows' := DeleteRows(table, rows, doomed);
  }

  /** A row whose sequence is above all others goes last. */
  lemma InsertLargest(table: Table, rows: seq<Record>, r: Record)
    requires Orders(table, rows) && r.draft.key !in table
    requires forall x :: x in rows ==> x.sequence < r.sequence
    ensures Orders(table[r.draft.key := r], rows + [r])
  {
  }

  lemma KeptIsValid(log: Log, maxRecords: nat)
    requires ValidLog(log) && maxRecords > 0
    ensures ValidLog(Log(BridgeLog.EvictToCapacity(log.records, maxRecords), log.latest))
  {
  }

  /** An unordered table with a primary key, and the row that holds the latest sequence. */
  class PgliteBridgeStore {
    const maxRecords: nat
    const initialSequence: nat
    const iso: Iso
    var initialized: bool
    var sequenceRow: nat
    var table: Table
    ghost var rows: seq<Record>

    /** Opens a database, empty or left by an earlier store. */
    constructor (maxRecords: nat, initialSequence: nat, iso: Iso,
                 table: Table, sequenceRow: nat, ghost rows: seq<Record>)
      requires maxRecords > 0 && Orders(table, rows) && ValidLog(Log(rows, sequenceRow))
      ensures Valid() && this.maxRecords == maxRecords && this.iso == iso
      ensures Contents() == Log(rows, Max(sequenceRow, initialSequence))
    {
      this.maxRecords, this.initialSequence, this.iso := maxRecords, initialSequence, iso;
      initialized, this.sequenceRow, this.table, this.rows := false, sequenceRow, table, rows;
    }

    ghost predicate Valid()
      reads this
    {
      && maxRecords > 0
      && Orders(table, rows)
      && ValidLog(Contents())
    }

    ghost function Contents(): Log
      reads this
    {
      Log(rows, if initialized then sequenceRow else Max(sequenceRow, initialSequence))
    }

    /** Creates the tables where there are none and raises the sequence row to the configured start. */
    method Init()
      requires Valid()
      modifies this`initialized, this`sequenceRow
      ensures Valid() && initialized && Contents() == old(Contents())
    {
      if !initialized {
        sequenceRow := Max(sequenceRow, initialSequence);
        initialized := true;
      }
    }

    method DeleteExpired(now: int)
      requires Valid() && initialized
      modifies this`table, this`rows
      ensures Valid()
      ensures Contents() == Log(Filter(old(rows), TextUnexpired(iso, now)), old(Contents()).latest)
    {
      var kept := TextUnexpired(iso, now);
      RestrictOrders(table, rows, kept);
      FilteredIsValid(Contents(), kept);
      Replace(map k | k in table && kept(table[k]) :: table[k], Filter(rows, kept));
    }

    /** Deletes the rows with the smallest sequences, as many as are over the capacity less one. */
    method EvictToCapacity()
      requires Valid() && initialized
      modifies this`table, this`rows
      ensures Valid()
      ensures Contents() == Log(BridgeLog.EvictToCapacity(old(rows), maxRecords), old(Contents()).latest)
    {
      OrdersCount(table, rows);
      var deleteCount := |table| - (maxRecords - 1);
      if deleteCount > 0 {
        KeptIsValid(Contents(), maxRecords);
        var kept, left := DeleteSmallest(table, rows, deleteCount);
        Replace(kept, left);
      }
    }

    method Replace(table': Table, ghost rows': seq<Record>)
      requires maxRecords > 0 && initialized && Orders(table', rows') && ValidLog(Log(rows', sequenceRow))
      modifies this`table, this`rows
      ensures Valid() && table == table' && rows == rows'
    {
      table, rows := table', rows';
    }

    method Get(key: string, now: int) returns (found: Option<Record>)
      requires Valid()
      modifies this
      ensures Valid() && (Contents(), Found(found)) == SqlApply(old(Contents()), Op.Get(key, now), iso, maxRecords)
    {
      Init();
      DeleteExpired(now);
      found := GetRecord(key);
    }

    method GetRecord(key: string) returns (found: Option<Record>)
      requires Valid()
      ensures found == FindKey(rows, key)
    {
      found := if key in table then Some(table[key]) else None;
    }

    method Insert(stored: Record)
      requires Valid() && initialized
      requires stored.draft.key !in table && stored.sequence > sequenceRow
      modifies this`sequenceRow, this`table, this`rows
      ensures Valid() && rows == old(rows) + [stored] && sequenceRow == stored.sequence
    {
      InsertLargest(table, rows, stored);
      sequenceRow := stored.sequence;
      table := table[stored.draft.key := stored];
      rows := rows + [stored];
    }

    /** Reading a latest sequence outside the safe integers is refused by the source. */
    method PutIfAbsent(d: Draft, now: int) returns (answer: Answer)
      requires Valid() && Contents().latest < MAX_SAFE_INTEGER
      modifies this
      ensures Valid() && (Contents(), answer) == SqlApply(old(Contents()), Op.PutIfAbsent(d, now), iso, maxRecords)
    {
      Init();
      DeleteExpired(now);
      var existing := GetRecord(d.key);
      if existing.Some? {
        return Existing(existing.value);
      }
      EvictToCapacity();
      var stored := Record(d, NextSequence(sequenceRow, now));
      Insert(stored);
      return Inserted(stored);
    }

    method ListAfter(target: string, after: nat, limit: nat, now: int) returns (records: seq<Record>)
      requires Valid() && limit > 0
      modifies this
      ensures Valid()
      ensures (Contents(), Listed(records)) ==
        SqlApply(old(Contents()), Op.List(target, after, limit, now), iso, maxRecords)
    {
      Init();
      DeleteExpired(now);
      RestrictOrders(table, rows, Selection(target, after));
      var matching := map k | k in table && Selection(target, after)(table[k]) :: table[k];
      records := SelectOrdered(matching, Filter(rows, Selection(target, after)), limit);
    }

    method Serve(op: Op) returns (answer: Answer)
      requires Valid() && (op.PutIfAbsent? ==> Contents().latest < MAX_SAFE_INTEGER)
      requires op.List? ==> op.limit > 0
      modifies this
      ensures Valid() && (Contents(), answer) == SqlApply(old(Contents()), op, iso, maxRecords)
    {
      match op
      case Get(key, now) => var found := Get(key, now); answer := Found(found);
      case PutIfAbsent(d, now) => answer := PutIfAbsent(d, now);
      case List(target, after, limit, now) => var rs := ListAfter(target, after, limit, now); answer := Listed(rs);
      case PruneExpired(now) => Init(); DeleteExpired(now); answer := Done;
    }
  }
}

module BridgeStoreEquivalence {
  import opened BridgeLog
  import opened MemoryBridgeStore
  import opened JsonBridgeStore
  import opened SqlBridgeStore

  /** What an insertion-ordered file store answers over a whole run. */
  function DiskRun(disk: Disk, ops: seq<Op>, initialSequence: nat, maxRecords: nat): seq<Answer>
    requires maxRecords > 0
    decreases |ops|
  {
    if ops == [] then []
    else
      var (next, answer) := DiskApply(disk, ops[0], initialSequence, maxRecords);
      [answer] + DiskRun(next, ops[1..], initialSequence, maxRecords)
  }

  /** With a clock that never goes back, no run tells the file store from the log. */
  lemma {:induction false} DiskRunMatchesLog(
      disk: Disk, log: Log, clock: int, ops: seq<Op>, initialSequence: nat, maxRecords: nat)
    requires maxRecords > 0 && Refines(disk, log, clock, initialSequence) && ClockNonDecreasing(ops, clock)
    ensures DiskRun(disk, ops, initialSequence, maxRecords) == Run(log, ops, maxRecords).1
    decreases |ops|
  {
    if ops != [] {
      DiskStepRefines(disk, log, clock, ops[0], initialSequence, maxRecords);
      DiskRunMatchesLog(DiskApply(disk, ops[0], initialSequence, maxRecords).0,
                        Apply(log, ops[0], maxRecords).0, ops[0].now, ops[1..], initialSequence, maxRecords);
    }
  }

  /** Two stores hold the log, as far as their clock has come, and the SQL store its own. */
  ghost predicate Hold(
      a: InMemoryBridgeStore, b: JsonFileBridgeStore, c: PgliteBridgeStore,
      log: Log, sqlLog: Log, clock: int, initialSequence: nat, maxRecords: nat)
    reads a, b, c
  {
    && a.Valid() && a.maxRecords == maxRecords && a.Contents() == log
    && b.maxRecords == maxRecords && b.initialSequence == initialSequence
    && Refines(b.Contents(), log, clock, initialSequence)
    && c.Valid() && c.maxRecords == maxRecords && c.Contents() == sqlLog
  }

  method ServeAll(
      a: InMemoryBridgeStore, b: JsonFileBridgeStore, c: PgliteBridgeStore, op: Op,
      ghost log: Log, ghost sqlLog: Log, ghost clock: int, ghost initialSequence: nat, ghost maxRecords: nat)
    returns (x: Answer, y: Answer, z: Answer)
    requires maxRecords > 0 && Hold(a, b, c, log, sqlLog, clock, initialSequence, maxRecords)
    requires clock <= op.now && (op.List? ==> op.limit > 0)
    requires op.PutIfAbsent? ==> log.latest < MAX_SAFE_INTEGER && sqlLog.latest < MAX_SAFE_INTEGER
    modifies a, b, c
    ensures Hold(a, b, c, Apply(log, op, maxRecords).0, SqlApply(sqlLog, op, c.iso, maxRecords).0,
                 op.now, initialSequence, maxRecords)
    ensures x == y == Apply(log, op, maxRecords).1 && z == SqlApply(sqlLog, op, c.iso, maxRecords).1
  {
    DiskStepRefines(b.Contents(), log, clock, op, initialSequence, maxRecords);
    x := a.Serve(op);
    y := b.Serve(op);
    z := c.Serve(op);
  }

  method ServeRun(
      a: InMemoryBridgeStore, b: JsonFileBridgeStore, c: PgliteBridgeStore, ops: seq<Op>,
      ghost log: Log, ghost sqlLog: Log, ghost clock: int, ghost initialSequence: nat, ghost maxRecords: nat)
    returns (memory: seq<Answer>, json: seq<Answer>, sql: seq<Answer>)
    requires maxRecords > 0 && Hold(a, b, c, log, sqlLog, clock, initialSequence, maxRecords)
    requires ClockNonDecreasing(ops, clock)
    requires SafeRun(log, ops, maxRecords) && SqlSafeRun(sqlLog, ops, c.iso, maxRecords)
    requires forall op :: op in ops ==> op.List? ==> op.limit > 0
    modifies a, b, c
    ensures memory == json == Run(log, ops, maxRecords).1 && sql == SqlRun(sqlLog, ops, c.iso, maxRecords)
    decreases |ops|
  {
    if |ops| == 0 {
      return [], [], [];
    }
    ghost var next := Apply(log, ops[0], maxRecords).0;
    ghost var sqlNext := SqlApply(sqlLog, ops[0], c.iso, maxRecords).0;
    var x, y, z := ServeAll(a, b, c, ops[0], log, sqlLog, clock, initialSequence, maxRecords);
    memory, json, sql := ServeRun(a, b, c, ops[1..], next, sqlNext, ops[0].now, initialSequence, maxRecords);
    memory, json, sql := [x] + memory, [y] + json, [z] + sql;
  }

  /** Fresh stores of the three kinds with the same start and capacity, driven by the same operations. */
  method DriveFresh(ops: seq<Op>, initialSequence: nat, maxRecords: nat, iso: Iso)
    returns (memory: seq<Answer>, json: seq<Answer>, sql: seq<Answer>)
    requires maxRecords > 0
    requires ops != [] ==> ClockNonDecreasing(ops, ops[0].now)
    requires SafeRun(Log([], initialSequence), ops, maxRecords)
    requires SqlSafeRun(Log([], initialSequence), ops, iso, maxRecords)
    requires forall op :: op in ops ==> op.List? ==> op.limit > 0
    ensures memory == json == Run(Log([], initialSequence), ops, maxRecords).1
    ensures sql == SqlRun(Log([], initialSequence), ops, iso, maxRecords)
  {
    var a := new InMemoryBridgeStore(maxRecords, initialSequence);
    var b := new JsonFileBridgeStore(maxRecords, initialSequence, Absent);
    var c := new PgliteBridgeStore(maxRecords, initialSequence, iso, map[], 0, []);
    ghost var clock := if ops == [] then 0 else ops[0].now;
    ghost var log := Log([], initialSequence);
    memory, json, sql := ServeRun(a, b, c, ops, log, log, clock, initialSequence, maxRecords);
  }

  /**
   * Fresh stores of the three kinds, given the same start and capacity and driven by the same
   * operations under a clock that never goes back, with expiries whose texts fit their times, give
   * the same answers, those of the log.
   */
  method DriveStores(ops: seq<Op>, initialSequence: nat, maxRecords: nat, iso: Iso)
    returns (memory: seq<Answer>, json: seq<Answer>, sql: seq<Answer>)
    requires maxRecords > 0 && IsoOrdered(iso)
    requires ops != [] ==> ClockNonDecreasing(ops, ops[0].now)
    requires SafeRun(Log([], initialSequence), ops, maxRecords)
    requires FittingRun(iso, ops) && forall op :: op in ops ==> op.List? ==> op.limit > 0
    ensures memory == json == sql == Run(Log([], initialSequence), ops, maxRecords).1
  {
    SqlRunMatchesLog(Log([], initialSequence), ops, iso, maxRecords);
    memory, json, sql := DriveFresh(ops, initialSequence, maxRecords, iso);
  }

  /** For a draft whose expiry does not fit there is an instant at which a put and a get tell the SQL store apart. */
  method TellApart(d: Draft, initialSequence: nat, maxRecords: nat, iso: Iso)
    returns (now: int, memory: seq<Answer>, json: seq<Answer>, sql: seq<Answer>)
    requires maxRecords > 0 && initialSequence < MAX_SAFE_INTEGER && !TextFits(iso, d.expiresAt)
    ensures InIsoRange(now) && memory == json == Run(Log([], initialSequence), PutThenGet(d, now), maxRecords).1
    ensures sql == SqlRun(Log([], initialSequence), PutThenGet(d, now), iso, maxRecords) && sql != memory
  {
    now := UnfitInstant(iso, d.expiresAt);
    PutThenGetShows(d, now, initialSequence, iso, maxRecords);
    PutThenGetIsSafe(d, now, initialSequence, iso, maxRecords);
    memory, json, sql := DriveFresh(PutThenGet(d, now), initialSequence, maxRecords, iso);
  }
}
