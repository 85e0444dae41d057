/** The in-memory content-addressed block cache with least-recently-used eviction by bytes. */
module MemoryBlockStore {
  import opened Wrappers
  import opened Positional

  type Bytes = seq<Byte>

  datatype Digest = Digest(algorithm: string, value: string)
  datatype Block = Block(key: Digest, bytes: Bytes)

  /** Blocks in the map's iteration order, least recently used first. */
  type Cache = seq<Block>

  type Hash = (Bytes, string) -> string

  function KeyOf(hash: Hash, bytes: Bytes, algorithm: string): Digest {
    Digest(algorithm, hash(bytes, algorithm))
  }

  function TotalBytes(c: Cache): nat {
    if c == [] then 0 else |c[0].bytes| + TotalBytes(c[1..])
  }

  ghost predicate DistinctKeys(c: Cache) {
    forall i, j :: 0 <= i < j < |c| ==> c[i].key != c[j].key
  }

  function Find(c: Cache, key: Digest): (found: Option<Block>)
    ensures found.Some? ==> found.value in c && found.value.key == key
    ensures found.None? ==> forall b :: b in c ==> b.key != key
  {
    if c == [] then None
    else if c[0].key == key then Some(c[0])
    else Find(c[1..], key)
  }

  /** The cache without one key. */
  function Without(c: Cache, key: Digest): Cache {
    if c == [] then []
    else if c[0].key == key then c[1..]
    else [c[0]] + Without(c[1..], key)
  }

  /** Removes the oldest blocks until the given size fits. */
  function Evict(c: Cache, size: nat, maxTotal: nat): Cache {
    if c != [] && TotalBytes(c) + size > maxTotal then Evict(c[1..], size, maxTotal) else c
  }

  // ---- operations

  /** Store is the second half of a put, once the digest is there, with the buffer as it is by then. */
  datatype Op =
    | Store(key: Digest, bytes: Bytes)
    | Fetch(key: Digest)
    | Delete(key: Digest)

  /** A put or a read moves the block to the recent end. */
  function Refresh(c: Cache, b: Block): Cache {
    Without(c, b.key) + [b]
  }

  function Step(c: Cache, op: Op, maxTotal: nat): Cache {
    match op
    case Store(key, bytes) =>
      (match Find(c, key)
       case Some(existing) => Refresh(c, existing)
       case None => Evict(c, |bytes|, maxTotal) + [Block(key, bytes)])
    case Fetch(key) =>
      (match Find(c, key)
       case Some(existing) => Refresh(c, existing)
       case None => c)
    case Delete(key) => Without(c, key)
  }

  // ---- what the list functions do

  lemma {:induction false} TotalConcat(a: Cache, b: Cache)
    ensures TotalBytes(a + b) == TotalBytes(a) + TotalBytes(b)
  {
    if a == [] {
      assert a + b == b;
    } else {
      assert (a + b)[1..] == a[1..] + b;
      TotalConcat(a[1..], b);
    }
  }

  lemma {:induction false} WithoutMember(c: Cache, key: Digest, b: Block)
    requires DistinctKeys(c)
    ensures b in Without(c, key) <==> b in c && b.key != key
  {
    if c != [] {
      assert c == [c[0]] + c[1..];
      if c[0].key != key {
        WithoutMember(c[1..], key, b);
      }
    }
  }

  lemma {:induction false} WithoutDistinct(c: Cache, key: Digest)
    requires DistinctKeys(c)
    ensures DistinctKeys(Without(c, key))
  {
    if c != [] && c[0].key != key {
      WithoutDistinct(c[1..], key);
      forall b | b in Without(c[1..], key) ensures b.key != c[0].key {
        WithoutMember(c[1..], key, b);
      }
    }
  }

  lemma {:induction false} WithoutTotal(c: Cache, key: Digest)
    ensures TotalBytes(c) == TotalBytes(Without(c, key)) +
      (match Find(c, key) case None => 0 case Some(b) => |b.bytes|)
    ensures Find(c, key).None? ==> Without(c, key) == c
  {
    if c != [] && c[0].key != key {
      WithoutTotal(c[1..], key);
      assert c == [c[0]] + c[1..];
    }
  }

  /** Removing a key takes out exactly its block. */
  lemma WithoutExact(c: Cache, key: Digest)
    requires DistinctKeys(c)
    ensures DistinctKeys(Without(c, key))
    ensures forall b :: b in Without(c, key) <==> b in c && b.key != key
    ensures TotalBytes(c) == TotalBytes(Without(c, key)) +
      (match Find(c, key) case None => 0 case Some(b) => |b.bytes|)
    ensures Find(c, key).None? ==> Without(c, key) == c
  {
    WithoutDistinct(c, key);
    WithoutTotal(c, key);
    forall b ensures b in Without(c, key) <==> b in c && b.key != key {
      WithoutMember(c, key, b);
    }
  }

  lemma {:induction false} EvictShape(c: Cache, size: nat, maxTotal: nat) returns (n: nat)
    requires size <= maxTotal
    ensures n <= |c| && Evict(c, size, maxTotal) == c[n..]
    ensures TotalBytes(c[n..]) + size <= maxTotal
    ensures forall m :: 0 <= m < n ==> TotalBytes(c[m..]) + size > maxTotal
  {
    n := 0;
    if c != [] && TotalBytes(c) + size > maxTotal {
      n := EvictShape(c[1..], size, maxTotal);
      assert c[1..][n..] == c[n + 1..];
      forall m | 0 <= m < n + 1 ensures TotalBytes(c[m..]) + size > maxTotal {
        if m > 0 { assert c[1..][m - 1..] == c[m..]; }
      }
      n := n + 1;
    }
    assert n == 0 ==> c[n..] == c;
  }

  /** Eviction removes the fewest oldest blocks that make room. */
  lemma EvictsFewestOldest(c: Cache, size: nat, maxTotal: nat, k: nat)
    requires size <= maxTotal && k <= |c|
    ensures |Evict(c, size, maxTotal)| <= |c|
    ensures TotalBytes(c[k..]) + size <= maxTotal ==> |c[k..]| <= |Evict(c, size, maxTotal)|
    ensures Evict(c, size, maxTotal) == c[|c| - |Evict(c, size, maxTotal)|..]
    ensures TotalBytes(Evict(c, size, maxTotal)) + size <= maxTotal
  {
    var n := EvictShape(c, size, maxTotal);
  }

  // ---- invariant

  /** Each key once, and no more bytes than the budget. */
  ghost predicate Bounded(c: Cache, maxTotal: nat) {
    DistinctKeys(c) && TotalBytes(c) <= maxTotal
  }

  /** The bytes hash to the key and are within the per-block cap. */
  predicate Sound(b: Block, hash: Hash, maxBlock: nat) {
    hash(b.bytes, b.key.algorithm) == b.key.value && |b.bytes| <= maxBlock
  }

  ghost predicate ValidCache(c: Cache, hash: Hash, maxBlock: nat, maxTotal: nat) {
    Bounded(c, maxTotal) && forall b :: b in c ==> Sound(b, hash, maxBlock)
  }

  lemma RefreshKeeps(c: Cache, b: Block)
    requires DistinctKeys(c) && b in c
    ensures DistinctKeys(Refresh(c, b)) && TotalBytes(Refresh(c, b)) == TotalBytes(c)
    ensures forall x :: x in Refresh(c, b) <==> x in c
  {
    WithoutExact(c, b.key);
    TotalConcat(Without(c, b.key), [b]);
    assert TotalBytes([b]) == |b.bytes| by { assert [b][1..] == []; }
    var i :| 0 <= i < |c| && c[i] == b;
    assert Find(c, b.key) == Some(b);
    assert forall x :: x in c && x.key == b.key ==> x == b;
  }

  lemma InsertKeeps(c: Cache, b: Block, maxTotal: nat)
    requires Bounded(c, maxTotal) && Find(c, b.key).None? && |b.bytes| <= maxTotal
    ensures Bounded(Evict(c, |b.bytes|, maxTotal) + [b], maxTotal)
    ensures forall x :: x in Evict(c, |b.bytes|, maxTotal) ==> x in c
  {
    var n := EvictShape(c, |b.bytes|, maxTotal);
    TotalConcat(c[n..], [b]);
    assert TotalBytes([b]) == |b.bytes| by { assert [b][1..] == []; }
    assert forall x :: x in c[n..] ==> x in c;
  }

  /** Whatever is stored under whatever key, keys stay unique and the total within the budget. */
  lemma StepKeepsBounded(c: Cache, op: Op, maxTotal: nat)
    requires Bounded(c, maxTotal) && (op.Store? ==> |op.bytes| <= maxTotal)
    ensures Bounded(Step(c, op, maxTotal), maxTotal)
    ensures forall b :: b in Step(c, op, maxTotal) ==>
      b in c || (op.Store? && Find(c, op.key).None? && b == Block(op.key, op.bytes))
  {
    match op
    case Store(key, bytes) =>
      match Find(c, key) {
        case Some(existing) => RefreshKeeps(c, existing);
        case None => InsertKeeps(c, Block(key, bytes), maxTotal);
      }
    case Fetch(key) =>
      if Find(c, key).Some? { RefreshKeeps(c, Find(c, key).value); }
    case Delete(key) => WithoutExact(c, key);
  }

  /** The storing half adds nothing new, or a block that still hashes to its key and is within the cap. */
  predicate StoresSound(c: Cache, op: Op, hash: Hash, maxBlock: nat) {
    op.Store? ==> Find(c, op.key).Some? || Sound(Block(op.key, op.bytes), hash, maxBlock)
  }

  /** An operation keeps every block true to its key if and only if what it stores still is. */
  lemma StepKeepsValid(c: Cache, op: Op, hash: Hash, maxBlock: nat, maxTotal: nat)
    requires maxBlock <= maxTotal && ValidCache(c, hash, maxBlock, maxTotal)
    ensures ValidCache(Step(c, op, maxTotal), hash, maxBlock, maxTotal) <==> StoresSound(c, op, hash, maxBlock)
  {
    if StoresSound(c, op, hash, maxBlock) {
      if op.Store? && Find(c, op.key).Some? {
        RefreshKeeps(c, Find(c, op.key).value);
      } else {
        StepKeepsBounded(c, op, maxTotal);
      }
    } else {
      assert Block(op.key, op.bytes) in Step(c, op, maxTotal);
    }
  }

  // ---- what each operation leaves

  /** Taking out a key cuts its one block out of the list and leaves the order of the rest. */
  lemma {:induction false} WithoutCuts(c: Cache, key: Digest) returns (i: nat)
    requires Find(c, key).Some?
    ensures i < |c| && c[i] == Find(c, key).value && Without(c, key) == c[..i] + c[i + 1..]
  {
    i := 0;
    if c[0].key != key {
      i := WithoutCuts(c[1..], key);
      i := i + 1;
      assert c[..i] + c[i + 1..] == [c[0]] + (c[1..][..i - 1] + c[1..][i..]);
    }
  }

  /** After a deletion the block is gone and every other one is where it was. */
  lemma DeleteForgets(c: Cache, key: Digest, maxTotal: nat)
    requires DistinctKeys(c)
    ensures var d := Step(c, Op.Delete(key), maxTotal);
      && (forall b :: b in d ==> b.key != key)
      && (forall b :: b in c && b.key != key ==> b in d)
      && (d == c || exists i :: 0 <= i < |c| && c[i].key == key && d == c[..i] + c[i + 1..])
  {
    WithoutExact(c, key);
    if Find(c, key).Some? {
      var i := WithoutCuts(c, key);
    }
  }

  /** Once deleted, a block is not found again before it is stored again. */
  lemma {:induction false} DeletedStaysGone(c: Cache, key: Digest, ops: seq<Op>, maxTotal: nat)
    requires Bounded(c, maxTotal) && (forall b :: b in c ==> b.key != key)
    requires forall op :: op in ops ==> op.Store? ==> op.key != key && |op.bytes| <= maxTotal
    ensures Find(RunOps(c, ops, maxTotal), key).None?
    decreases |ops|
  {
    if ops != [] {
      assert ops[0] in ops;
      StepKeepsBounded(c, ops[0], maxTotal);
      DeletedStaysGone(Step(c, ops[0], maxTotal), key, ops[1..], maxTotal);
    }
  }

  /** A put or a read that finds its block makes it the most recent and leaves the order of the rest. */
  lemma UsedGoesLast(c: Cache, op: Op, maxTotal: nat) returns (i: nat)
    requires DistinctKeys(c) && !op.Delete? && Find(c, op.key).Some?
    ensures i < |c| && c[i].key == op.key && Step(c, op, maxTotal) == c[..i] + c[i + 1..] + [c[i]]
  {
    i := WithoutCuts(c, op.key);
  }

  /** A put of a block not cached yet appends it to what eviction leaves. */
  lemma StoredGoesLast(c: Cache, key: Digest, bytes: Bytes, maxTotal: nat) returns (n: nat)
    requires Find(c, key).None? && |bytes| <= maxTotal
    ensures n <= |c| && Step(c, Op.Store(key, bytes), maxTotal) == c[n..] + [Block(key, bytes)]
    ensures TotalBytes(c[n..]) + |bytes| <= maxTotal
    ensures forall m :: 0 <= m < n ==> TotalBytes(c[m..]) + |bytes| > maxTotal
  {
    n := EvictShape(c, |bytes|, maxTotal);
  }

  // ---- puts in two halves

  /** A put under way: the digest it computed, of the bytes it was called with. */
  datatype Pending = Pending(key: Digest, bytes: Bytes)

  datatype System = System(cache: Cache, puts: seq<Pending>)

  /** Call starts a put; Settle goes on with one after the digest, with the buffer as the caller left it. */
  datatype Action =
    | Call(bytes: Bytes, algorithm: string)
    | Settle(put: nat, now: Bytes)
    | Look(key: Digest)
    | Drop(key: Digest)

  function Perform(s: System, a: Action, hash: Hash, maxBlock: nat, maxTotal: nat): System {
    match a
    case Call(bytes, algorithm) =>
      if |bytes| > maxBlock then s
      else s.(puts := s.puts + [Pending(KeyOf(hash, bytes, algorithm), bytes)])
    case Settle(i, now) =>
      if i >= |s.puts| then s else s.(cache := Step(s.cache, Op.Store(s.puts[i].key, now), maxTotal))
    case Look(key) => s.(cache := Step(s.cache, Op.Fetch(key), maxTotal))
    case Drop(key) => s.(cache := Step(s.cache, Op.Delete(key), maxTotal))
  }

  function PerformAll(s: System, actions: seq<Action>, hash: Hash, maxBlock: nat, maxTotal: nat): System
    decreases |actions|
  {
    if actions == [] then s
    else PerformAll(Perform(s, actions[0], hash, maxBlock, maxTotal), actions[1..], hash, maxBlock, maxTotal)
  }

  /** What an action stores, if anything, is sound. */
  predicate ActsSoundly(s: System, a: Action, hash: Hash, maxBlock: nat) {
    a.Settle? && a.put < |s.puts| ==> StoresSound(s.cache, Op.Store(s.puts[a.put].key, a.now), hash, maxBlock)
  }

  ghost predicate AlwaysSound(s: System, actions: seq<Action>, hash: Hash, maxBlock: nat, maxTotal: nat)
    decreases |actions|
  {
    actions != [] ==>
      && ActsSoundly(s, actions[0], hash, maxBlock)
      && AlwaysSound(Perform(s, actions[0], hash, maxBlock, maxTotal), actions[1..], hash, maxBlock, maxTotal)
  }

  ghost predicate AlwaysValid(s: System, actions: seq<Action>, hash: Hash, maxBlock: nat, maxTotal: nat)
    decreases |actions|
  {
    && ValidCache(s.cache, hash, maxBlock, maxTotal)
    && (actions != [] ==>
          AlwaysValid(Perform(s, actions[0], hash, maxBlock, maxTotal), actions[1..], hash, maxBlock, maxTotal))
  }

  lemma PerformKeepsValid(s: System, a: Action, hash: Hash, maxBlock: nat, maxTotal: nat)
    requires maxBlock <= maxTotal && ValidCache(s.cache, hash, maxBlock, maxTotal)
    ensures ValidCache(Perform(s, a, hash, maxBlock, maxTotal).cache, hash, maxBlock, maxTotal)
      <==> ActsSoundly(s, a, hash, maxBlock)
  {
    match a
    case Call(_, _) =>
    case Settle(i, now) =>
      if i < |s.puts| {
        StepKeepsValid(s.cache, Op.Store(s.puts[i].key, now), hash, maxBlock, maxTotal);
      }
    case Look(key) => StepKeepsValid(s.cache, Op.Fetch(key), hash, maxBlock, maxTotal);
    case Drop(key) => StepKeepsValid(s.cache, Op.Delete(key), hash, maxBlock, maxTotal);
  }

  /** In any run, the cache is valid throughout if and only if every put stores bytes that still fit its key. */
  lemma {:induction false} ValidIffSound(s: System, actions: seq<Action>, hash: Hash, maxBlock: nat, maxTotal: nat)
    requires maxBlock <= maxTotal && ValidCache(s.cache, hash, maxBlock, maxTotal)
    ensures AlwaysValid(s, actions, hash, maxBlock, maxTotal) <==> AlwaysSound(s, actions, hash, maxBlock, maxTotal)
    decreases |actions|
  {
    if actions != [] {
      PerformKeepsValid(s, actions[0], hash, maxBlock, maxTotal);
      if ActsSoundly(s, actions[0], hash, maxBlock) {
        ValidIffSound(Perform(s, actions[0], hash, maxBlock, maxTotal), actions[1..], hash, maxBlock, maxTotal);
      }
    }
  }

  /** Callers leave a buffer alone until its put has settled. */
  ghost predicate Untouched(s: System, actions: seq<Action>, hash: Hash, maxBlock: nat, maxTotal: nat)
    decreases |actions|
  {
    actions != [] ==>
      && (actions[0].Settle? && actions[0].put < |s.puts| ==> actions[0].now == s.puts[actions[0].put].bytes)
      && Untouched(Perform(s, actions[0], hash, maxBlock, maxTotal), actions[1..], hash, maxBlock, maxTotal)
  }

  /** The digest of every put under way is that of the bytes it was called with. */
  ghost predicate Hashed(s: System, hash: Hash, maxBlock: nat) {
    forall i :: 0 <= i < |s.puts| ==> Sound(Block(s.puts[i].key, s.puts[i].bytes), hash, maxBlock)
  }

  /** With buffers left alone every block hashes to its key, however puts and reads interleave. */
  lemma {:induction false} UntouchedStaysValid(
      s: System, actions: seq<Action>, hash: Hash, maxBlock: nat, maxTotal: nat)
    requires maxBlock <= maxTotal && ValidCache(s.cache, hash, maxBlock, maxTotal)
    requires Hashed(s, hash, maxBlock) && Untouched(s, actions, hash, maxBlock, maxTotal)
    ensures AlwaysValid(s, actions, hash, maxBlock, maxTotal)
    decreases |actions|
  {
    if actions != [] {
      PerformKeepsValid(s, actions[0], hash, maxBlock, maxTotal);
      UntouchedStaysValid(Perform(s, actions[0], hash, maxBlock, maxTotal), actions[1..], hash, maxBlock, maxTotal);
    }
  }

  /** A buffer overwritten while its put computes the digest is cached under a key it does not hash to. */
  lemma OverwrittenBufferPoisons(before: Bytes, after: Bytes, hash: Hash, maxBlock: nat, maxTotal: nat)
    requires |before| == |after| <= maxBlock <= maxTotal && hash(after, "sha-256") != hash(before, "sha-256")
    ensures var key := KeyOf(hash, before, "sha-256");
      var s := PerformAll(System([], []), [Call(before, "sha-256"), Settle(0, after)], hash, maxBlock, maxTotal);
      s.cache == [Block(key, after)] && !ValidCache(s.cache, hash, maxBlock, maxTotal)
  {
    var call, settle := Call(before, "sha-256"), Settle(0, after);
    var called := Perform(System([], []), call, hash, maxBlock, maxTotal);
    assert [call, settle][1..] == [settle] && [settle][1..] == [];
    assert PerformAll(called, [settle], hash, maxBlock, maxTotal) == Perform(called, settle, hash, maxBlock, maxTotal);
    assert Block(KeyOf(hash, before, "sha-256"), after) in Perform(called, settle, hash, maxBlock, maxTotal).cache;
  }

  // ---- the working-set guarantee

  /** A block as far as the budget is concerned. */
  datatype Use = Use(key: Digest, size: nat)

  function UseOf(b: Block): Use { Use(b.key, |b.bytes|) }

  function UsesOf(c: Cache): seq<Use> { seq(|c|, i requires 0 <= i < |c| => UseOf(c[i])) }

  function TotalUses(us: seq<Use>): nat {
    if us == [] then 0 else us[0].size + TotalUses(us[1..])
  }

  /** The block an operation puts or hits, if any. */
  function Touched(c: Cache, op: Op): Option<Use> {
    match op
    case Store(key, bytes) =>
      (match Find(c, key)
       case Some(existing) => Some(UseOf(existing))
       case None => Some(Use(key, |bytes|)))
    case Fetch(key) =>
      (match Find(c, key)
       case Some(existing) => Some(UseOf(existing))
       case None => None)
    case Delete(_) => None
  }

  /** The distinct other blocks touched since a block's last use, after one more operation. */
  function TrackOthers(others: seq<Use>, key: Digest, touched: Option<Use>): seq<Use> {
    match touched
    case None => others
    case Some(u) =>
      if u.key == key then [] else if u in others then others else others + [u]
  }

  /** Everything more recent than the block is among the others touched since its last use. */
  ghost predicate Behind(c: Cache, b: Block, others: seq<Use>, p: nat) {
    p < |c| && c[p] == b && forall i :: p < i < |c| ==> UseOf(c[i]) in others
  }

  /** The operations leave the block alone and the working set within the budget, at every point. */
  ghost predicate WithinBudget(c: Cache, b: Block, others: seq<Use>, ops: seq<Op>, maxTotal: nat)
    decreases |ops|
  {
    ops != [] ==>
      var others' := TrackOthers(others, b.key, Touched(c, ops[0]));
      && ops[0] != Delete(b.key)
      && |b.bytes| + TotalUses(others') <= maxTotal
      && WithinBudget(Step(c, ops[0], maxTotal), b, others', ops[1..], maxTotal)
  }

  function RunOps(c: Cache, ops: seq<Op>, maxTotal: nat): Cache
    decreases |ops|
  {
    if ops == [] then c else RunOps(Step(c, ops[0], maxTotal), ops[1..], maxTotal)
  }

  lemma {:induction false} TotalUsesConcat(a: seq<Use>, b: seq<Use>)
    ensures TotalUses(a + b) == TotalUses(a) + TotalUses(b)
  {
    if a == [] {
      assert a + b == b;
    } else {
      assert (a + b)[1..] == a[1..] + b;
      TotalUsesConcat(a[1..], b);
    }
  }

  /** Distinct uses all found in a list weigh no more than the list. */
  lemma {:induction false} IncludedWeighsLess(us: seq<Use>, vs: seq<Use>)
    requires forall i, j :: 0 <= i < j < |us| ==> us[i] != us[j]
    requires forall i :: 0 <= i < |us| ==> us[i] in vs
    ensures TotalUses(us) <= TotalUses(vs)
  {
    if us != [] {
      var k :| 0 <= k < |vs| && vs[k] == us[0];
      var rest := vs[..k] + vs[k + 1..];
      forall i | 0 <= i < |us[1..]| ensures us[1..][i] in rest {
        var j :| 0 <= j < |vs| && vs[j] == us[i + 1];
        assert j != k;
        assert if j < k then rest[j] == vs[j] else rest[j - 1] == vs[j];
      }
      IncludedWeighsLess(us[1..], rest);
      TotalUsesConcat(vs[..k], vs[k + 1..]);
      TotalUsesConcat(vs[..k], [vs[k]] + vs[k + 1..]);
      assert vs == vs[..k] + ([vs[k]] + vs[k + 1..]);
      assert ([vs[k]] + vs[k + 1..])[1..] == vs[k + 1..];
    }
  }

  lemma {:induction false} UsesWeigh(c: Cache)
    ensures TotalUses(UsesOf(c)) == TotalBytes(c)
  {
    if c != [] {
      UsesWeigh(c[1..]);
      assert UsesOf(c)[1..] == UsesOf(c[1..]);
    }
  }

  /** What is more recent than the block, with a new block, weighs no more than the others touched. */
  lemma RecentWeighs(c: Cache, b: Block, others: seq<Use>, p: nat, added: Block)
    requires DistinctKeys(c) && Behind(c, b, others, p) && Find(c, added.key).None? && UseOf(added) in others
    ensures TotalBytes(c[p..]) + |added.bytes| <= |b.bytes| + TotalUses(others)
  {
    var recent := c[p + 1..] + [added];
    var us := UsesOf(recent);
    forall i | 0 <= i < |us| ensures us[i] in others {
      assert i < |recent| - 1 ==> recent[i] == c[p + 1 + i];
    }
    forall i, j | 0 <= i < j < |us| ensures us[i] != us[j] {
      assert recent[i] == c[p + 1 + i];
      assert recent[i] in c;
    }
    IncludedWeighsLess(us, others);
    UsesWeigh(recent);
    TotalConcat(c[p + 1..], [added]);
    assert TotalBytes([added]) == |added.bytes| by { assert [added][1..] == []; }
    assert c[p..][1..] == c[p + 1..];
  }

  /** A new block within the working set never pushes the tracked block out. */
  lemma InsertSpares(c: Cache, b: Block, others: seq<Use>, p: nat, added: Block, maxTotal: nat) returns (q: nat)
    requires DistinctKeys(c) && Behind(c, b, others, p) && Find(c, added.key).None?
    requires UseOf(added) in others && |added.bytes| <= maxTotal
    requires |b.bytes| + TotalUses(others) <= maxTotal
    ensures Behind(Evict(c, |added.bytes|, maxTotal) + [added], b, others, q)
  {
    var n := EvictShape(c, |added.bytes|, maxTotal);
    RecentWeighs(c, b, others, p, added);
    assert n <= p;
    q := p - n;
    assert forall i :: 0 <= i < |c| - n ==> c[n..][i] == c[n + i];
  }

  lemma {:induction false} WithoutBehind(c: Cache, key: Digest, b: Block, others: seq<Use>, p: nat) returns (q: nat)
    requires DistinctKeys(c) && Behind(c, b, others, p) && key != b.key
    ensures Behind(Without(c, key), b, others, q)
  {
    if c[0].key == key {
      q := p - 1;
      assert forall i :: 0 <= i < |c| - 1 ==> c[1..][i] == c[i + 1];
    } else if p == 0 {
      q := 0;
      var rest := Without(c[1..], key);
      WithoutExact(c[1..], key);
      forall i | 0 <= i < |rest| ensures UseOf(rest[i]) in others {
        assert rest[i] in c[1..];
      }
    } else {
      assert Behind(c[1..], b, others, p - 1);
      q := WithoutBehind(c[1..], key, b, others, p - 1);
      q := q + 1;
    }
  }

  lemma RefreshBehind(c: Cache, x: Block, b: Block, others: seq<Use>, p: nat) returns (q: nat)
    requires DistinctKeys(c) && Behind(c, b, others, p) && x in c
    requires x.key != b.key ==> UseOf(x) in others
    ensures Behind(Refresh(c, x), b, if x.key == b.key then [] else others, q)
  {
    WithoutExact(c, x.key);
    if x.key == b.key {
      var i :| 0 <= i < |c| && c[i] == x;
      assert i == p;
      q := |Without(c, x.key)|;
    } else {
      q := WithoutBehind(c, x.key, b, others, p);
    }
  }

  lemma BehindMore(c: Cache, b: Block, others: seq<Use>, more: seq<Use>, p: nat)
    requires Behind(c, b, others, p) && forall u :: u in others ==> u in more
    ensures Behind(c, b, more, p)
  {
  }

  lemma SparesHit(c: Cache, b: Block, others: seq<Use>, p: nat, x: Block) returns (q: nat)
    requires DistinctKeys(c) && Behind(c, b, others, p) && x in c
    ensures Behind(Refresh(c, x), b, TrackOthers(others, b.key, Some(UseOf(x))), q)
  {
    if x.key == b.key {
      q := RefreshBehind(c, x, b, others, p);
    } else {
      var others' := TrackOthers(others, b.key, Some(UseOf(x)));
      BehindMore(c, b, others, others', p);
      q := RefreshBehind(c, x, b, others', p);
    }
  }

  lemma {:induction false} UseWeighs(us: seq<Use>, u: Use)
    requires u in us
    ensures u.size <= TotalUses(us)
  {
    if u != us[0] {
      UseWeighs(us[1..], u);
    }
  }

  /** A step within the working set's budget keeps the tracked block, and the cache bounded. */
  lemma StepSpares(c: Cache, b: Block, others: seq<Use>, p: nat, op: Op, maxTotal: nat) returns (q: nat)
    requires Bounded(c, maxTotal) && Behind(c, b, others, p) && op != Delete(b.key)
    requires |b.bytes| + TotalUses(TrackOthers(others, b.key, Touched(c, op))) <= maxTotal
    ensures Behind(Step(c, op, maxTotal), b, TrackOthers(others, b.key, Touched(c, op)), q)
  {
    q := p;
    match op
    case Delete(key) => q := WithoutBehind(c, key, b, others, p);
    case Fetch(key) =>
      if Find(c, key).Some? {
        q := SparesHit(c, b, others, p, Find(c, key).value);
      }
    case Store(key, bytes) =>
      match Find(c, key) {
        case Some(existing) => q := SparesHit(c, b, others, p, existing);
        case None =>
          assert b in c && key != b.key;
          var others' := TrackOthers(others, b.key, Some(Use(key, |bytes|)));
          UseWeighs(others', Use(key, |bytes|));
          BehindMore(c, b, others, others', p);
          q := InsertSpares(c, b, others', p, Block(key, bytes), maxTotal);
      }
  }

  lemma StepWithinStaysBounded(c: Cache, b: Block, others: seq<Use>, op: Op, maxTotal: nat)
    requires Bounded(c, maxTotal) && b in c
    requires |b.bytes| + TotalUses(TrackOthers(others, b.key, Touched(c, op))) <= maxTotal
    ensures Bounded(Step(c, op, maxTotal), maxTotal)
  {
    if op.Store? && Find(c, op.key).Some? {
      RefreshKeeps(c, Find(c, op.key).value);
    } else {
      if op.Store? {
        UseWeighs(TrackOthers(others, b.key, Touched(c, op)), Use(op.key, |op.bytes|));
      }
      StepKeepsBounded(c, op, maxTotal);
    }
  }

  /**
   * The working-set guarantee over any run: a block that is never deleted stays cached as long as
   * its size and those of the distinct other blocks touched since its last use fit the budget.
   */
  lemma {:induction false} WorkingSetStaysCached(
      c: Cache, b: Block, others: seq<Use>, p: nat, ops: seq<Op>, maxTotal: nat)
    requires Bounded(c, maxTotal) && Behind(c, b, others, p) && WithinBudget(c, b, others, ops, maxTotal)
    ensures b in RunOps(c, ops, maxTotal)
    decreases |ops|
  {
    assert c[p] == b;
    if ops != [] {
      var q := StepSpares(c, b, others, p, ops[0], maxTotal);
      StepWithinStaysBounded(c, b, others, ops[0], maxTotal);
      var others' := TrackOthers(others, b.key, Touched(c, ops[0]));
      WorkingSetStaysCached(Step(c, ops[0], maxTotal), b, others', q, ops[1..], maxTotal);
    }
  }

  // ---- the store

  class Store {
    const maxBlockBytes: nat
    const maxTotalBytes: nat
    const hash: Hash
    var blocks: Cache
    var total: nat

    constructor (maxBlockBytes: nat, maxTotalBytes: nat, hash: Hash)
      requires 1 <= maxBlockBytes <= maxTotalBytes
      ensures Valid() && Truthful() && blocks == []
      ensures this.maxBlockBytes == maxBlockBytes && this.maxTotalBytes == maxTotalBytes && this.hash == hash
    {
      this.maxBlockBytes, this.maxTotalBytes, this.hash := maxBlockBytes, maxTotalBytes, hash;
      blocks, total := [], 0;
    }

    ghost predicate Valid()
      reads this
    {
      maxBlockBytes <= maxTotalBytes && DistinctKeys(blocks) && total == TotalBytes(blocks)
    }

    /** Within the budget, and every block hashes to its key. */
    ghost predicate Truthful()
      reads this
    {
      ValidCache(blocks, hash, maxBlockBytes, maxTotalBytes)
    }

    /** The first half of a put, at the call: None for a block over the cap, otherwise the digest. */
    method StartPut(bytes: Bytes, algorithm: string) returns (digest: Option<Digest>)
      ensures digest.None? <==> |bytes| > maxBlockBytes
      ensures digest.Some? ==> Sound(Block(digest.value, bytes), hash, maxBlockBytes)
      ensures digest.Some? ==> digest.value.algorithm == algorithm
    {
      if |bytes| > maxBlockBytes {
        return None;
      }
      return Some(KeyOf(hash, bytes, algorithm));
    }

    /** The second half, after the digest: stores what the buffer holds by now. */
    method FinishPut(key: Digest, bytes: Bytes)
      requires Valid()
      modifies this
      ensures Valid() && blocks == Step(old(blocks), Op.Store(key, bytes), maxTotalBytes)
      ensures old(Truthful()) ==>
        (Truthful() <==> StoresSound(old(blocks), Op.Store(key, bytes), hash, maxBlockBytes))
    {
      ghost var before := blocks;
      if ValidCache(before, hash, maxBlockBytes, maxTotalBytes) {
        StepKeepsValid(before, Op.Store(key, bytes), hash, maxBlockBytes, maxTotalBytes);
      }
      var existing := Find(blocks, key);
      if existing.Some? {
        RefreshKeeps(blocks, existing.value);
        blocks := Without(blocks, key) + [existing.value];
        return;
      }
      while total + |bytes| > maxTotalBytes && |blocks| > 0
        invariant Valid() && Find(blocks, key).None?
        invariant Evict(blocks, |bytes|, maxTotalBytes) == Evict(before, |bytes|, maxTotalBytes)
        decreases |blocks|
      {
        total := total - |blocks[0].bytes|;
        blocks := blocks[1..];
      }
      TotalConcat(blocks, [Block(key, bytes)]);
      assert TotalBytes([Block(key, bytes)]) == |bytes| by { assert [Block(key, bytes)][1..] == []; }
      blocks := blocks + [Block(key, bytes)];
      total := total + |bytes|;
    }

    method Delete(key: Digest) returns (deleted: bool)
      requires Valid()
      modifies this
      ensures Valid() && blocks == Step(old(blocks), Op.Delete(key), maxTotalBytes)
      ensures old(Truthful()) ==> Truthful()
      ensures deleted <==> exists b :: b in old(blocks) && b.key == key
    {
      WithoutExact(blocks, key);
      var existing := Find(blocks, key);
      if existing.None? {
        return false;
      }
      blocks := Without(blocks, key);
      total := total - |existing.value.bytes|;
      return true;
    }

    /** source is absent for a request that names its block other than by digest. */
    method FetchBlock(source: Option<Digest>) returns (found: Option<Bytes>)
      requires Valid()
      modifies this
      ensures Valid() && (old(Truthful()) ==> Truthful())
      ensures blocks == if source.Some? then Step(old(blocks), Op.Fetch(source.value), maxTotalBytes) else old(blocks)
      ensures found.Some? ==> source.Some? && Block(source.value, found.value) in old(blocks)
      ensures found.Some? && old(Truthful()) ==> hash(found.value, source.value.algorithm) == source.value.value
      ensures found.None? ==> source.None? || forall b :: b in old(blocks) ==> b.key != source.value
    {
      if source.None? {
        return None;
      }
      var existing := Find(blocks, source.value);
      if existing.None? {
        return None;
      }
      RefreshKeeps(blocks, existing.value);
      blocks := Without(blocks, source.value) + [existing.value];
      return Some(existing.value.bytes);
    }
  }
}
