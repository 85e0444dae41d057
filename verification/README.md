# Verified model of the peer-to-peer core

This project models the parts of the repository where a mistake is easy to make and hard to see, and
proves what those parts are for. Run `dafny verify dfyconfig.toml` to check all of it.

| component | files |
|---|---|
| capability delegation graph and authorization | `DelegationGraph.dfy`, `ProofChains.dfy`, `Authorization.dfy` |
| bridge stores: one log, three implementations | `BridgeLog.dfy`, `BridgeRetention.dfy`, `BridgeStores.dfy` |
| live-stream handshake: broker, sockets, interleavings | `StreamBroker.dfy`, `StreamHandshake.dfy`, `StreamDelivery.dfy`, `StreamOrder.dfy` |
| codecs: base58btc, base32, varints and CIDs, canonical JSON, key packages | `Positional.dfy`, `Base58.dfy`, `Base32.dfy`, `Cid.dfy`, `JcsText.dfy`, `Jcs.dfy`, `JcsParser.dfy`, `PrivateKeyPackage.dfy` |
| identity control log and its proof verifier | `ControlLog.dfy`, `ControlLogReading.dfy`, `ControlLogHistory.dfy` |
| block cache, circuit breaker, retrieval | `MemoryBlockStore.dfy`, `FetcherHealth.dfy`, `BlockStore.dfy` |
| send budget and capability projection | `SendBudget.dfy`, `CapabilityProjection.dfy` |

Objects that the source updates in place are classes here; each of their methods is proved equal to a
function on values, and the runs, interleavings and orderings are then studied on those functions. Where
the source computes with expressions and recursion, so does the model.

## Main results

- Cycle detection is exact, the enumerated paths are exactly the simple proof chains, and authorization
  holds exactly when the graph is acyclic and some chain attenuates, is in its window and is unrevoked.
  One more revocation record stops exactly the chains through a grant that it hits
  (`AuthorizedAfterRevoking`).
- Memory, file and SQL stores, driven by any operations under a clock that never goes back and with
  expiry texts that sort among the clock's as their times do, give the same answers (`DriveStores`); a
  draft whose text does not is told apart by a put and a get (`DraftShowsIffUnfit`, `TellApart`). A
  record is found again until it expires or as many records as the capacity were put after it
  (`PutIsFound`), and under one time to live what is held is exactly the newest (`HeldIsNewest`).
- The stream handshake, whatever it read, delivers each record exactly once in every continuation if and
  only if four checks hold when it goes live: the cursor is not ahead, nothing the backlog has is still to
  be published, the page reached what had been published before subscribing, and nothing published since
  was gone from the store and passed over (`ExactIffDeliverable`). What had expired or been evicted before
  the client subscribed is not expected of it. It delivers in order if and only if the records are
  published in the order they were stored (`InOrderIffPublishedInOrder`).
- base58btc is a bijection, base32 inverts RFC 4648 through a wrapping accumulator, varints and CIDs are
  accepted exactly when minimal, canonical JSON identifies values and parses back to them by the grammar
  of RFC 8259, key packages have one layout.
- The identity projection is what the events of the log tell, field by field (`FoldReads`), exists exactly
  for logs each of whose events may follow those before it (`FoldsIffAdmissible`), and does not depend on
  the order of arrival; nor does the verifier's verdict.
- The cache keeps any working set within its byte budget; retrieval is bounded, verified before use, and
  fails only after every fetcher was asked and none of them, however often it first fails in a way worth a
  retry, gives a correct answer within the attempts allowed while its breaker, half-open or closed, admits
  them. A breaker that has seen only failures admits exactly from the end of its doubled and capped
  cooldown on (`FailingClientAdmittedIff`).
- The send budget decides each request by what it granted before (`DecisionByGrants`).

## Where the code and its description differ

The model follows the code.

- `apps/bridge-service/src/stream-broker.ts:48-53` says that the handshake closes both the gap and the
  double delivery. `apps/bridge-service/src/service.ts:141-178` stores, waits for the put to settle, and
  then publishes, so this depends on the store behind `apps/bridge-service/src/types.ts:215-224`: with one
  whose puts settle later than reads that already show their records, a record arrives twice
  (`LateSettlingPutDuplicates`), and with one whose puts settle out of order, live records arrive out of
  order (`LaterPutFirstSwaps`). The three stores of the repository are of neither kind: after a put to
  the memory store the delivery publishes before another event is handled, and the file and SQL stores
  queue a read behind the put's lock, so that the delivery resumes before the read's caller does. That
  scheduling is an argument about the event loop which the model does not contain; what it yields is the
  hypothesis of `DeliveredExactlyOnce`, that going live follows the publication of what had been stored
  by the read.
- The same comment promises that no record falls between backlog and live. One that is published after
  subscribing and evicted or expired before the read, while a later one is read, does: the drain drops it
  as covered (`EvictedMeanwhileIsPassedOver`). What a page that is too small leaves out is never sent if it
  had been published before subscribing (`BeyondPageNeverSent`), and sent if it was published since
  (`BeyondPageSentIff`).
- `packages/block-store/src/memory-fetcher.ts:26-30` says that no block can be cached under a digest it
  does not hash to. `put` copies the caller's buffer only after waiting for the digest, so a buffer
  overwritten meanwhile is cached under the digest of its former contents
  (`OverwrittenBufferPoisons`). The cache stays true exactly when every put stores bytes that still fit
  its digest (`ValidIffSound`), in particular when callers leave buffers alone (`UntouchedStaysValid`).
- `packages/content-addressing/src/base32.ts:38-45` takes zero leftover bits to mean a canonical encoding.
  That is so exactly for lengths other than 1, 3 and 6 modulo 8 (`AcceptedIsCanonicalIff`).
- The delay of a minimum-interval deferral in `apps/pwa/src/pwa-send-budget.ts:65-70` can be too long,
  because a new window forgets the last acceptance, and too short, because the window may be full or the
  clock may have gone back (`MinimumIntervalRetryExactIff` and the three inputs beside it).
- `apps/bridge-service/src/sql-store.ts:227-231` compares expiries as texts where the other stores compare
  times. The two agree at every instant exactly for the texts that sort after all earlier instants of the
  clock and after no later one (`AgreesIffTextFits`). What toISOString writes, as the service does, is such
  a text (`IsoTextFits`); a timestamp written without milliseconds, which the drafts' validation lets
  through, is not and outlives its instant in the SQL store alone (`TextExpiryDiverges`).

## Model

| member | source | states |
|---|---|---|
| `DelegationGraph.CapabilityDelegationGraph.AddGrant` | packages/capabilities/src/delegation-graph.ts:53-56 | A grant that validates replaces the one under its id, any other changes nothing, and revocations are never touched |
| `DelegationGraph.CapabilityDelegationGraph.AddRevocation` | packages/capabilities/src/delegation-graph.ts:58-62 | A record that validates is appended to those of its capability, those of every other capability stay, and one that does not changes nothing |
| `DelegationCycles.RankedIsAcyclic` | packages/capabilities/src/delegation-graph.ts:85-93 | A finishing order that descends along every citation, over all grants, rules out every cycle |
| `DelegationCycles.CycleSearch.HasCycleFrom` | packages/capabilities/src/delegation-graph.ts:69-87 | A hit is a real cycle; a miss leaves the search as it was, with the grant ranked below all that cite it; ends on every graph |
| `DelegationCycles.DetectDelegationCycle` | packages/capabilities/src/delegation-graph.ts:65-94 | True if and only if the citations among the graph's own grants have a directed cycle, self-loops included |
| `ProofChains.ChainsExact` | packages/capabilities/src/delegation-graph.ts:102-129 | A traversal call finds a chain if and only if it is simple, avoids what was visited and extends the partial chain up to a root |
| `ProofChains.ChainsOnce` | packages/capabilities/src/delegation-graph.ts:102-129 | No chain is found twice |
| `ProofChains.PathCollector.Traverse` | packages/capabilities/src/delegation-graph.ts:102-129 | The recursive pushes add the paths of exactly those chains to the shared list, in order |
| `ProofChains.CreatePath` | packages/capabilities/src/delegation-graph.ts:135-151 | Each edge runs from one grant of the chain to the next one and nothing else is added |
| `ProofChains.EdgeCites` | packages/capabilities/src/delegation-graph.ts:135-151 | Every edge of a path runs from a cited grant to the one that cites it |
| `ProofChains.BuildCapabilityProofGraph` | packages/capabilities/src/delegation-graph.ts:96-133 | The result holds every simple chain from a grant without proofs down to the capability and nothing else, each once, on cyclic graphs too |
| `Authorization.StepsAttenuate` | packages/capabilities/src/delegation-graph.ts:153-221 | Checking neighbours is the same as every ancestor bounding every descendant in actions, resource, scope, times and remaining depth |
| `Authorization.ValidateDelegationPath` | packages/capabilities/src/delegation-graph.ts:223-233 | Accepts exactly the paths that attenuate as a whole, every grant of a longer one being valid, and throws exactly when a step is reached whose grants do not validate |
| `Authorization.IsDelegationPathValid` | packages/capabilities/src/delegation-graph.ts:235-274 | Accepts exactly when the path is accepted, the time parses, and every grant is in its window and unrevoked by its own issuer; throws exactly where the path check throws |
| `Authorization.IsCapabilityAuthorized` | packages/capabilities/src/delegation-graph.ts:276-289 | True if and only if the graph is acyclic and some proof chain of the capability authorizes at that time |
| `Authorization.RevokingNeverAuthorizes` | packages/capabilities/src/delegation-graph.ts:262-270 | One more revocation record never turns a refusal into an authorization |
| `Authorization.AuthorizedAfterRevoking` | packages/capabilities/src/delegation-graph.ts:58-62 | With one more record a capability is authorized exactly by the chains on which no grant is hit by it, that is, named by it, issued by its author, from its time on |
| `Authorization.RevokedPathNeverAuthorizes` | packages/capabilities/src/delegation-graph.ts:262-270 | No path through a grant authorizes while the graph holds a record in effect by the grant's issuer |
| `Authorization.EveryChainRevoked` | packages/capabilities/src/delegation-graph.ts:276-289 | A capability whose every chain passes through a revoked grant is not authorized |
| `Authorization.RevokedIsUnauthorized` | packages/capabilities/src/delegation-graph.ts:262-270 | In particular one whose own grant its issuer has revoked |
| `Authorization.PathDeadlineExact` | packages/capabilities/src/delegation-graph.ts:262-270 | A time is before the path's deadline exactly when it is before the expiry and no grant is revoked by its issuer yet |
| `Authorization.ValidTimesAreOneInterval` | packages/capabilities/src/delegation-graph.ts:249-273 | The times at which an attenuating path authorizes run from the leaf's start to the leaf's expiry or the earliest issuer revocation, without a gap |
| `Authorization.AuthorizedTracesToRoot` | packages/capabilities/src/delegation-graph.ts:276-289 | Every authorized capability has a chain to a grant without proofs that bounds it and whose depth pays for each step |
| `BridgeLog.ApplyKeepsOrder` | apps/bridge-service/src/utils.ts:73-86 | Every operation keeps records in strictly increasing sequence with unique keys, the capacity, and a counter that never goes back |
| `BridgeLog.PruneTwice` | apps/bridge-service/src/utils.ts:82-86 | Pruning at a later time makes an earlier pruning unobservable |
| `BridgeRetention.NextSequenceLeast` | apps/bridge-service/src/utils.ts:73-75 | A new sequence is the least above the counter that is not behind the clock in microseconds, while that is safe |
| `BridgeRetention.PutKeepsIff` | apps/bridge-service/src/stores.ts:111-124 | An insertion keeps a record exactly if it has not expired and the unexpired records after it leave room for the new one |
| `BridgeRetention.StaysHeld` | apps/bridge-service/src/stores.ts:57-66 | Over any run a record goes only by expiry or by as many records as the capacity coming after it |
| `BridgeRetention.PutIsFound` | apps/bridge-service/src/stores.ts:51-66 | What was put is found again, and its key not taken again, until it expires or as many records as the capacity have been put after it |
| `BridgeRetention.HeldIsNewest` | apps/bridge-service/src/stores.ts:111-124 | With a clock that never goes back and records expiring in the order of insertion, what is held is exactly the newest unexpired, as many as the capacity |
| `BridgeRetention.ListAfterExact` | apps/bridge-service/src/stores.ts:68-89 | A page holds, in order, the first records of the stream after the cursor that carry an event, as many as the limit |
| `BridgeLog.ScanAfter` | apps/bridge-service/src/stores.ts:77-88 | The early-exit scan returns the first matches in sequence order, up to the limit |
| `BridgeLog.PagesCoverSelection` | apps/bridge-service/src/stores.ts:68-89 | Paging from the last sequence seen yields every retained record after the cursor once, in order |
| `MemoryBridgeStore.InMemoryBridgeStore.EvictExpired` | apps/bridge-service/src/stores.ts:111-116 | Deleting while iterating leaves exactly the unexpired records, in order |
| `MemoryBridgeStore.InMemoryBridgeStore.EvictToCapacity` | apps/bridge-service/src/stores.ts:118-124 | Deleting from the front leaves the newest records, one fewer than the capacity at most |
| `MemoryBridgeStore.InMemoryBridgeStore.Get` | apps/bridge-service/src/stores.ts:51-55 | Answers and changes the store as the reference log does |
| `MemoryBridgeStore.InMemoryBridgeStore.PutIfAbsent` | apps/bridge-service/src/stores.ts:57-66 | Idempotent insertion as in the reference log: the existing record, or a new one at the next sequence after eviction |
| `MemoryBridgeStore.InMemoryBridgeStore.ListAfter` | apps/bridge-service/src/stores.ts:68-89 | Lists as the reference log does |
| `JsonBridgeStore.JsonFileBridgeStore.LoadFreshState` | apps/bridge-service/src/stores.ts:242-260 | The state read back never counts below the configured start or its records; a missing file starts an empty one; one that does not parse or validate fails and changes nothing |
| `JsonBridgeStore.ValidatedIsLeast` | apps/bridge-service/src/utils.ts:105-113 | The counter read back is the least that is behind neither the configured start, nor the file, nor any of its records |
| `JsonBridgeStore.PutLeavesBothEqual` | apps/bridge-service/src/stores.ts:160-178 | A put leaves file and copy equal and free of what had expired |
| `JsonBridgeStore.PruningReachesFile` | apps/bridge-service/src/stores.ts:206-212 | Pruning frees file and copy of what had expired |
| `JsonBridgeStore.ReadsSpareFile` | apps/bridge-service/src/stores.ts:151-204 | Reads never write the file, except to create it |
| `JsonBridgeStore.JsonFileBridgeStore.PruneCachedStateOnly` | apps/bridge-service/src/stores.ts:262-264 | The pruned state is what is cached, whether or not it was written back |
| `JsonBridgeStore.JsonFileBridgeStore.Get` | apps/bridge-service/src/stores.ts:151-158 | Reads through the cache and prunes only the cache |
| `JsonBridgeStore.JsonFileBridgeStore.PutIfAbsent` | apps/bridge-service/src/stores.ts:160-178 | Reloads the file, and file and cache end up equal |
| `JsonBridgeStore.JsonFileBridgeStore.ListAfter` | apps/bridge-service/src/stores.ts:180-204 | Lists from the cache and prunes only the cache |
| `JsonBridgeStore.JsonFileBridgeStore.PruneExpired` | apps/bridge-service/src/stores.ts:206-212 | Reloads the file and writes it only when something expired |
| `JsonBridgeStore.DiskStepRefines` | apps/bridge-service/src/stores.ts:127-281 | While the clock does not go back, every operation on file and cache answers as the log does and both copies keep representing it |
| `JsonBridgeStore.ClockGoingBackDiverges` | apps/bridge-service/src/stores.ts:262-272 | A concrete run with a clock that goes back in which the file store finds a record that the log has expired |
| `SqlBridgeStore.SelectOrdered` | apps/bridge-service/src/sql-store.ts:120-127 | Selecting by ascending sequence with a limit yields the first rows of the sequence order |
| `SqlBridgeStore.DeleteSmallest` | apps/bridge-service/src/sql-store.ts:240-249 | Deleting the smallest sequences by subquery drops exactly the oldest rows |
| `SqlBridgeStore.PgliteBridgeStore.DeleteExpired` | apps/bridge-service/src/sql-store.ts:227-231 | Deletes exactly the rows whose expiry text is not after the text of the clock, and keeps the sequence order of the rest |
| `SqlBridgeStore.SqlApplyIsApply` | apps/bridge-service/src/sql-store.ts:227-231 | Where expiry texts fit their times, expiring by text is expiring by time in every operation, and stays so |
| `SqlBridgeStore.AgreesIffTextFits` | apps/bridge-service/src/sql-store.ts:227-231 | A timestamp expires by text when it expires by time, at every instant of the clock, if and only if its text sorts after the instant before it and not after its own |
| `SqlBridgeStore.IsoTextFits` | apps/bridge-service/src/service.ts:149-149 | What toISOString writes fits |
| `SqlBridgeStore.DraftShowsIffUnfit` | apps/bridge-service/src/sql-store.ts:68-108 | Putting a draft and getting it answers alike with both ways of expiring, at every instant, if and only if its expiry text fits |
| `SqlBridgeStore.TextExpiryDiverges` | apps/bridge-service/src/sql-store.ts:227-231 | A timestamp without milliseconds is still found at its instant by the SQL store and by no other |
| `SqlBridgeStore.PgliteBridgeStore.Init` | apps/bridge-service/src/sql-store.ts:172-210 | Creating the tables, or opening those of an earlier store with a larger counter, is invisible from outside |
| `SqlBridgeStore.PgliteBridgeStore.EvictToCapacity` | apps/bridge-service/src/sql-store.ts:233-250 | Smallest-sequence deletion is oldest-first eviction |
| `SqlBridgeStore.PgliteBridgeStore.Get` | apps/bridge-service/src/sql-store.ts:68-75 | Expires rows by text, then answers as the reference log does |
| `SqlBridgeStore.PgliteBridgeStore.PutIfAbsent` | apps/bridge-service/src/sql-store.ts:77-108 | Expires rows by text, then inserts or finds as the reference log does, the reserved sequence being above every row |
| `SqlBridgeStore.PgliteBridgeStore.ListAfter` | apps/bridge-service/src/sql-store.ts:110-130 | Expires rows by text, then lists as the reference log does, although the table has no order of its own |
| `BridgeStoreEquivalence.DiskRunMatchesLog` | apps/bridge-service/src/stores.ts:127-281 | Over any run under a clock that never goes back the file store answers as the log |
| `BridgeStoreEquivalence.DriveStores` | apps/bridge-service/src/types.ts:215-224 | The three stores, started alike and driven by the same operations with expiry texts that fit their times, give the same answers |
| `BridgeStoreEquivalence.TellApart` | apps/bridge-service/src/types.ts:215-224 | For any draft whose expiry text does not fit there is an instant at which a put and a get answer alike in the other two stores and differently in the SQL store |
| `StreamBroker.BridgeStreamBroker.Subscribe` | apps/bridge-service/src/stream-broker.ts:142-163 | A new buffering subscription enters its stream's bucket and no other changes |
| `StreamBroker.BridgeStreamBroker.Unsubscribe` | apps/bridge-service/src/stream-broker.ts:184-193 | Closes one subscription, drops its buffer, and keeps the buckets listing exactly the open ones |
| `StreamBroker.BridgeStreamBroker.GoLive` | apps/bridge-service/src/stream-broker.ts:167-183 | Live before the drain; the buffered records beyond the given sequence go out in sequence order until a send fails |
| `StreamBroker.BridgeStreamBroker.Publish` | apps/bridge-service/src/stream-broker.ts:200-234 | Reaches every open subscription of the stream, each as if it were alone, and no other; buffers stay within the cap |
| `StreamBroker.BridgeStreamBroker.SendFrame` | apps/bridge-service/src/stream-socket.ts:236-264 | A failed send closes the socket, which unsubscribes |
| `StreamBroker.BridgeStreamBroker.CloseSocket` | apps/bridge-service/src/stream-socket.ts:214-234 | Closing unsubscribes and sends nothing |
| `StreamBroker.BridgeStreamBroker.FinishSubscribe` | apps/bridge-service/src/stream-socket.ts:345-369 | Backlog frame first, then the drain beyond it, and neither on a closed socket |
| `StreamBroker.BucketCovers` | apps/bridge-service/src/stream-broker.ts:207-213 | Publishing to a stream's bucket is publishing to the stream: what the bucket leaves out is closed |
| `StreamChannel.DeliverAllSends` | apps/bridge-service/src/stream-broker.ts:182-182 | A drain that leaves the socket open sent every record in order |
| `StreamHandshake.StepKeepsInv` | apps/bridge-service/src/stream-socket.ts:295-371 | Every step of every interleaving, puts settling in any order, keeps each stored record published once or pending, the buffer equal to what was published since subscribing, and the backlog the first of what the store held |
| `StreamHandshake.OverflowIsBoundedAndFatal` | apps/bridge-service/src/stream-broker.ts:214-227 | In any run the buffer stays within its cap, and overflow fires at most once and ends the connection |
| `StreamHandshake.OverflowsExactlyBeyondCap` | apps/bridge-service/src/stream-broker.ts:214-229 | Between subscribing and going live, undisturbed, the socket is open if and only if no more records of the stream were published since than the buffer may hold, and overflow was called if and only if more were |
| `StreamHandshake.ClosedStaysSilent` | apps/bridge-service/src/stream-socket.ts:236-241 | Nothing is sent on a connection once its socket has closed |
| `StreamHandshake.SettledForever` | apps/bridge-service/src/stream-socket.ts:363-370 | Once settled, an open connection has always been sent each published record it can expect exactly once and nothing else, whatever the order of publication |
| `StreamHandshake.FinishSends` | apps/bridge-service/src/stream-socket.ts:345-369 | Going live sends the backlog and then, sorted, what was buffered beyond it |
| `StreamHandshake.CursorAheadBreaks` | apps/bridge-service/src/stream-socket.ts:300-301 | From a cursor ahead of the counter there is always a continuation that delivers a record the client did not ask for |
| `StreamDelivery.ExactIffDeliverable` | apps/bridge-service/src/stream-socket.ts:345-371 | Whatever was read, for an accepting socket: every continuation by deliveries is faithful if and only if, when going live, the cursor is not ahead, nothing the backlog has or the cursor covers is in flight, the page reached what had been published before, and nothing published since had left the store and is passed over |
| `StreamDelivery.ExactIffNoneInFlight` | apps/bridge-service/src/stream-socket.ts:345-371 | After a complete read with a cursor not ahead, nothing in flight is the whole condition |
| `StreamDelivery.CompletePage` | apps/bridge-service/src/service.ts:183-208 | With room for it, the page is the stream after the cursor as stored, less what had expired or been evicted |
| `StreamDelivery.NoneInFlightIffReadAfterPublished` | apps/bridge-service/src/service.ts:157-178 | After a complete read nothing is in flight if and only if every record of the stream stored by the read has been published |
| `StreamDelivery.NoneInFlightIffReturnedPublished` | apps/bridge-service/src/service.ts:157-178 | Nothing is in flight if and only if each record the read returned has been published and none at or before the cursor is pending |
| `StreamDelivery.DeliverableSettles` | apps/bridge-service/src/stream-socket.ts:345-369 | Going live when the condition holds settles the connection, in order so far |
| `StreamDelivery.BeyondPageNeverSent` | apps/bridge-service/src/stream-socket.ts:325-369 | A record published before subscribing that is not in the backlog is never sent, in any continuation |
| `StreamDelivery.BeyondPageSentIff` | apps/bridge-service/src/stream-broker.ts:167-183 | Of what the store held beyond the page, going live sends exactly what was published since subscribing |
| `StreamDelivery.DeliveredExactlyOnce` | apps/bridge-service/src/stream-socket.ts:295-371 | In every interleaving and order of publication, with a complete read and going live only after what was stored by it was published, an open connection got each published record after its cursor exactly once and nothing else, except what had been published before it subscribed and was no longer held at the read |
| `StreamOrder.InOrderIffPublishedInOrder` | apps/bridge-service/src/stream-broker.ts:200-234 | A live connection in order so far has, once all in flight is published, received everything in order if and only if the run published the stream in storage order |
| `StreamOrder.DeliveredInOrder` | apps/bridge-service/src/stream-socket.ts:295-371 | With publication in storage order besides, an open connection was sent exactly the published records it can expect, once and in order |
| `StreamOrder.AtomicDeliveryIsExact` | apps/bridge-service/src/stream-broker.ts:48-53 | With store and publish in one step, a complete read and a cursor not ahead are enough: the open connection was sent exactly what it can expect of all that is stored, in order |
| `StreamOrder.LaterPutFirstSwaps` | apps/bridge-service/src/service.ts:141-178 | From an unused system: two deliveries to a live connection, the later one resuming first, arrive swapped |
| `StreamDelivery.LateSettlingPutDuplicates` | apps/bridge-service/src/service.ts:141-178 | For a store whose put settles after a read that shows its record, a concrete run in which a connection receives one record twice |
| `StreamDelivery.EvictedMeanwhileIsPassedOver` | apps/bridge-service/src/stream-broker.ts:167-183 | From an unused system: a record published since subscribing, evicted before the read while a later one is read, is never sent |
| `Base58.MulAddExact` | packages/crypto/src/index.ts:184-196 | One round multiplies by 58 and adds the digit exactly, the carry staying a digit and the top byte non-zero |
| `Base58.MultiplyAndAdd` | packages/crypto/src/index.ts:184-196 | The in-place inner loop is that round |
| `Base58.DecodeBase58Btc` | packages/crypto/src/index.ts:173-205 | Fails exactly outside the alphabet; otherwise the bytes denote the same number with one leading zero byte for each leading 1 |
| `Base58.DecodingUnique` | packages/crypto/src/index.ts:173-205 | Number and leading zeros determine the bytes, so the decoder's contract has one solution |
| `Base58.EncodingUnique` | packages/crypto/src/index.ts:173-214 | Different strings decode to different bytes |
| `Base58.EncodeDecodes` | packages/crypto/src/index.ts:173-214 | Every byte string is the decoding of some alphabet string |
| `Base58.DidKeyToEd25519PublicKey` | packages/crypto/src/index.ts:226-237 | Yields the key that the did names, and nothing if and only if it names none |
| `Base58.DidKeyBijective` | packages/crypto/src/index.ts:226-237 | Two dids are equal exactly when the keys they name are |
| `Base58.EveryKeyHasDid` | packages/crypto/src/index.ts:226-237 | Every 32-byte key is named by some did |
| `Base32.WrappedByte` | packages/content-addressing/src/base32.ts:30-36 | However often the 32-bit accumulator has wrapped, the byte read from it is that of the unbounded value |
| `Base32.TakeDigit` | packages/content-addressing/src/base32.ts:30-36 | One turn keeps the bytes put out equal to the digits read less the bits still held |
| `Base32.DecodeBase32Lower` | packages/content-addressing/src/base32.ts:13-47 | Succeeds with bytes whose bits followed by zero bits are the input's, floor(5n/8) of them; fails at the first foreign character, or when no such bytes exist |
| `Base32.EncodeDecodes` | packages/content-addressing/src/base32.ts:13-47 | Inverts the unpadded encoding of section 6 of RFC 4648 on every byte string |
| `Base32.SameLengthInjective` | packages/content-addressing/src/base32.ts:13-47 | Among inputs of one length no two decode alike |
| `Base32.EmptyAndAClash` | packages/content-addressing/src/base32.ts:40-46 | Across lengths two do: the empty string and one letter a |
| `Base32.AcceptedIsCanonicalIff` | packages/content-addressing/src/base32.ts:38-45 | An accepted string is the encoding of its bytes if and only if its length is not 1, 3 or 6 modulo 8 |
| `Varint.MinimalIsEncoding` | packages/content-addressing/src/varint.ts:46-53 | Every byte string with proper continuation bits and no padding is the encoding of its value |
| `Varint.EncodePrefixFree` | packages/content-addressing/src/varint.ts:29-57 | No encoding begins another, so a varint's end is determined |
| `Varint.ReadUnsignedVarint` | packages/content-addressing/src/varint.ts:29-57 | Succeeds exactly when the minimal encoding of a number up to 2^53-1 stands at the offset, and then with that number and length |
| `Cid.CidUnique` | packages/content-addressing/src/cid.ts:82-155 | A byte string is the CID of at most one codec, hash function and digest |
| `Cid.ParseMultihash` | packages/content-addressing/src/cid.ts:112-145 | Accepts exactly a known hash code, the length it requires and a digest of that length with nothing after |
| `Cid.ParseCidBinary` | packages/content-addressing/src/cid.ts:82-155 | Accepts exactly the version 1 layouts of at most 256 bytes; reports an unsupported version exactly when another version stands first |
| `JcsText.ReadsQuoted` | packages/crypto/src/index.ts:284-286 | A reader by section 7 of RFC 8259, which takes control characters and lone surrogates only in escapes, gives back the string and what followed its quote |
| `JcsText.EscapeIsShortest` | packages/crypto/src/index.ts:284-286 | No text stands for a code unit inside a string in fewer units than its escape |
| `JcsText.EscapeIsLowerCase` | packages/crypto/src/index.ts:284-286 | Hexadecimal escapes are in lower case |
| `JcsText.LessIffSmallerAt` | packages/crypto/src/index.ts:307-307 | Keys are ordered by the first code unit in which they differ, a proper prefix first |
| `JcsText.AscendingUnique` | packages/crypto/src/index.ts:307-307 | Entries in code-unit key order are determined by their set |
| `JcsText.JoinUnique` | packages/crypto/src/index.ts:295-316 | A bracketed comma-separated text determines its parts and its end |
| `Jcs.TextsApart` | packages/crypto/src/index.ts:275-317 | Unique readability: no value's text, followed by what may follow a value, is another's |
| `Jcs.CanonicalTextIdentifies` | packages/crypto/src/index.ts:268-317 | Two values have the same canonical text if and only if they are the same JSON value up to key order |
| `Jcs.InsertionOrderNeverShows` | packages/crypto/src/index.ts:305-315 | Reordering an object's keys changes neither the text nor whether it throws |
| `Jcs.CanonicalizesIffJson` | packages/crypto/src/index.ts:268-317 | Throws exactly on values that are not JSON, undefined members and items aside |
| `Jcs.HookIsNeverSkipped` | packages/crypto/src/index.ts:292-294 | An object with a toJSON method prints as what that returns, or throws where that throws or returns undefined, and is never taken for absent |
| `JcsParser.ParseInvertsCanonicalize` | packages/crypto/src/index.ts:268-317 | A parser by the grammar of RFC 8259, white space included, reads the canonical text of every value back to the value with undefined items null, undefined members gone and keys ascending |
| `JcsParser.CanonicalReads` | packages/crypto/src/index.ts:275-317 | The same inside a larger text: followed by any delimiter, it parses to that value and leaves the rest |
| `JcsParser.PlainIsSame` | packages/crypto/src/index.ts:268-317 | What is read back is the same JSON value |
| `PrivateKeyPackage.WriteField` | packages/mls-provider/src/private-key-package-codec.ts:20-24 | What stood before the offset is followed by the length prefix and the bytes |
| `PrivateKeyPackage.Encode` | packages/mls-provider/src/private-key-package-codec.ts:37-48 | Produces the package's one layout, or refuses exactly the packages with a field of bad length |
| `PrivateKeyPackage.Decode` | packages/mls-provider/src/private-key-package-codec.ts:50-81 | Accepts exactly the layouts of valid packages, each back to its package |
| `PrivateKeyPackage.LayoutInjective` | packages/mls-provider/src/private-key-package-codec.ts:37-48 | Different packages have different layouts |
| `ControlLog.DedupeMembers` | packages/identity/src/control-log.ts:446-463 | Deduplication keeps each event once and fails exactly when two different events claim one id |
| `ControlLog.DedupeSortedEvents` | packages/identity/src/control-log.ts:446-463 | The loop with its map of events seen is that deduplication |
| `ControlLog.SeedIdentityControlProjection` | packages/identity/src/control-log.ts:141-161 | The loops compute the fold of the sorted, deduplicated log, failing where it fails |
| `ControlLog.ProjectionIgnoresOrder` | packages/identity/src/control-log.ts:141-161 | Any order of the log with any repetition fails alike or yields the same state |
| `ControlLogReading.FoldReads` | packages/identity/src/control-log.ts:163-409 | The state is what the events tell: each device with the key and time of its last enrolment or rotation and revoked since its last enrolment or not, each capability as last granted and withdrawn since or not, the epoch, controller, card and last event |
| `ControlLogReading.FoldsIffAdmissible` | packages/identity/src/control-log.ts:163-425 | A log folds if and only if each event may follow those before it: by the one controller, with a larger epoch where one is needed, about known devices and capabilities |
| `ControlLogReading.RevocationTakesEffect` | packages/identity/src/control-log.ts:232-264 | After a revocation the device is there and inactive, and every other device and all capabilities are as before |
| `ControlLogReading.WithdrawalTakesEffect` | packages/identity/src/control-log.ts:296-331 | After a withdrawal the capability is there and not granted, and everything else is as before |
| `ControlLogReading.KeptSorted` | packages/identity/src/control-log.ts:148-154 | The events folded are those of the log, each once, by lamport clock, then creation time, then id |
| `ControlLogReading.ProjectsIff` | packages/identity/src/control-log.ts:141-161 | A log projects exactly when its envelopes are sound, no two events claim one id, and in sorted order each may follow the earlier |
| `ControlLogReading.DeviceActiveIff` | packages/identity/src/control-log.ts:251-262 | A device is active if and only if, of the events that enrol or revoke it, the last in sorted order enrols it |
| `ControlLogReading.CapabilityGrantedIff` | packages/identity/src/control-log.ts:319-330 | A capability is granted if and only if, of the events that grant or withdraw it, the last in sorted order grants it |
| `ControlLogHistory.FoldFounded` | packages/identity/src/control-log.ts:411-419 | Without a controller there are no devices, no capabilities and no epoch |
| `ControlLogHistory.ControllerFixed` | packages/identity/src/control-log.ts:163-196 | The controller key never changes once set and signs every later identity event |
| `ControlLogHistory.OneControllerSignsAll` | packages/identity/src/control-log.ts:411-419 | In a log that folds, every identity event is signed by the key the log ends with |
| `ControlLogHistory.EpochsIncrease` | packages/identity/src/control-log.ts:421-425 | Epochs that take effect strictly increase up to the final one |
| `ControlLogHistory.RotationReplacesCurrentKey` | packages/identity/src/control-log.ts:333-383 | A rotation finds the device active under the key it names as previous and changes that device only |
| `ControlLogHistory.RevokedStaysRevoked` | packages/identity/src/control-log.ts:232-264 | A revoked device becomes active again only through an authorization with a larger epoch |
| `ControlLogHistory.TiedIdsShowOrder` | packages/identity/src/control-log.ts:148-153 | Were two ids to compare as equal, the order of arrival would decide: a log that folds in one order and fails in the other |
| `ControlLogVerifier.FindProofEvent` | packages/identity-control-log-verifier/src/index.ts:120-132 | Finds the event under the id exactly when all events under it agree |
| `ControlLogVerifier.Verify` | packages/identity-control-log-verifier/src/index.ts:57-93 | Verified exactly when record, signatures, digest, projection, grant and matchers all hold of the log as a collection of events |
| `ControlLogVerifier.StillGrantsIff` | packages/identity-control-log-verifier/src/index.ts:138-160 | A grant is in force exactly if the last event that grants or withdraws the capability grants it to the same device with the same expiry, that is not over, and the last event that enrols or revokes the device enrols it |
| `ControlLogVerifier.VerdictIgnoresOrder` | packages/identity-control-log-verifier/src/index.ts:57-93 | The verdict is the same for any order and repetition of the log |
| `ControlLogVerifier.VerifiedRestsOnController` | packages/identity-control-log-verifier/src/index.ts:138-160 | A verified proof rests on an unexpired grant of the record's digest, signed by the log's one controller, to a device still active, with both parties matched and every event of the log verified |
| `MemoryBlockStore.EvictsFewestOldest` | packages/block-store/src/memory-fetcher.ts:94-99 | Eviction removes blocks from the old end, and no fewer would make room |
| `MemoryBlockStore.StoredGoesLast` | packages/block-store/src/memory-fetcher.ts:94-101 | A put of a block not cached appends it to what the least eviction that makes room leaves |
| `MemoryBlockStore.UsedGoesLast` | packages/block-store/src/memory-fetcher.ts:87-93 | A put or a read that finds its block makes it the most recent and leaves the order of the rest |
| `MemoryBlockStore.DeleteForgets` | packages/block-store/src/memory-fetcher.ts:106-113 | After a deletion the block is gone and every other one is where it was |
| `MemoryBlockStore.DeletedStaysGone` | packages/block-store/src/memory-fetcher.ts:75-133 | A deleted block is not found again, in any run, before it is stored again |
| `MemoryBlockStore.StepKeepsBounded` | packages/block-store/src/memory-fetcher.ts:85-102 | Whatever a put stores, keys stay unique and the total within the budget |
| `MemoryBlockStore.StepKeepsValid` | packages/block-store/src/memory-fetcher.ts:85-102 | An operation keeps every block hashing to its key if and only if what it stores still does, or its key is already cached |
| `MemoryBlockStore.ValidIffSound` | packages/block-store/src/memory-fetcher.ts:75-133 | In any interleaving of puts in two halves, reads and deletions, the cache is valid throughout if and only if every put stores bytes that still fit its digest |
| `MemoryBlockStore.UntouchedStaysValid` | packages/block-store/src/memory-fetcher.ts:75-133 | With buffers left alone until their puts settle, every block hashes to its key in every interleaving |
| `MemoryBlockStore.OverwrittenBufferPoisons` | packages/block-store/src/memory-fetcher.ts:85-101 | A buffer overwritten while its put awaits the digest is cached under a digest it does not have |
| `MemoryBlockStore.WorkingSetStaysCached` | packages/block-store/src/memory-fetcher.ts:75-133 | In any run an undeleted block stays cached while its size and those of the distinct others touched since its last use fit the budget |
| `MemoryBlockStore.Store.StartPut` | packages/block-store/src/memory-fetcher.ts:75-86 | Refuses exactly the oversized blocks and otherwise computes the digest of the bytes at the call |
| `MemoryBlockStore.Store.FinishPut` | packages/block-store/src/memory-fetcher.ts:87-102 | Refreshes, or evicts and inserts what the buffer holds by then, keeping the running total equal to the stored bytes |
| `MemoryBlockStore.Store.Delete` | packages/block-store/src/memory-fetcher.ts:106-113 | Removes exactly the block under the digest and says whether there was one |
| `MemoryBlockStore.Store.FetchBlock` | packages/block-store/src/memory-fetcher.ts:119-133 | Returns the block cached under the digest asked for, and nothing exactly when there is none or the request names no digest |
| `FetcherHealth.FetcherHealthTracker.CanAttempt` | packages/block-store/src/health.ts:75-82 | Admits when closed, refuses while open or probing, and marks the one half-open probe |
| `FetcherHealth.FetcherHealthTracker.RecordSuccess` | packages/block-store/src/health.ts:84-86 | One success closes that fetcher's breaker and touches no other |
| `FetcherHealth.FetcherHealthTracker.RecordFailure` | packages/block-store/src/health.ts:88-100 | Counts, or trips with the escalated cooldown at the threshold or after a failed probe, touching no other fetcher |
| `FetcherHealth.RunKeepsInv` | packages/block-store/src/health.ts:75-100 | In any run consecutive failures stay below the threshold and closed means not tripped since a success |
| `FetcherHealth.NothingAdmittedEarly` | packages/block-store/src/health.ts:75-82 | Until a success is recorded, nothing is admitted before the time the breaker is open until |
| `FetcherHealth.OneProbeAtATime` | packages/block-store/src/health.ts:75-82 | While open, at most one probe is admitted between recorded outcomes |
| `FetcherHealth.FailingClientIsSlowed` | packages/block-store/src/health.ts:88-100 | For a client that always fails, the m-th admission after the breaker trips comes no sooner than the sum of the first m cooldowns |
| `FetcherHealth.CooldownIs` | packages/block-store/src/health.ts:94-96 | The cooldown of a trip is the first one doubled for each trip before it, at most the maximum |
| `FetcherHealth.FailingClientAdmittedIff` | packages/block-store/src/health.ts:75-100 | A fetcher that has only failed, n times, is admitted always below the threshold, and from then on exactly once the first cooldown, doubled n minus threshold times and capped, has passed since the last failure |
| `FetcherHealth.RecoversWhenOver` | packages/block-store/src/health.ts:75-86 | A breaker whose time is over admits its probe unless one is out, and a success lets everything in again |
| `BlockStore.Store.AttemptOnce` | packages/block-store/src/block-store.ts:275-354 | One request: the answer is logged and recorded with the breaker alike, and another attempt follows exactly after an answer worth a retry, with an attempt left and the breaker's fresh admission |
| `BlockStore.OutcomeSays` | packages/block-store/src/block-store.ts:299-345 | An entry says retrieved exactly for a correct block, transient exactly for an answer worth a retry, missing exactly where there is none |
| `BlockStore.RecordedAsAnswered` | packages/block-store/src/block-store.ts:299-345 | The breaker counts an answer as a success exactly if it is a correct block or says there is none |
| `BlockStore.Store.RefusalSays` | packages/block-store/src/block-store.ts:222-262 | Of the checks before any bytes move the first that fails is the one reported |
| `BlockStore.Store.TryFetcher` | packages/block-store/src/block-store.ts:275-364 | Attempts at one fetcher are consecutive, bounded, each but the last retryable, each with its own admission and log entry; without a verdict they end only after a definite answer, all attempts, or the breaker's refusal |
| `BlockStore.Store.ConsultFetchers` | packages/block-store/src/block-store.ts:269-365 | Fetchers are consulted in order, each from the clock reading where the one before left off, until one gives a verdict; each breaker goes where its own events take it, and none that would serve the block to one who persists is passed over |
| `BlockStore.Store.GetBlock` | packages/block-store/src/block-store.ts:212-372 | Bounded calls, none after a definite answer of the same fetcher; bytes only from an answer of right length and digest, decoded unless encrypted; when nobody aborts and correct bytes decode, no block only after all were asked and none of them gives a correct answer, retries included, within the attempts allowed and admitted |
| `SendBudget.GrantsAreSpaced` | apps/pwa/src/pwa-send-budget.ts:133-141 | Every acceptance lies in its window and windows start at least a window length apart |
| `SendBudget.WindowsWithinLimits` | apps/pwa/src/pwa-send-budget.ts:72-83 | No window is granted more runs or entries than its limits |
| `SendBudget.DecisionByGrants` | apps/pwa/src/pwa-send-budget.ts:55-90 | The decision on a request, with remaining room or reason and delay, by what was granted before: the last grant, its window, and the runs and entries of that window |
| `SendBudget.OutsideWindowAccepts` | apps/pwa/src/pwa-send-budget.ts:133-141 | After the window's end or before its start a request opens a new window and is accepted |
| `SendBudget.RefundExact` | apps/pwa/src/pwa-send-budget.ts:92-107 | A refund gives back just what it names and is refused exactly when more is named than is reserved |
| `SendBudget.RefundLeavesRoom` | apps/pwa/src/pwa-send-budget.ts:92-107 | A reservation that is refunded leaves room for as many entries again within its window, once the interval is over, or at once if nothing else is reserved |
| `SendBudget.IntervalHoldsAtMostTwice` | apps/pwa/src/pwa-send-budget.ts:55-90 | Any interval of a window's length holds at most twice the runs and entries of a window |
| `SendBudget.WindowLimitRetryExact` | apps/pwa/src/pwa-send-budget.ts:72-79 | After a window-limit deferral the request is deferred at every instant before the delay is over and accepted at its end, whatever retries come between |
| `SendBudget.MinimumIntervalRetryExactIff` | apps/pwa/src/pwa-send-budget.ts:65-79 | After a minimum-interval deferral the request is accepted at a later instant exactly when the window is over, or the interval since the last acceptance is over and the window has room, clocks that went back included |
| `SendBudget.MinimumIntervalRetryTooLong` | apps/pwa/src/pwa-send-budget.ts:65-70 | From an unused budget: a delay of 450 ms for a request accepted after 50 ms |
| `SendBudget.MinimumIntervalRetryTooShort` | apps/pwa/src/pwa-send-budget.ts:65-79 | From an unused budget: a delay after which the request is deferred again, the window being full |
| `SendBudget.ClockBackRetryTooShort` | apps/pwa/src/pwa-send-budget.ts:65-70 | From an unused budget: the same with room in the window, after a clock that went back |
| `PwaSendBudgets.PwaSendBudget.Reserve` | apps/pwa/src/pwa-send-budget.ts:55-90 | The object reserves as the value model does and stays within its limits |
| `PwaSendBudgets.PwaSendBudget.Refund` | apps/pwa/src/pwa-send-budget.ts:92-107 | Gives back at most what is reserved, or changes nothing, and stays within its limits |
| `PwaSendBudgets.PwaSendBudget.Roll` | apps/pwa/src/pwa-send-budget.ts:133-141 | Starts a new window when there is none, when the clock went back, or when it is over |
| `CapabilityProjection.FoldIsProjection` | packages/capabilities/src/projection.ts:31-102 | While no revocation id is reused, a fold equals a form read off the events: each capability with the last grant before its revocation or else the first after, the revocations in order of first appearance, the invocations seen |
| `CapabilityProjection.RevokedIffRevocationSeen` | packages/capabilities/src/projection.ts:118-124 | A capability is revoked exactly when some event revokes it |
| `CapabilityProjection.RevocationIsPermanent` | packages/capabilities/src/projection.ts:31-102 | As long as no revocation id is reused, no later event undoes a revocation, reissued grants included |
| `CapabilityProjection.ReusedIdForgets` | packages/capabilities/src/projection.ts:85-88 | A reused revocation id drops the earlier revocation of a capability without a grant |
| `CapabilityProjection.OrderAgreesOnStatus` | packages/capabilities/src/projection.ts:31-124 | Any orders of the same events agree on grants, revoked status and sets of revocation ids |
| `CapabilityProjection.GrantsMoveFreely` | packages/capabilities/src/projection.ts:31-70 | Moving grants past revocations leaves every entry unchanged while the revocations keep their order |

## Left out

- Times are integers, as Date.parse yields them for valid timestamps. Where texts matter they are carried along; that toISOString orders texts as times within four-digit years is a hypothesis (IsoOrdered), as is comparison of texts by code point in the database.
- The field checks of grants and revocations beyond the time order and the distinct proofs are a predicate, and ids are taken trimmed, as validation leaves them.
- Ed25519, SHA, AES, gzip and the default digest and key matchers are parameters or verdicts carried by the data; a hash collision would let the block cache answer with the earlier block.
- BridgeStoreEquivalence.DriveStores: starts from empty storage; failed writes and counters at or beyond 2^53-1 (which the SQL store refuses and the others do not) are not modelled. Clock readings are within four-digit years.
- MemoryBridgeStore.InMemoryBridgeStore.PutIfAbsent: requires the counter to be a safe integer, because beyond that the source's addition rounds.
- JsonBridgeStore.DiskStepRefines: assumes a clock that does not go back; ClockGoingBackDiverges shows that without it the stores differ.
- The stores' snapshot call and the admission engine, conflict responses and HTTP handlers of the bridge service.
- StreamHandshake.StepKeepsInv: one connection, frames as the records they carry; heartbeats, frame parsing, rate limits and the adapter's own state field, which the source sets to subscribed even after a drain that closed the socket, are not modelled, nor are frames that arrive after the close.
- StreamBroker.BridgeStreamBroker.Subscribe: subscriber ids never repeat; the source draws them at random. Callbacks do not re-enter the broker.
- StreamDelivery.DeliveredExactlyOnce: the backlog is one page, as the adapter reads only one. Which store resumes whom first is not modelled: any pending delivery may resume at any time.
- Base16 and multibase dispatch, which only select a decoder.
- Varint.ReadUnsignedVarint: says when a read fails, not which message it fails with; all failures carry one error code.
- Jcs.CanonicalTextIdentifies: number printing is any function to number characters that tells numbers apart, with -0 and 0 one number, and number reading any inverse of it; an object with a toJSON method enters as what the method returns, and as an unsupported value where that is undefined.
- ControlLog.ProjectionIgnoresOrder: assumes that comparing event ids never ties different ids; localeCompare is modelled as a position in the collation, and TiedIdsShowOrder shows the assumption is needed. Envelope, payload and signature verdicts are fields of the event, and equality of events stands for equality of their canonical JSON.
- CapabilityProjection.OrderAgreesOnStatus: each capability id has one grant and each revocation id one revocation; revocations are kept in insertion order, which for ids that look like array indices JavaScript replaces by numeric order.
- BlockStore.Store.GetBlock: the backoff delay and its randomness have no effect on the result and are left out; an abort while waiting is the next look at the signal. A probe cut short by an abort stays marked as out, and for such a breaker RecoversWhenOver promises nothing.
- MemoryBlockStore.Store.FinishPut: the copy made on storing and on reading is a value, so what callers do to the bytes they are handed is not modelled.
- SendBudget.DecisionByGrants: assumes no refunds and a clock that does not go back; RefundExact and OutsideWindowAccepts say what those do to one decision.
- SendBudget.IntervalHoldsAtMostTwice: assumes no refunds and a clock that does not go back; with refunds only the per-window limits are kept.
- Field-by-field validators, bearer tokens, group messaging, user interface and configuration code, which would add only easy members.
