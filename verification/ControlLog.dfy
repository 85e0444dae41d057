/** The identity control log: signed events folded into the state of an identity's authority. */
module ControlLog {
  import opened Wrappers

  /** An event id, with the position that locale-aware comparison gives its text. */
  datatype EventId = EventId(collation: int, text: string)

  /** A timestamp as written, with the epoch milliseconds it parses to. */
  datatype Instant = Instant(ms: int, text: string)

  datatype Payload =
    | ControllerCreated(controllerPublicKey: string, initialDeviceId: string)
    | DeviceAuthorized(authorizedDeviceId: string, authorizedPublicKey: string, authorizedEpoch: int,
                       wrapPublicKey: Option<string>, wrapKeyRef: Option<string>)
    | DeviceRevoked(revokedDeviceId: string, revokedEpoch: int)
    | DeviceRotated(deviceId: string, previousPublicKey: string, newPublicKey: string, rotatedEpoch: int)
    | CapabilityGranted(capabilityId: string, delegateDeviceId: string, scope: string, expiresAt: Instant)
    | CapabilityRevoked(capabilityId: string, delegateDeviceId: string)
    | ContactCardPublished(contactCardDigest: string, capturedAt: Instant)
    | Other(body: string)

  /**
   * A signed event. envelopeOk and payloadOk are what the protocol and identity validators say of
   * it, verified what the signature check says; the model takes these verdicts as they come.
   */
  datatype Event = Event(
    eventId: EventId,
    lamport: int,
    createdAt: Instant,
    signer: string,
    signature: string,
    payload: Payload,
    envelopeOk: bool,
    payloadOk: bool,
    verified: bool
  )

  datatype Device = Device(
    publicKey: string,
    active: bool,
    authorizedAt: Instant,
    revokedAt: Option<Instant>,
    wrapPublicKey: Option<string>,
    wrapKeyRef: Option<string>
  )

  datatype Capability = Capability(
    delegateDeviceId: string,
    scope: string,
    expiresAt: Instant,
    granted: bool,
    grantedAt: Instant,
    revokedAt: Option<Instant>
  )

  datatype ContactCard = ContactCard(digest: string, capturedAt: Instant, publishedAt: Instant)

  datatype State = State(
    controllerPublicKey: Option<string>,
    epoch: int,
    devices: map<string, Device>,
    capabilities: map<string, Capability>,
    contactCard: Option<ContactCard>,
    lastEventId: Option<EventId>
  )

  const EMPTY := State(None, 0, map[], map[], None, None)

  predicate SignedByController(s: State, e: Event) {
    s.controllerPublicKey == Some(e.signer)
  }

  /** One event applied; None where the source throws. */
  function Apply(s: State, e: Event): Option<State> {
    if !e.envelopeOk || !e.payloadOk then None
    else
      var last := Some(e.eventId);
      match e.payload
      case Other(_) => Some(s)
      case ControllerCreated(key, deviceId) =>
        if s.controllerPublicKey.Some? || e.signer != key then None
        else
          Some(s.(controllerPublicKey := Some(key), lastEventId := last,
                  devices := s.devices[deviceId := Device(e.signer, true, e.createdAt, None, None, None)]))
      case DeviceAuthorized(deviceId, key, epoch, wrapKey, wrapRef) =>
        if !SignedByController(s, e) || epoch <= 0 || wrapKey.None? != wrapRef.None? || epoch <= s.epoch then None
        else
          Some(s.(epoch := epoch, lastEventId := last,
                  devices := s.devices[deviceId := Device(key, true, e.createdAt, None, wrapKey, wrapRef)]))
      case DeviceRevoked(deviceId, epoch) =>
        if !SignedByController(s, e) || epoch <= 0 || deviceId !in s.devices then None
        else if !s.devices[deviceId].active then Some(s.(lastEventId := last))
        else if epoch <= s.epoch then None
        else
          Some(s.(epoch := epoch, lastEventId := last,
                  devices := s.devices[
                    deviceId := s.devices[deviceId].(active := false, revokedAt := Some(e.createdAt))]))
      case DeviceRotated(deviceId, previousKey, newKey, epoch) =>
        if !SignedByController(s, e) || epoch <= 0 || deviceId !in s.devices || !s.devices[deviceId].active
           || s.devices[deviceId].publicKey != previousKey || previousKey == newKey || epoch <= s.epoch then None
        else
          Some(s.(epoch := epoch, lastEventId := last,
                  devices := s.devices[
                    deviceId := s.devices[deviceId].(publicKey := newKey, authorizedAt := e.createdAt)]))
      case CapabilityGranted(capabilityId, delegate, scope, expiresAt) =>
        if !SignedByController(s, e) then None
        else
          Some(s.(lastEventId := last, capabilities := s.capabilities[
            capabilityId := Capability(delegate, scope, expiresAt, true, e.createdAt, None)]))
      case CapabilityRevoked(capabilityId, delegate) =>
        if !SignedByController(s, e) || capabilityId !in s.capabilities
           || s.capabilities[capabilityId].delegateDeviceId != delegate then None
        else if !s.capabilities[capabilityId].granted then Some(s.(lastEventId := last))
        else
          Some(s.(lastEventId := last, capabilities := s.capabilities[
            capabilityId := s.capabilities[capabilityId].(granted := false, revokedAt := Some(e.createdAt))]))
      case ContactCardPublished(digest, capturedAt) =>
        if !SignedByController(s, e) then None
        else Some(s.(lastEventId := last, contactCard := Some(ContactCard(digest, capturedAt, e.createdAt))))
  }

  function Fold(s: State, es: seq<Event>): Option<State>
    decreases |es|
  {
    if es == [] then Some(s)
    else
      match Apply(s, es[0])
      case None => None
      case Some(t) => Fold(t, es[1..])
  }

  lemma {:induction false} FoldConcat(s: State, a: seq<Event>, b: seq<Event>)
    ensures Fold(s, a + b) == match Fold(s, a) case None => None case Some(t) => Fold(t, b)
    decreases |a|
  {
    if a == [] {
      assert a + b == b;
    } else {
      assert (a + b)[1..] == a[1..] + b;
      if Apply(s, a[0]).Some? {
        FoldConcat(Apply(s, a[0]).value, a[1..], b);
      }
    }
  }

  // ---- sorting and deduplication

  /** The comparator's strict order: lamport clock, then creation time, then event id. */
  predicate Before(a: Event, b: Event) {
    || a.lamport < b.lamport
    || (a.lamport == b.lamport && a.createdAt.ms < b.createdAt.ms)
    || (a.lamport == b.lamport && a.createdAt.ms == b.createdAt.ms && a.eventId.collation < b.eventId.collation)
  }

  function InsertEvent(e: Event, es: seq<Event>): seq<Event> {
    if es == [] || !Before(es[0], e) then [e] + es else [es[0]] + InsertEvent(e, es[1..])
  }

  /** Stable sort by the comparator. */
  function SortEvents(es: seq<Event>): seq<Event> {
    if es == [] then [] else InsertEvent(es[0], SortEvents(es[1..]))
  }

  ghost predicate InOrder(es: seq<Event>) {
    forall i, j :: 0 <= i < j < |es| ==> !Before(es[j], es[i])
  }

  lemma {:induction false} InsertEventMembers(e: Event, es: seq<Event>, x: Event)
    ensures x in InsertEvent(e, es) <==> x == e || x in es
  {
    if es != [] && Before(es[0], e) {
      InsertEventMembers(e, es[1..], x);
      assert es == [es[0]] + es[1..];
    }
  }

  lemma {:induction false} SortEventsMembers(es: seq<Event>, x: Event)
    ensures x in SortEvents(es) <==> x in es
  {
    if es != [] {
      SortEventsMembers(es[1..], x);
      InsertEventMembers(es[0], SortEvents(es[1..]), x);
      assert es == [es[0]] + es[1..];
    }
  }

  lemma {:induction false} InsertEventInOrder(e: Event, es: seq<Event>)
    requires InOrder(es)
    ensures InOrder(InsertEvent(e, es))
  {
    if es != [] && Before(es[0], e) {
      InsertEventInOrder(e, es[1..]);
      forall x | x in InsertEvent(e, es[1..]) ensures !Before(x, es[0]) {
        InsertEventMembers(e, es[1..], x);
      }
    } else if es != [] {
      forall x | x in es ensures !Before(x, e) {
        var i :| 0 <= i < |es| && es[i] == x;
        assert i == 0 || !Before(es[i], es[0]);
      }
    }
  }

  lemma {:induction false} SortEventsInOrder(es: seq<Event>)
    ensures InOrder(SortEvents(es))
  {
    if es != [] {
      SortEventsInOrder(es[1..]);
      InsertEventInOrder(es[0], SortEvents(es[1..]));
    }
  }

  function FindId(es: seq<Event>, id: EventId): (found: Option<Event>)
    ensures found.Some? ==> found.value in es && found.value.eventId == id
    ensures found.None? ==> forall e :: e in es ==> e.eventId != id
  {
    if es == [] then None
    else if es[0].eventId == id then Some(es[0])
    else FindId(es[1..], id)
  }

  /** Keeps the first event under each id; None where a later one under the same id differs. */
  function Dedupe(es: seq<Event>): Option<seq<Event>> {
    if es == [] then Some([])
    else
      var e := es[|es| - 1];
      match Dedupe(es[..|es| - 1])
      case None => None
      case Some(kept) =>
        match FindId(kept, e.eventId)
        case None => Some(kept + [e])
        case Some(first) => if first == e then Some(kept) else None
  }

  /** Two different events claim one id. */
  ghost predicate Conflicting(es: seq<Event>) {
    exists a, b :: a in es && b in es && a.eventId == b.eventId && a != b
  }

  ghost predicate DistinctIds(es: seq<Event>) {
    forall i, j :: 0 <= i < j < |es| ==> es[i].eventId != es[j].eventId
  }

  lemma {:induction false} DedupeMembers(es: seq<Event>)
    ensures Dedupe(es).Some? ==>
      (forall e :: e in Dedupe(es).value <==> e in es) && DistinctIds(Dedupe(es).value) && !Conflicting(es)
    ensures Dedupe(es).None? ==> Conflicting(es)
    decreases |es|
  {
    if es != [] {
      var n := |es| - 1;
      DedupeMembers(es[..n]);
      assert es == es[..n] + [es[n]];
    }
  }

  /** What is kept appears in the order of the input. */
  lemma {:induction false} DedupeInOrder(es: seq<Event>)
    requires InOrder(es) && Dedupe(es).Some?
    ensures InOrder(Dedupe(es).value)
    decreases |es|
  {
    if es != [] {
      var n := |es| - 1;
      DedupeInOrder(es[..n]);
      DedupeMembers(es[..n]);
      forall e | e in Dedupe(es[..n]).value ensures !Before(es[n], e) {
        var i :| 0 <= i < n && es[..n][i] == e;
        assert es[i] == e;
      }
    }
  }

  /** The loop over the sorted events with its map of those seen. */
  method DedupeSortedEvents(es: seq<Event>) returns (deduped: Option<seq<Event>>)
    ensures deduped == Dedupe(es)
  {
    var kept: seq<Event> := [];
    var seen: map<EventId, Event> := map[];
    var i := 0;
    while i < |es|
      invariant 0 <= i <= |es| && Dedupe(es[..i]) == Some(kept)
      invariant forall e :: e in kept ==> e.eventId in seen && seen[e.eventId] == e
      invariant forall id :: id in seen ==> seen[id] in kept && seen[id].eventId == id
    {
      var e := es[i];
      DedupeNextEvent(es, i, kept);
      if e.eventId !in seen {
        seen := seen[e.eventId := e];
        kept := kept + [e];
      } else if seen[e.eventId] != e {
        DedupeFails(es, i + 1);
        return None;
      }
      i := i + 1;
    }
    assert es[..i] == es;
    return Some(kept);
  }

  /** What one more event makes of the events kept so far. */
  lemma DedupeNextEvent(es: seq<Event>, i: nat, kept: seq<Event>)
    requires i < |es| && Dedupe(es[..i]) == Some(kept)
    ensures Dedupe(es[..i + 1]) ==
      match FindId(kept, es[i].eventId)
      case None => Some(kept + [es[i]])
      case Some(first) => if first == es[i] then Some(kept) else None
  {
    assert es[..i + 1][..i] == es[..i] && es[..i + 1][i] == es[i];
  }

  lemma {:induction false} DedupeFails(es: seq<Event>, n: nat)
    requires n <= |es| && Dedupe(es[..n]).None?
    ensures Dedupe(es).None?
    decreases |es|
  {
    if n < |es| {
      assert es[..|es| - 1][..n] == es[..n];
      DedupeFails(es[..|es| - 1], n);
    } else {
      assert es[..n] == es;
    }
  }

  // ---- the projection

  /** The projection of a log; None where the source throws. */
  function Project(events: seq<Event>): Option<State> {
    if exists e :: e in events && !e.envelopeOk then None
    else
      match Dedupe(SortEvents(events))
      case None => None
      case Some(kept) => Fold(EMPTY, kept)
  }

  method SeedIdentityControlProjection(events: seq<Event>) returns (projection: Option<State>)
    ensures projection == Project(events)
  {
    var i := 0;
    while i < |events|
      invariant 0 <= i <= |events|
      invariant forall k :: 0 <= k < i ==> events[k].envelopeOk
    {
      if !events[i].envelopeOk {
        assert events[i] in events;
        return None;
      }
      i := i + 1;
    }
    var deduped := DedupeSortedEvents(SortEvents(events));
    if deduped.None? {
      return None;
    }
    var state := EMPTY;
    i := 0;
    while i < |deduped.value|
      invariant 0 <= i <= |deduped.value|
      invariant Fold(state, deduped.value[i..]) == Fold(EMPTY, deduped.value)
    {
      assert deduped.value[i..][0] == deduped.value[i] && deduped.value[i..][1..] == deduped.value[i + 1..];
      var next := Apply(state, deduped.value[i]);
      if next.None? {
        return None;
      }
      state := next.value;
      i := i + 1;
    }
    return Some(state);
  }

  /** Comparing event ids never ties different ids. */
  ghost predicate IdsSeparated(es: seq<Event>) {
    forall a, b :: a in es && b in es && a.eventId.collation == b.eventId.collation ==> a.eventId == b.eventId
  }

  ghost predicate SameEvents(a: seq<Event>, b: seq<Event>) {
    forall e :: e in a <==> e in b
  }

  /** Ordered lists of the same events, no id twice and no two ids tied, are the same list. */
  lemma {:induction false} OrderUnique(a: seq<Event>, b: seq<Event>)
    requires InOrder(a) && InOrder(b) && DistinctIds(a) && DistinctIds(b) && SameEvents(a, b) && IdsSeparated(a)
    ensures a == b
  {
    assert b != [] ==> b[0] in a;
    if a != [] {
      assert a[0] in a && a[0] in b && b[0] in a;
      assert a[0] == b[0];
      forall e ensures e in a[1..] <==> e in b[1..] {
        TailWithoutHead(a, e);
        TailWithoutHead(b, e);
      }
      forall x, y | x in a[1..] && y in a[1..] && x.eventId.collation == y.eventId.collation
        ensures x.eventId == y.eventId
      {
        assert x in a && y in a;
      }
      OrderUnique(a[1..], b[1..]);
    }
  }

  lemma TailWithoutHead(a: seq<Event>, e: Event)
    requires a != [] && DistinctIds(a)
    ensures e in a[1..] <==> e in a && e != a[0]
  {
  }

  /**
   * The projection depends only on the set of events: any order of the log, with any repetition of
   * its events, fails alike or yields the same state.
   */
  lemma ProjectionIgnoresOrder(a: seq<Event>, b: seq<Event>)
    requires SameEvents(a, b) && IdsSeparated(a)
    ensures Project(a) == Project(b)
  {
    var x, y := SortEvents(a), SortEvents(b);
    forall e ensures e in x <==> e in a { SortEventsMembers(a, e); }
    forall e ensures e in y <==> e in b { SortEventsMembers(b, e); }
    DedupeMembers(x);
    DedupeMembers(y);
    if Conflicting(x) {
      var e, f :| e in x && f in x && e.eventId == f.eventId && e != f;
      assert e in y && f in y;
    }
    if Conflicting(y) {
      var e, f :| e in y && f in y && e.eventId == f.eventId && e != f;
      assert e in x && f in x;
    }
    if !Conflicting(x) {
      SortEventsInOrder(a);
      SortEventsInOrder(b);
      DedupeInOrder(x);
      DedupeInOrder(y);
      OrderUnique(Dedupe(x).value, Dedupe(y).value);
    }
  }
}
