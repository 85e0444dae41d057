/** What holds of every identity log that folds without failing. */
module ControlLogHistory {
  import opened Wrappers
  import opened ControlLog

  /** Devices and capabilities exist only once there is a controller. */
  ghost predicate Founded(s: State) {
    s.controllerPublicKey.None? ==> s.devices == map[] && s.capabilities == map[] && s.epoch == 0
  }

  lemma {:induction false} FoldFounded(s: State, es: seq<Event>)
    requires Founded(s) && Fold(s, es).Some?
    ensures Founded(Fold(s, es).value)
    decreases |es|
  {
    if es != [] {
      FoldFounded(Apply(s, es[0]).value, es[1..]);
    }
  }

  // ---- one controller

  /** The controller key never changes once set, and it signs every identity event from then on. */
  lemma {:induction false} ControllerFixed(s: State, es: seq<Event>)
    requires s.controllerPublicKey.Some? && Fold(s, es).Some?
    ensures Fold(s, es).value.controllerPublicKey == s.controllerPublicKey
    ensures forall e :: e in es && !e.payload.Other? ==> SignedByController(s, e)
    decreases |es|
  {
    if es != [] {
      ControllerFixed(Apply(s, es[0]).value, es[1..]);
      assert es == [es[0]] + es[1..];
    }
  }

  /** Every identity event of a log that folds is signed by the one controller key the log ends with. */
  lemma {:induction false} OneControllerSignsAll(es: seq<Event>, e: Event)
    requires Fold(EMPTY, es).Some? && e in es && !e.payload.Other?
    ensures Fold(EMPTY, es).value.controllerPublicKey == Some(e.signer)
  {
    OneControllerSigns(EMPTY, es, e);
  }

  lemma {:induction false} OneControllerSigns(s: State, es: seq<Event>, e: Event)
    requires Fold(s, es).Some? && e in es && !e.payload.Other?
    ensures Fold(s, es).value.controllerPublicKey == Some(e.signer)
    decreases |es|
  {
    var t := Apply(s, es[0]).value;
    if e == es[0] {
      ControllerFixed(t, es[1..]);
    } else {
      OneControllerSigns(t, es[1..], e);
    }
  }

  // ---- epochs

  /** The epoch an event sets when applied: every authorization and rotation, and a revocation that takes effect. */
  function SetsEpoch(s: State, e: Event): Option<int> {
    match e.payload
    case DeviceAuthorized(_, _, epoch, _, _) => Some(epoch)
    case DeviceRotated(_, _, _, epoch) => Some(epoch)
    case DeviceRevoked(id, epoch) => if id in s.devices && s.devices[id].active then Some(epoch) else None
    case _ => None
  }

  function EffectiveEpochs(s: State, es: seq<Event>): seq<int>
    decreases |es|
  {
    if es == [] || Apply(s, es[0]).None? then []
    else
      var rest := EffectiveEpochs(Apply(s, es[0]).value, es[1..]);
      match SetsEpoch(s, es[0])
      case None => rest
      case Some(epoch) => [epoch] + rest
  }

  lemma ApplySetsEpoch(s: State, e: Event)
    requires Apply(s, e).Some?
    ensures match SetsEpoch(s, e)
      case None => Apply(s, e).value.epoch == s.epoch
      case Some(epoch) => s.epoch < epoch == Apply(s, e).value.epoch
  {
  }

  ghost predicate StrictlyIncreasing(xs: seq<int>) {
    forall i, j :: 0 <= i < j < |xs| ==> xs[i] < xs[j]
  }

  lemma PrependLeast(x: int, xs: seq<int>)
    requires StrictlyIncreasing(xs) && forall y :: y in xs ==> x < y
    ensures StrictlyIncreasing([x] + xs)
  {
    assert forall j :: 0 <= j < |xs| ==> xs[j] in xs;
  }

  /** Effective epochs strictly increase, from above the starting epoch up to the final one. */
  lemma {:induction false} EpochsIncrease(s: State, es: seq<Event>)
    requires Fold(s, es).Some?
    ensures var epochs := EffectiveEpochs(s, es);
      && StrictlyIncreasing(epochs)
      && (forall epoch :: epoch in epochs ==> s.epoch < epoch)
      && Fold(s, es).value.epoch == (if epochs == [] then s.epoch else epochs[|epochs| - 1])
    decreases |es|
  {
    if es != [] {
      var t := Apply(s, es[0]).value;
      ApplySetsEpoch(s, es[0]);
      EpochsIncrease(t, es[1..]);
      if SetsEpoch(s, es[0]).Some? {
        PrependLeast(t.epoch, EffectiveEpochs(t, es[1..]));
      }
    }
  }

  // ---- device keys

  /** A rotation finds the device active under the very key it names as previous. */
  lemma RotationReplacesCurrentKey(before: seq<Event>, e: Event, after: seq<Event>)
    requires e.payload.DeviceRotated? && Fold(EMPTY, before + [e] + after).Some?
    ensures var u := Fold(EMPTY, before);
      var v := Fold(EMPTY, before + [e]);
      var id := e.payload.deviceId;
      && u.Some? && v.Some? && id in u.value.devices && u.value.devices[id].active
      && u.value.devices[id].publicKey == e.payload.previousPublicKey
      && id in v.value.devices
      && v.value.devices[id] == u.value.devices[id].(publicKey := e.payload.newPublicKey, authorizedAt := e.createdAt)
      && v.value.devices - {id} == u.value.devices - {id}
  {
    FoldConcat(EMPTY, before + [e], after);
    FoldConcat(EMPTY, before, [e]);
    var u := Fold(EMPTY, before).value;
    assert Fold(u, [e]) == match Apply(u, e) case None => None case Some(t) => Fold(t, []);
  }

  ghost predicate Inactive(s: State, id: string) {
    id in s.devices && !s.devices[id].active
  }

  /** The event authorizes the device under an epoch above the given one. */
  predicate Reauthorizes(e: Event, id: string, epoch: int) {
    e.payload.DeviceAuthorized? && e.payload.authorizedDeviceId == id && e.payload.authorizedEpoch > epoch
  }

  /** A revoked device becomes active again only through an authorization with a larger epoch. */
  lemma {:induction false} RevokedStaysRevoked(s: State, es: seq<Event>, id: string)
    requires s.controllerPublicKey.Some? && Inactive(s, id) && Fold(s, es).Some?
    ensures Inactive(Fold(s, es).value, id) || exists e :: e in es && Reauthorizes(e, id, s.epoch)
    decreases |es|
  {
    if es != [] {
      var t := Apply(s, es[0]).value;
      if Inactive(t, id) {
        RevokedStaysRevoked(t, es[1..], id);
        if !Inactive(Fold(s, es).value, id) {
          var e :| e in es[1..] && Reauthorizes(e, id, t.epoch);
          assert e in es && Reauthorizes(e, id, s.epoch);
        }
      } else {
        assert es[0] in es && Reauthorizes(es[0], id, s.epoch);
      }
    }
  }

  // ---- why ids must be told apart

  /** Two ids that compare as equal let the order of arrival decide: one order folds, the other fails. */
  lemma TiedIdsShowOrder()
    ensures var at := Instant(0, "t");
      var c := Event(EventId(0, "c"), 0, at, "k", "s", ControllerCreated("k", "d"), true, true, true);
      var a := Event(EventId(1, "a"), 1, at, "k", "s", DeviceAuthorized("x", "kx", 1, None, None), true, true, true);
      var b := Event(EventId(1, "b"), 1, at, "k", "s", DeviceAuthorized("y", "ky", 2, None, None), true, true, true);
      Project([c, a, b]).Some? && Project([c, b, a]).None?
  {
    var at := Instant(0, "t");
    var c := Event(EventId(0, "c"), 0, at, "k", "s", ControllerCreated("k", "d"), true, true, true);
    var a := Event(EventId(1, "a"), 1, at, "k", "s", DeviceAuthorized("x", "kx", 1, None, None), true, true, true);
    var b := Event(EventId(1, "b"), 1, at, "k", "s", DeviceAuthorized("y", "ky", 2, None, None), true, true, true);
    ProjectsInArrivalOrder(c, a, b);
    ProjectsInArrivalOrder(c, b, a);
    var s := Apply(EMPTY, c).value;
    assert Fold(EMPTY, [c, a, b]) == Fold(s, [a, b]) by { assert [c, a, b][1..] == [a, b]; }
    assert Fold(EMPTY, [c, b, a]) == Fold(s, [b, a]) by { assert [c, b, a][1..] == [b, a]; }
    assert [a, b][1..] == [b] && [b, a][1..] == [a];
    assert Fold(Apply(s, a).value, [b]).Some? by { assert [b][1..] == []; }
    assert Fold(Apply(s, b).value, [a]).None?;
  }

  lemma DedupeNext(es: seq<Event>, e: Event)
    requires Dedupe(es) == Some(es) && forall x :: x in es ==> x.eventId != e.eventId
    ensures Dedupe(es + [e]) == Some(es + [e])
  {
  }

  lemma ProjectsInArrivalOrder(c: Event, x: Event, y: Event)
    requires Before(c, x) && !Before(y, x)
    requires c.eventId != x.eventId && c.eventId != y.eventId && x.eventId != y.eventId
    requires c.envelopeOk && x.envelopeOk && y.envelopeOk
    ensures Project([c, x, y]) == Fold(EMPTY, [c, x, y])
  {
    assert [c, x, y][1..] == [x, y] && [x, y][1..] == [y] && [y][1..] == [];
    assert SortEvents([y]) == [y];
    assert SortEvents([x, y]) == [x, y];
    assert SortEvents([c, x, y]) == [c, x, y];
    assert [] + [c] == [c] && [c] + [x] == [c, x] && [c, x] + [y] == [c, x, y];
    DedupeNext([], c);
    DedupeNext([c], x);
    DedupeNext([c, x], y);
  }
}

/** The capability proof verifier over a resolved identity control log. */
module ControlLogVerifier {
  import opened Wrappers
  import opened ControlLog
  import ControlLogHistory
  import opened ControlLogReading

  datatype Verdict = Verified | Invalid | NotOurs

  /** A party as the proof record names it. */
  datatype Party = Party(kind: string, id: string, publicKeyRef: Option<string>)

  /** A proof record; wellFormed says that its required fields are present and non-empty. */
  datatype ProofRecord = ProofRecord(
    scheme: string, wellFormed: bool, proofId: EventId, issuer: Party, subject: Party, digest: string)

  type Matcher = (Party, State, Event) -> bool

  /** The one event under the id, if all events under it are the same. */
  method FindProofEvent(events: seq<Event>, proofId: EventId) returns (found: Option<Event>)
    ensures found.Some? ==> IsProofEvent(events, proofId, found.value)
    ensures found.None? ==> forall e :: !IsProofEvent(events, proofId, e)
  {
    found := None;
    var i := 0;
    while i < |events|
      invariant 0 <= i <= |events|
      invariant found.None? ==> forall k :: 0 <= k < i ==> events[k].eventId != proofId
      invariant found.Some? ==> found.value in events[..i] && found.value.eventId == proofId
      invariant found.Some? ==> forall k :: 0 <= k < i && events[k].eventId == proofId ==> events[k] == found.value
    {
      if events[i].eventId == proofId {
        if found.Some? && found.value != events[i] {
          assert found.value in events && events[i] in events;
          return None;
        }
        found := Some(events[i]);
      }
      i := i + 1;
    }
    if found.None? {
      forall e | e in events ensures e.eventId != proofId {
      }
    }
  }

  ghost predicate IsProofEvent(events: seq<Event>, proofId: EventId, e: Event) {
    e in events && e.eventId == proofId && forall f :: f in events && f.eventId == proofId ==> f == e
  }

  /** The grant is still in force: not revoked, unchanged, unexpired, and its device active. */
  predicate StillGrants(s: State, e: Event, now: int) {
    e.payload.CapabilityGranted?
    && var p := e.payload;
    && p.capabilityId in s.capabilities
    && s.capabilities[p.capabilityId].granted
    && s.capabilities[p.capabilityId].delegateDeviceId == p.delegateDeviceId
    && s.capabilities[p.capabilityId].expiresAt.text == p.expiresAt.text
    && now < p.expiresAt.ms
    && p.delegateDeviceId in s.devices
    && s.devices[p.delegateDeviceId].active
  }

  /** When a record of this scheme is verified, in terms of the log as a collection of events. */
  ghost predicate Verifies(record: ProofRecord, events: seq<Event>, now: int, digest: Event -> string,
                           issuerMatches: Matcher, subjectMatches: Matcher) {
    && record.wellFormed
    && events != []
    && (forall e :: e in events ==> e.verified)
    && Project(events).Some?
    && exists e :: IsProofEvent(events, record.proofId, e) && e.payload.CapabilityGranted?
         && record.digest == digest(e)
         && StillGrants(Project(events).value, e, now)
         && issuerMatches(record.issuer, Project(events).value, e)
         && subjectMatches(record.subject, Project(events).value, e)
  }

  /** log is absent when the resolver throws or finds none; a matcher that throws does not match. */
  method Verify(record: ProofRecord, log: Option<seq<Event>>, now: int, digest: Event -> string,
                issuerMatches: Matcher, subjectMatches: Matcher) returns (verdict: Verdict)
    ensures verdict == NotOurs <==> record.scheme != "identity-control-log"
    ensures verdict == Verified <==>
      record.scheme == "identity-control-log" && log.Some?
      && Verifies(record, log.value, now, digest, issuerMatches, subjectMatches)
  {
    if record.scheme != "identity-control-log" {
      return NotOurs;
    }
    if !record.wellFormed || log.None? || |log.value| == 0 {
      return Invalid;
    }
    var events := log.value;
    if exists e :: e in events && !e.verified {
      return Invalid;
    }
    var found := FindProofEvent(events, record.proofId);
    if found.None? {
      return Invalid;
    }
    var proofEvent := found.value;
    if !proofEvent.payload.CapabilityGranted? || record.digest != digest(proofEvent) {
      return Invalid;
    }
    var projection := SeedIdentityControlProjection(events);
    if projection.None? || !StillGrants(projection.value, proofEvent, now)
       || !issuerMatches(record.issuer, projection.value, proofEvent)
       || !subjectMatches(record.subject, projection.value, proofEvent) {
      return Invalid;
    }
    return Verified;
  }

  /**
   * Still in force, read off the events: of those that grant or withdraw the capability the last is
   * a grant to the same device with the same expiry, not over yet, and of those that enrol or revoke
   * the device the last enrols it.
   */
  lemma StillGrantsIff(events: seq<Event>, e: Event, now: int)
    requires Project(events).Some? && e.payload.CapabilityGranted?
    ensures var p := e.payload;
      var settled := Last(Kept(events), Settles(p.capabilityId));
      var decided := Last(Kept(events), Decides(p.delegateDeviceId));
      StillGrants(Project(events).value, e, now) <==>
        && settled.Some? && Granting(settled.value, p.capabilityId)
        && settled.value.payload.delegateDeviceId == p.delegateDeviceId
        && settled.value.payload.expiresAt.text == p.expiresAt.text
        && now < p.expiresAt.ms
        && decided.Some? && Enrolment(decided.value, p.delegateDeviceId)
  {
    var p := e.payload;
    CapabilityGrantedIff(events, p.capabilityId);
    DeviceActiveIff(events, p.delegateDeviceId);
    CapabilityIsRead(Kept(events), p.capabilityId);
    EndedIffLastEnds(Kept(events), Grants(p.capabilityId), Withdraws(p.capabilityId), Settles(p.capabilityId));
  }

  /** The verdict does not depend on the order of the log or on repeated events. */
  lemma VerdictIgnoresOrder(record: ProofRecord, a: seq<Event>, b: seq<Event>, now: int, digest: Event -> string,
                            issuerMatches: Matcher, subjectMatches: Matcher)
    requires SameEvents(a, b) && IdsSeparated(a)
    ensures Verifies(record, a, now, digest, issuerMatches, subjectMatches)
      <==> Verifies(record, b, now, digest, issuerMatches, subjectMatches)
  {
    ProjectionIgnoresOrder(a, b);
    assert a != [] ==> a[0] in b;
    assert b != [] ==> b[0] in a;
    forall e ensures IsProofEvent(a, record.proofId, e) <==> IsProofEvent(b, record.proofId, e) {
    }
  }

  /** A verified proof rests on a grant that its log's one controller signed, to a device still active. */
  lemma VerifiedRestsOnController(record: ProofRecord, events: seq<Event>, now: int, digest: Event -> string,
                                  issuerMatches: Matcher, subjectMatches: Matcher) returns (e: Event)
    requires Verifies(record, events, now, digest, issuerMatches, subjectMatches)
    ensures IsProofEvent(events, record.proofId, e) && e.payload.CapabilityGranted? && e.verified
    ensures Project(events).value.controllerPublicKey == Some(e.signer)
    ensures now < e.payload.expiresAt.ms && record.digest == digest(e)
    ensures issuerMatches(record.issuer, Project(events).value, e)
    ensures subjectMatches(record.subject, Project(events).value, e)
    ensures forall f :: f in events ==> f.verified
    ensures e.payload.delegateDeviceId in Project(events).value.devices
    ensures Project(events).value.devices[e.payload.delegateDeviceId].active
  {
    e :| IsProofEvent(events, record.proofId, e) && e.payload.CapabilityGranted?
      && record.digest == digest(e)
      && StillGrants(Project(events).value, e, now)
      && issuerMatches(record.issuer, Project(events).value, e)
      && subjectMatches(record.subject, Project(events).value, e);
    var kept := Dedupe(SortEvents(events)).value;
    SortEventsMembers(events, e);
    DedupeMembers(SortEvents(events));
    ControlLogHistory.OneControllerSignsAll(kept, e);
  }
}
