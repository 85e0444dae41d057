/** What the folded state says, read off the events of the log alone. */
module ControlLogReading {
  import opened Wrappers
  import opened ControlLog

  type Test = Event -> bool

  /** The last event that meets the test. */
  function Last(es: seq<Event>, p: Test): (last: Option<Event>)
    ensures last.None? <==> forall e :: e in es ==> !p(e)
    ensures last.Some? ==> exists i :: IsLast(es, p, i, last.value)
    decreases |es|
  {
    if es == [] then None
    else
      var n := |es| - 1;
      assert es == es[..n] + [es[n]];
      if p(es[n]) then
        assert IsLast(es, p, n, es[n]);
        Some(es[n])
      else
        var last := Last(es[..n], p);
        assert forall i, e :: IsLast(es[..n], p, i, e) ==> IsLast(es, p, i, e);
        last
  }

  ghost predicate IsLast(es: seq<Event>, p: Test, i: nat, e: Event) {
    i < |es| && es[i] == e && p(e) && forall j :: i < j < |es| ==> !p(es[j])
  }

  /** The first event that ends what the last starting one began. */
  function EndedBy(es: seq<Event>, starts: Test, ends: Test): Option<Event>
    decreases |es|
  {
    if es == [] then None
    else
      var before, e := es[..|es| - 1], es[|es| - 1];
      if starts(e) then None
      else if ends(e) && EndedBy(before, starts, ends).None? then Some(e)
      else EndedBy(before, starts, ends)
  }

  /** Ended exactly when the last event that starts or ends is one that ends. */
  lemma {:induction false} EndedIffLastEnds(es: seq<Event>, starts: Test, ends: Test, either: Test)
    requires forall e :: !(starts(e) && ends(e)) && (either(e) <==> starts(e) || ends(e))
    ensures EndedBy(es, starts, ends).Some? <==> Last(es, either).Some? && ends(Last(es, either).value)
    ensures Last(es, starts).Some? && EndedBy(es, starts, ends).None? <==>
      Last(es, either).Some? && !ends(Last(es, either).value)
    ensures EndedBy(es, starts, ends).None? ==> Last(es, starts) == Last(es, either)
    decreases |es|
  {
    if es != [] {
      EndedIffLastEnds(es[..|es| - 1], starts, ends, either);
    }
  }

  // ---- devices

  predicate Enrolment(e: Event, id: string) {
    || (e.payload.ControllerCreated? && e.payload.initialDeviceId == id)
    || (e.payload.DeviceAuthorized? && e.payload.authorizedDeviceId == id)
  }

  predicate Revocation(e: Event, id: string) {
    e.payload.DeviceRevoked? && e.payload.revokedDeviceId == id
  }

  predicate Rotation(e: Event, id: string) {
    e.payload.DeviceRotated? && e.payload.deviceId == id
  }

  function Enrols(id: string): Test { (e: Event) => Enrolment(e, id) }
  function Revokes(id: string): Test { (e: Event) => Revocation(e, id) }

  /** The event decides whether the device is active. */
  function Decides(id: string): Test { (e: Event) => Enrolment(e, id) || Revocation(e, id) }

  /** The event sets the device's key. */
  function Keys(id: string): Test { (e: Event) => Enrolment(e, id) || Rotation(e, id) }

  function KeyGiven(e: Event): string {
    match e.payload
    case ControllerCreated(key, _) => key
    case DeviceAuthorized(_, key, _, _, _) => key
    case DeviceRotated(_, _, key, _) => key
    case _ => ""
  }

  function TimeOf(e: Option<Event>): Option<Instant> {
    match e case None => None case Some(event) => Some(event.createdAt)
  }

  /**
   * The device as its events tell: enrolled at all, with the key and time of the last enrolment or
   * rotation, the wrap key of the last enrolment, and revoked since then or not.
   */
  ghost predicate DeviceRead(devices: map<string, Device>, es: seq<Event>, id: string) {
    var enrolled, keyed := Last(es, Enrols(id)), Last(es, Keys(id));
    var revoked := EndedBy(es, Enrols(id), Revokes(id));
    && (id in devices <==> enrolled.Some?)
    && (id in devices ==>
          && keyed.Some?
          && devices[id].publicKey == KeyGiven(keyed.value)
          && devices[id].authorizedAt == keyed.value.createdAt
          && devices[id].active == revoked.None?
          && devices[id].revokedAt == TimeOf(revoked)
          && (enrolled.value.payload.DeviceAuthorized? ==>
                && devices[id].wrapPublicKey == enrolled.value.payload.wrapPublicKey
                && devices[id].wrapKeyRef == enrolled.value.payload.wrapKeyRef)
          && (enrolled.value.payload.ControllerCreated? ==>
                devices[id].wrapPublicKey.None? && devices[id].wrapKeyRef.None?))
  }

  // ---- capabilities

  predicate Granting(e: Event, id: string) {
    e.payload.CapabilityGranted? && e.payload.capabilityId == id
  }

  predicate Withdrawal(e: Event, id: string) {
    e.payload.CapabilityRevoked? && e.payload.capabilityId == id
  }

  function Grants(id: string): Test { (e: Event) => Granting(e, id) }
  function Withdraws(id: string): Test { (e: Event) => Withdrawal(e, id) }

  /** The event decides whether the capability is granted. */
  function Settles(id: string): Test { (e: Event) => Granting(e, id) || Withdrawal(e, id) }

  /** The capability as its events tell: what the last grant says, and withdrawn since then or not. */
  ghost predicate CapabilityRead(capabilities: map<string, Capability>, es: seq<Event>, id: string) {
    var grant, withdrawn := Last(es, Grants(id)), EndedBy(es, Grants(id), Withdraws(id));
    && (id in capabilities <==> grant.Some?)
    && (id in capabilities ==>
          capabilities[id] == Capability(
            grant.value.payload.delegateDeviceId, grant.value.payload.scope, grant.value.payload.expiresAt,
            withdrawn.None?, grant.value.createdAt, TimeOf(withdrawn)))
  }

  // ---- the rest of the state

  function Creates(): Test { (e: Event) => e.payload.ControllerCreated? }
  function Publishes(): Test { (e: Event) => e.payload.ContactCardPublished? }
  function IsIdentityEvent(): Test { (e: Event) => !e.payload.Other? }

  function ControllerOf(es: seq<Event>): Option<string> {
    match Last(es, Creates()) case None => None case Some(e) => Some(KeyGiven(e))
  }

  /** The epoch of the last authorization, rotation, or revocation of a device not revoked before. */
  function EpochOf(es: seq<Event>): int
    decreases |es|
  {
    if es == [] then 0
    else
      var before := es[..|es| - 1];
      match es[|es| - 1].payload
      case DeviceAuthorized(_, _, epoch, _, _) => epoch
      case DeviceRotated(_, _, _, epoch) => epoch
      case DeviceRevoked(id, epoch) =>
        if EndedBy(before, Enrols(id), Revokes(id)).None? then epoch else EpochOf(before)
      case _ => EpochOf(before)
  }

  ghost predicate CardRead(card: Option<ContactCard>, es: seq<Event>) {
    match Last(es, Publishes())
    case None => card.None?
    case Some(e) =>
      card == if e.payload.ContactCardPublished?
              then Some(ContactCard(e.payload.contactCardDigest, e.payload.capturedAt, e.createdAt)) else None
  }

  ghost predicate LastIdRead(id: Option<EventId>, es: seq<Event>) {
    id == match Last(es, IsIdentityEvent()) case None => None case Some(e) => Some(e.eventId)
  }

  /** The whole state is what the events tell. */
  ghost predicate Reads(s: State, es: seq<Event>) {
    && s.controllerPublicKey == ControllerOf(es)
    && s.epoch == EpochOf(es)
    && (forall id :: DeviceRead(s.devices, es, id))
    && (forall id :: CapabilityRead(s.capabilities, es, id))
    && CardRead(s.contactCard, es)
    && LastIdRead(s.lastEventId, es)
  }

  lemma Appended(es: seq<Event>, e: Event)
    ensures (es + [e])[..|es + [e]| - 1] == es && (es + [e])[|es + [e]| - 1] == e
  {
  }

  lemma LastAppended(es: seq<Event>, e: Event, p: Test)
    ensures Last(es + [e], p) == if p(e) then Some(e) else Last(es, p)
  {
    Appended(es, e);
  }

  lemma EndedAppended(es: seq<Event>, e: Event, starts: Test, ends: Test)
    ensures EndedBy(es + [e], starts, ends) ==
      if starts(e) then None
      else if ends(e) && EndedBy(es, starts, ends).None? then Some(e)
      else EndedBy(es, starts, ends)
  {
    Appended(es, e);
  }

  predicate Touches(e: Event, id: string) {
    Enrolment(e, id) || Rotation(e, id) || Revocation(e, id)
  }

  /** An event about something else leaves the device as it is. */
  lemma OtherDeviceStays(s: State, e: Event, id: string)
    requires Apply(s, e).Some? && !Touches(e, id)
    ensures var t := Apply(s, e).value;
      (id in t.devices <==> id in s.devices) && (id in s.devices ==> t.devices[id] == s.devices[id])
  {
  }

  lemma DeviceAppended(es: seq<Event>, e: Event, id: string)
    ensures Last(es + [e], Enrols(id)) == if Enrols(id)(e) then Some(e) else Last(es, Enrols(id))
    ensures Last(es + [e], Keys(id)) == if Keys(id)(e) then Some(e) else Last(es, Keys(id))
    ensures EndedBy(es + [e], Enrols(id), Revokes(id)) ==
      if Enrols(id)(e) then None
      else if Revokes(id)(e) && EndedBy(es, Enrols(id), Revokes(id)).None? then Some(e)
      else EndedBy(es, Enrols(id), Revokes(id))
  {
    LastAppended(es, e, Enrols(id));
    LastAppended(es, e, Keys(id));
    EndedAppended(es, e, Enrols(id), Revokes(id));
  }

  /** What an event about the device makes of it. */
  lemma TouchedDevice(s: State, e: Event, id: string)
    requires Apply(s, e).Some? && Touches(e, id)
    ensures var devices := Apply(s, e).value.devices;
      && id in devices
      && (e.payload.ControllerCreated? ==>
            devices[id] == Device(e.payload.controllerPublicKey, true, e.createdAt, None, None, None))
      && (e.payload.DeviceAuthorized? ==>
            devices[id] == Device(e.payload.authorizedPublicKey, true, e.createdAt, None, e.payload.wrapPublicKey,
                                  e.payload.wrapKeyRef))
      && (e.payload.DeviceRevoked? ==>
            id in s.devices &&
            devices[id] == if s.devices[id].active then s.devices[id].(active := false, revokedAt := Some(e.createdAt))
                           else s.devices[id])
      && (e.payload.DeviceRotated? ==>
            id in s.devices && s.devices[id].active
            && devices[id] == s.devices[id].(publicKey := e.payload.newPublicKey, authorizedAt := e.createdAt))
  {
  }

  lemma DeviceStep(s: State, es: seq<Event>, e: Event, id: string)
    requires Apply(s, e).Some? && DeviceRead(s.devices, es, id)
    ensures DeviceRead(Apply(s, e).value.devices, es + [e], id)
  {
    DeviceAppended(es, e, id);
    if Touches(e, id) {
      TouchedDevice(s, e, id);
    } else {
      OtherDeviceStays(s, e, id);
    }
  }

  lemma OtherCapabilityStays(s: State, e: Event, id: string)
    requires Apply(s, e).Some? && !Granting(e, id) && !Withdrawal(e, id)
    ensures var t := Apply(s, e).value;
      && (id in t.capabilities <==> id in s.capabilities)
      && (id in s.capabilities ==> t.capabilities[id] == s.capabilities[id])
  {
  }

  lemma TouchedCapability(s: State, e: Event, id: string)
    requires Apply(s, e).Some? && (Granting(e, id) || Withdrawal(e, id))
    ensures var capabilities := Apply(s, e).value.capabilities;
      && id in capabilities
      && (e.payload.CapabilityGranted? ==>
            capabilities[id] ==
              Capability(e.payload.delegateDeviceId, e.payload.scope, e.payload.expiresAt, true, e.createdAt, None))
      && (e.payload.CapabilityRevoked? ==>
            id in s.capabilities &&
            capabilities[id] ==
              if s.capabilities[id].granted then s.capabilities[id].(granted := false, revokedAt := Some(e.createdAt))
              else s.capabilities[id])
  {
  }

  lemma CapabilityStep(s: State, es: seq<Event>, e: Event, id: string)
    requires Apply(s, e).Some? && CapabilityRead(s.capabilities, es, id)
    ensures CapabilityRead(Apply(s, e).value.capabilities, es + [e], id)
  {
    LastAppended(es, e, Grants(id));
    EndedAppended(es, e, Grants(id), Withdraws(id));
    if Granting(e, id) || Withdrawal(e, id) {
      TouchedCapability(s, e, id);
    } else {
      OtherCapabilityStays(s, e, id);
    }
  }

  lemma EpochStep(s: State, es: seq<Event>, e: Event)
    requires Apply(s, e).Some? && s.epoch == EpochOf(es) && forall id :: DeviceRead(s.devices, es, id)
    ensures Apply(s, e).value.epoch == EpochOf(es + [e])
  {
    Appended(es, e);
    if e.payload.DeviceRevoked? {
      assert DeviceRead(s.devices, es, e.payload.revokedDeviceId);
    }
  }

  lemma ControllerStep(s: State, es: seq<Event>, e: Event)
    requires Apply(s, e).Some? && s.controllerPublicKey == ControllerOf(es)
    ensures Apply(s, e).value.controllerPublicKey == ControllerOf(es + [e])
  {
    LastAppended(es, e, Creates());
  }

  lemma CardStep(s: State, es: seq<Event>, e: Event)
    requires Apply(s, e).Some? && CardRead(s.contactCard, es)
    ensures CardRead(Apply(s, e).value.contactCard, es + [e])
  {
    LastAppended(es, e, Publishes());
  }

  lemma LastIdStep(s: State, es: seq<Event>, e: Event)
    requires Apply(s, e).Some? && LastIdRead(s.lastEventId, es)
    ensures LastIdRead(Apply(s, e).value.lastEventId, es + [e])
  {
    LastAppended(es, e, IsIdentityEvent());
  }

  lemma ReadsStep(s: State, es: seq<Event>, e: Event)
    requires Apply(s, e).Some? && Reads(s, es)
    ensures Reads(Apply(s, e).value, es + [e])
  {
    forall id ensures DeviceRead(Apply(s, e).value.devices, es + [e], id) {
      DeviceStep(s, es, e, id);
    }
    forall id ensures CapabilityRead(Apply(s, e).value.capabilities, es + [e], id) {
      CapabilityStep(s, es, e, id);
    }
    EpochStep(s, es, e);
    ControllerStep(s, es, e);
    CardStep(s, es, e);
    LastIdStep(s, es, e);
  }

  lemma FoldAppended(before: seq<Event>, e: Event)
    ensures Fold(EMPTY, before + [e]) ==
      match Fold(EMPTY, before)
      case None => None
      case Some(s) => Apply(s, e)
  {
    FoldConcat(EMPTY, before, [e]);
    if Fold(EMPTY, before).Some? {
      assert [e][1..] == [];
    }
  }

  lemma EmptyReads()
    ensures Reads(EMPTY, [])
  {
  }

  /** The fold of a log is what its events tell. */
  lemma {:induction false} FoldReads(es: seq<Event>)
    requires Fold(EMPTY, es).Some?
    ensures Reads(Fold(EMPTY, es).value, es)
    decreases |es|
  {
    if es == [] {
      EmptyReads();
    } else {
      var before, e := es[..|es| - 1], es[|es| - 1];
      assert es == before + [e];
      FoldAppended(before, e);
      FoldReads(before);
      ReadsStep(Fold(EMPTY, before).value, before, e);
    }
  }

  lemma DeviceIsRead(es: seq<Event>, id: string)
    requires Fold(EMPTY, es).Some?
    ensures DeviceRead(Fold(EMPTY, es).value.devices, es, id)
  {
    FoldReads(es);
  }

  lemma CapabilityIsRead(es: seq<Event>, id: string)
    requires Fold(EMPTY, es).Some?
    ensures CapabilityRead(Fold(EMPTY, es).value.capabilities, es, id)
  {
    FoldReads(es);
  }

  // ---- which logs fold

  predicate BySettledController(before: seq<Event>, e: Event) {
    ControllerOf(before) == Some(e.signer)
  }

  predicate Enrolled(es: seq<Event>, id: string) {
    Last(es, Enrols(id)).Some?
  }

  predicate ActiveIn(es: seq<Event>, id: string) {
    Enrolled(es, id) && EndedBy(es, Enrols(id), Revokes(id)).None?
  }

  /** The event may follow those before it. */
  predicate Admissible(before: seq<Event>, e: Event) {
    && e.envelopeOk && e.payloadOk
    && match e.payload
       case Other(_) => true
       case ControllerCreated(key, _) => ControllerOf(before).None? && e.signer == key
       case DeviceAuthorized(_, _, epoch, wrapKey, wrapRef) =>
         BySettledController(before, e) && wrapKey.None? == wrapRef.None? && epoch > EpochOf(before) && epoch > 0
       case DeviceRevoked(id, epoch) =>
         && BySettledController(before, e) && epoch > 0 && Enrolled(before, id)
         && (ActiveIn(before, id) ==> epoch > EpochOf(before))
       case DeviceRotated(id, previousKey, newKey, epoch) =>
         && BySettledController(before, e) && epoch > EpochOf(before) && epoch > 0
         && ActiveIn(before, id) && KeyGiven(Last(before, Keys(id)).value) == previousKey != newKey
       case CapabilityGranted(_, _, _, _) => BySettledController(before, e)
       case CapabilityRevoked(id, delegate) =>
         && BySettledController(before, e) && Last(before, Grants(id)).Some?
         && Last(before, Grants(id)).value.payload.delegateDeviceId == delegate
       case ContactCardPublished(_, _) => BySettledController(before, e)
  }

  lemma AppliesIffAdmissible(s: State, before: seq<Event>, e: Event)
    requires Reads(s, before)
    ensures Apply(s, e).Some? <==> Admissible(before, e)
  {
    match e.payload
    case DeviceRevoked(id, _) => assert DeviceRead(s.devices, before, id);
    case DeviceRotated(id, _, _, _) => assert DeviceRead(s.devices, before, id);
    case CapabilityRevoked(id, _) => assert CapabilityRead(s.capabilities, before, id);
    case _ =>
  }

  ghost predicate AllAdmissible(es: seq<Event>) {
    forall i :: 0 <= i < |es| ==> Admissible(es[..i], es[i])
  }

  lemma AdmissibleAppended(before: seq<Event>, e: Event)
    ensures AllAdmissible(before + [e]) <==> AllAdmissible(before) && Admissible(before, e)
  {
    var es := before + [e];
    assert es[..|before|] == before && es[|before|] == e;
    assert forall i :: 0 <= i < |before| ==> es[..i] == before[..i] && es[i] == before[i];
  }

  /** A log folds if and only if each of its events may follow those before it. */
  lemma {:induction false} FoldsIffAdmissible(es: seq<Event>)
    ensures Fold(EMPTY, es).Some? <==> AllAdmissible(es)
    decreases |es|
  {
    if es != [] {
      var before, e := es[..|es| - 1], es[|es| - 1];
      assert es == before + [e];
      FoldAppended(before, e);
      AdmissibleAppended(before, e);
      FoldsIffAdmissible(before);
      if Fold(EMPTY, before).Some? {
        FoldReads(before);
        AppliesIffAdmissible(Fold(EMPTY, before).value, before, e);
      }
    }
  }

  // ---- revocations take effect

  /** After a revocation the device is there and inactive, and every other device is as before. */
  lemma RevocationTakesEffect(before: seq<Event>, e: Event)
    requires e.payload.DeviceRevoked? && Fold(EMPTY, before + [e]).Some?
    ensures var u, v := Fold(EMPTY, before), Fold(EMPTY, before + [e]);
      var id := e.payload.revokedDeviceId;
      && u.Some?
      && id in u.value.devices && id in v.value.devices
      && !v.value.devices[id].active && v.value.devices[id].revokedAt.Some?
      && v.value.devices[id].publicKey == u.value.devices[id].publicKey
      && v.value.devices - {id} == u.value.devices - {id}
      && v.value.capabilities == u.value.capabilities
  {
    FoldAppended(before, e);
    RevocationApplied(Fold(EMPTY, before).value, e);
    DeviceIsRead(before, e.payload.revokedDeviceId);
    RevokedHasTime(before, e.payload.revokedDeviceId);
  }

  lemma RevocationApplied(s: State, e: Event)
    requires e.payload.DeviceRevoked? && Apply(s, e).Some?
    ensures var t, id := Apply(s, e).value, e.payload.revokedDeviceId;
      && id in s.devices && id in t.devices
      && !t.devices[id].active
      && t.devices[id].publicKey == s.devices[id].publicKey
      && (if s.devices[id].active then t.devices[id].revokedAt == Some(e.createdAt) else t.devices[id] == s.devices[id])
      && t.devices - {id} == s.devices - {id}
      && t.capabilities == s.capabilities
  {
  }

  lemma RevokedHasTime(es: seq<Event>, id: string)
    requires Fold(EMPTY, es).Some? && id in Fold(EMPTY, es).value.devices
    ensures Fold(EMPTY, es).value.devices[id].active <==> Fold(EMPTY, es).value.devices[id].revokedAt.None?
  {
    DeviceIsRead(es, id);
  }

  /** After a withdrawal the capability is there and not granted, and every other one is as before. */
  lemma WithdrawalTakesEffect(before: seq<Event>, e: Event)
    requires e.payload.CapabilityRevoked? && Fold(EMPTY, before + [e]).Some?
    ensures var u, v := Fold(EMPTY, before), Fold(EMPTY, before + [e]);
      var id := e.payload.capabilityId;
      && u.Some?
      && id in u.value.capabilities && id in v.value.capabilities
      && !v.value.capabilities[id].granted
      && v.value.capabilities - {id} == u.value.capabilities - {id}
      && v.value.devices == u.value.devices
  {
    FoldAppended(before, e);
    WithdrawalApplied(Fold(EMPTY, before).value, e);
  }

  lemma WithdrawalApplied(s: State, e: Event)
    requires e.payload.CapabilityRevoked? && Apply(s, e).Some?
    ensures var t, id := Apply(s, e).value, e.payload.capabilityId;
      && id in s.capabilities && id in t.capabilities && !t.capabilities[id].granted
      && t.capabilities - {id} == s.capabilities - {id} && t.devices == s.devices
  {
  }

  // ---- the projection

  /** The events a projection folds: each once, by lamport clock, then time, then id. */
  function Kept(events: seq<Event>): seq<Event>
    requires Project(events).Some?
  {
    Dedupe(SortEvents(events)).value
  }

  lemma KeptSorted(events: seq<Event>)
    requires Project(events).Some?
    ensures SameEvents(Kept(events), events) && DistinctIds(Kept(events))
    ensures forall i, j :: 0 <= i < j < |Kept(events)| ==>
      var a, b := Kept(events)[i], Kept(events)[j];
      && a.lamport <= b.lamport
      && (a.lamport == b.lamport ==> a.createdAt.ms <= b.createdAt.ms)
      && (a.lamport == b.lamport && a.createdAt.ms == b.createdAt.ms ==> a.eventId.collation <= b.eventId.collation)
  {
    DedupeMembers(SortEvents(events));
    SortEventsInOrder(events);
    DedupeInOrder(SortEvents(events));
    forall e ensures e in Kept(events) <==> e in events {
      SortEventsMembers(events, e);
    }
    assert forall i, j :: 0 <= i < j < |Kept(events)| ==> !Before(Kept(events)[j], Kept(events)[i]);
  }

  lemma ProjectReads(events: seq<Event>)
    requires Project(events).Some?
    ensures Reads(Project(events).value, Kept(events))
  {
    FoldReads(Kept(events));
  }

  /** A log projects exactly when its envelopes are sound, no two events claim one id, and each may follow the earlier. */
  lemma ProjectsIff(events: seq<Event>)
    ensures Project(events).Some? <==>
      && (forall e :: e in events ==> e.envelopeOk)
      && !Conflicting(events)
      && Dedupe(SortEvents(events)).Some? && AllAdmissible(Dedupe(SortEvents(events)).value)
  {
    var sorted := SortEvents(events);
    DedupeMembers(sorted);
    forall e ensures e in sorted <==> e in events {
      SortEventsMembers(events, e);
    }
    if Conflicting(events) {
      var a, b :| a in events && b in events && a.eventId == b.eventId && a != b;
      assert a in sorted && b in sorted;
    }
    if Dedupe(sorted).Some? {
      FoldsIffAdmissible(Dedupe(sorted).value);
    }
  }

  /** A device is active if and only if, of the events that enrol or revoke it, the last enrols it. */
  lemma DeviceActiveIff(events: seq<Event>, id: string)
    requires Project(events).Some?
    ensures var devices, last := Project(events).value.devices, Last(Kept(events), Decides(id));
      id in devices && devices[id].active <==> last.Some? && !Revocation(last.value, id)
  {
    DeviceIsRead(Kept(events), id);
    EndedIffLastEnds(Kept(events), Enrols(id), Revokes(id), Decides(id));
  }

  /** A capability is granted if and only if, of the events that grant or withdraw it, the last grants it. */
  lemma CapabilityGrantedIff(events: seq<Event>, id: string)
    requires Project(events).Some?
    ensures var capabilities, last := Project(events).value.capabilities, Last(Kept(events), Settles(id));
      id in capabilities && capabilities[id].granted <==> last.Some? && !Withdrawal(last.value, id)
  {
    CapabilityIsRead(Kept(events), id);
    EndedIffLastEnds(Kept(events), Grants(id), Withdraws(id), Settles(id));
  }
}
