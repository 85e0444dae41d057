/** The capability projection: grants, revocations and invocations folded in any order of arrival. */
module CapabilityProjection {
  import opened Wrappers

  type Id = string

  datatype Grant = Grant(capabilityId: Id, body: string)
  datatype Revocation = Revocation(revocationId: Id, capabilityId: Id, createdAt: string)

  datatype GrantEntry = GrantEntry(grant: Grant, revoked: bool, revokedAt: Option<string>, revocationIds: seq<Id>)

  /** revocations lists the record's values in key insertion order, each id once. */
  datatype Projection = Projection(grants: map<Id, GrantEntry>, revocations: seq<Revocation>, invocationIds: set<Id>)

  const EMPTY := Projection(map[], [], {})

  /** Replaces the revocation stored under the same id, keeping its position, or appends a new one. */
  function PutRevocation(rs: seq<Revocation>, r: Revocation): seq<Revocation> {
    if rs == [] then [r]
    else if rs[0].revocationId == r.revocationId then [r] + rs[1..]
    else [rs[0]] + PutRevocation(rs[1..], r)
  }

  function ForCapability(rs: seq<Revocation>, id: Id): seq<Revocation> {
    if rs == [] then []
    else if rs[0].capabilityId == id then [rs[0]] + ForCapability(rs[1..], id)
    else ForCapability(rs[1..], id)
  }

  function IdsOf(rs: seq<Revocation>): seq<Id> {
    if rs == [] then [] else [rs[0].revocationId] + IdsOf(rs[1..])
  }

  /** The members of a set built from a and then b, in insertion order; a has no duplicates. */
  function Union(a: seq<Id>, b: seq<Id>): seq<Id>
    decreases |b|
  {
    if b == [] then a
    else if b[0] in a then Union(a, b[1..])
    else Union(a + [b[0]], b[1..])
  }

  function OrElse(a: Option<string>, b: Option<string>): Option<string> {
    if a.Some? then a else b
  }

  function FirstCreatedAt(rs: seq<Revocation>): Option<string> {
    if rs == [] then None else Some(rs[0].createdAt)
  }

  function ApplyGrant(p: Projection, g: Grant): Projection {
    var id := g.capabilityId;
    var prior := ForCapability(p.revocations, id);
    if (id in p.grants && p.grants[id].revoked) || prior != [] then
      var kept := if id in p.grants then p.grants[id].grant else g;
      var revokedAt := OrElse(if id in p.grants then p.grants[id].revokedAt else None, FirstCreatedAt(prior));
      var ids := Union(if id in p.grants then p.grants[id].revocationIds else [], IdsOf(prior));
      p.(grants := p.grants[id := GrantEntry(kept, true, revokedAt, ids)])
    else
      p.(grants := p.grants[id := GrantEntry(g, false, None, [])])
  }

  function ApplyRevocation(p: Projection, r: Revocation): Projection {
    var id := r.capabilityId;
    var grants :=
      if id !in p.grants then p.grants
      else
        var e := p.grants[id];
        p.grants[id := e.(revoked := true, revokedAt := OrElse(e.revokedAt, Some(r.createdAt)),
                          revocationIds := Union(e.revocationIds, [r.revocationId]))];
    p.(revocations := PutRevocation(p.revocations, r), grants := grants)
  }

  function ApplyInvocation(p: Projection, id: Id): Projection {
    p.(invocationIds := p.invocationIds + {id})
  }

  predicate IsCapabilityRevoked(p: Projection, id: Id) {
    (id in p.grants && p.grants[id].revoked) || ForCapability(p.revocations, id) != []
  }

  // ---- folds of events

  datatype Event = Granted(grant: Grant) | Revoked(revocation: Revocation) | Invoked(invocationId: Id)

  function Apply(p: Projection, e: Event): Projection {
    match e
    case Granted(g) => ApplyGrant(p, g)
    case Revoked(r) => ApplyRevocation(p, r)
    case Invoked(id) => ApplyInvocation(p, id)
  }

  function Fold(es: seq<Event>): Projection {
    if es == [] then EMPTY else Apply(Fold(es[..|es| - 1]), es[|es| - 1])
  }

  /** Each revocation id names one revocation; grants may be reissued under one capability id. */
  ghost predicate RevocationIdsNamed(es: seq<Event>) {
    forall e, f | e in es && f in es && e.Revoked? && f.Revoked? ::
      e.revocation.revocationId == f.revocation.revocationId ==> e == f
  }

  /** Each capability id has one grant and each revocation id names one revocation. */
  ghost predicate Consistent(es: seq<Event>) {
    && RevocationIdsNamed(es)
    && (forall e, f | e in es && f in es && e.Granted? && f.Granted? ::
          e.grant.capabilityId == f.grant.capabilityId ==> e == f)
  }

  // ---- the closed form of a fold

  /** The revocations among the events, each at its first appearance. */
  function RevocationsIn(es: seq<Event>): seq<Revocation> {
    if es == [] then []
    else
      var rest := RevocationsIn(es[..|es| - 1]);
      var e := es[|es| - 1];
      if e.Revoked? && e.revocation !in rest then rest + [e.revocation] else rest
  }

  function EntryFor(g: Grant, rs: seq<Revocation>): GrantEntry {
    GrantEntry(g, rs != [], FirstCreatedAt(rs), IdsOf(rs))
  }

  ghost predicate DistinctIds(rs: seq<Revocation>) {
    forall i, j :: 0 <= i < j < |rs| ==> rs[i].revocationId != rs[j].revocationId
  }

  /** The grant a capability goes by: the last one before it was revoked, or else the first one after. */
  function GrantOf(es: seq<Event>, id: Id): Option<Grant>
    decreases |es|
  {
    if es == [] then None
    else
      var before, e := es[..|es| - 1], es[|es| - 1];
      if e.Granted? && e.grant.capabilityId == id
         && (GrantOf(before, id).None? || ForCapability(RevocationsIn(before), id) == [])
      then Some(e.grant)
      else GrantOf(before, id)
  }

  /** What a projection of the given events must be, without reference to how it was computed. */
  ghost predicate IsProjectionOf(p: Projection, es: seq<Event>) {
    && p.revocations == RevocationsIn(es)
    && (forall id :: id in p.invocationIds <==> Invoked(id) in es)
    && (forall id :: id in p.grants <==> GrantOf(es, id).Some?)
    && (forall id :: id in p.grants ==>
          p.grants[id] == EntryFor(GrantOf(es, id).value, ForCapability(RevocationsIn(es), id)))
  }

  lemma Appended(es: seq<Event>, e: Event)
    ensures (es + [e])[..|es + [e]| - 1] == es && (es + [e])[|es + [e]| - 1] == e
  {
  }

  lemma GrantOfAppended(es: seq<Event>, e: Event, id: Id)
    ensures GrantOf(es + [e], id) ==
      if e.Granted? && e.grant.capabilityId == id
         && (GrantOf(es, id).None? || ForCapability(RevocationsIn(es), id) == [])
      then Some(e.grant)
      else GrantOf(es, id)
  {
    Appended(es, e);
  }

  /** A capability goes by one of its grants, as soon as there is one. */
  lemma {:induction false} GrantOfMember(es: seq<Event>, id: Id)
    ensures GrantOf(es, id).Some? <==> exists e :: e in es && e.Granted? && e.grant.capabilityId == id
    ensures GrantOf(es, id).Some? ==> Granted(GrantOf(es, id).value) in es && GrantOf(es, id).value.capabilityId == id
    decreases |es|
  {
    if es != [] {
      var n := |es| - 1;
      GrantOfMember(es[..n], id);
      assert es == es[..n] + [es[n]];
    }
  }

  /** With one grant per capability id that is the grant. */
  lemma OnlyGrant(es: seq<Event>, g: Grant)
    requires Consistent(es) && Granted(g) in es
    ensures GrantOf(es, g.capabilityId) == Some(g)
  {
    GrantOfMember(es, g.capabilityId);
  }

  lemma {:induction false} ForCapabilityAppend(rs: seq<Revocation>, r: Revocation, id: Id)
    ensures ForCapability(rs + [r], id) ==
      if r.capabilityId == id then ForCapability(rs, id) + [r] else ForCapability(rs, id)
  {
    if rs == [] {
      assert rs + [r] == [r] && [r][1..] == [];
    } else {
      assert (rs + [r])[1..] == rs[1..] + [r];
      ForCapabilityAppend(rs[1..], r, id);
    }
  }

  lemma {:induction false} IdsOfAppend(rs: seq<Revocation>, r: Revocation)
    ensures IdsOf(rs + [r]) == IdsOf(rs) + [r.revocationId]
  {
    if rs == [] {
      assert rs + [r] == [r] && [r][1..] == [];
    } else {
      assert (rs + [r])[1..] == rs[1..] + [r];
      IdsOfAppend(rs[1..], r);
    }
  }

  lemma {:induction false} IdsOfMember(rs: seq<Revocation>, x: Id)
    ensures x in IdsOf(rs) <==> exists r :: r in rs && r.revocationId == x
  {
    if rs != [] {
      IdsOfMember(rs[1..], x);
      assert rs == [rs[0]] + rs[1..];
    }
  }

  lemma {:induction false} ForCapabilityMember(rs: seq<Revocation>, id: Id, r: Revocation)
    ensures r in ForCapability(rs, id) <==> r in rs && r.capabilityId == id
  {
    if rs != [] {
      ForCapabilityMember(rs[1..], id, r);
      assert rs == [rs[0]] + rs[1..];
    }
  }

  lemma {:induction false} RevocationsInMember(es: seq<Event>, r: Revocation)
    ensures r in RevocationsIn(es) <==> Revoked(r) in es
    decreases |es|
  {
    if es != [] {
      var n := |es| - 1;
      RevocationsInMember(es[..n], r);
      assert es == es[..n] + [es[n]];
    }
  }

  lemma {:induction false} RevocationsInDistinct(es: seq<Event>)
    requires RevocationIdsNamed(es)
    ensures DistinctIds(RevocationsIn(es))
    decreases |es|
  {
    if es != [] {
      var n := |es| - 1;
      var rest := RevocationsIn(es[..n]);
      RevocationsInDistinct(es[..n]);
      if es[n].Revoked? && es[n].revocation !in rest {
        forall i | 0 <= i < |rest| ensures rest[i].revocationId != es[n].revocation.revocationId {
          RevocationsInMember(es[..n], rest[i]);
          assert Revoked(rest[i]) in es && es[n] in es;
          assert rest[i] in rest;
        }
      }
    }
  }

  /** Storing a revocation whose id is new appends it; storing one already there changes nothing. */
  lemma {:induction false} PutRevocationExact(rs: seq<Revocation>, r: Revocation)
    requires DistinctIds(rs)
    requires forall x :: x in rs && x.revocationId == r.revocationId ==> x == r
    ensures PutRevocation(rs, r) == if r in rs then rs else rs + [r]
  {
    if rs != [] {
      assert rs[0] in rs;
      assert rs == [rs[0]] + rs[1..];
      if rs[0].revocationId != r.revocationId {
        PutRevocationExact(rs[1..], r);
      }
    }
  }

  lemma {:induction false} UnionSelf(a: seq<Id>, b: seq<Id>)
    requires forall x :: x in b ==> x in a
    ensures Union(a, b) == a
    decreases |b|
  {
    if b != [] {
      assert b[0] in a;
      UnionSelf(a, b[1..]);
    }
  }

  lemma {:induction false} UnionFresh(a: seq<Id>, b: seq<Id>)
    requires forall i, j :: 0 <= i < j < |b| ==> b[i] != b[j]
    requires forall i :: 0 <= i < |b| ==> b[i] !in a
    ensures Union(a, b) == a + b
    decreases |b|
  {
    if b != [] {
      UnionFresh(a + [b[0]], b[1..]);
      assert a + [b[0]] + b[1..] == a + b;
    }
  }

  lemma {:induction false} IdsDistinct(rs: seq<Revocation>)
    requires DistinctIds(rs)
    ensures |IdsOf(rs)| == |rs|
    ensures forall i :: 0 <= i < |rs| ==> IdsOf(rs)[i] == rs[i].revocationId
  {
    if rs != [] {
      IdsDistinct(rs[1..]);
    }
  }

  lemma {:induction false} ForCapabilityDistinct(rs: seq<Revocation>, id: Id)
    requires DistinctIds(rs)
    ensures DistinctIds(ForCapability(rs, id))
  {
    if rs != [] {
      ForCapabilityDistinct(rs[1..], id);
      var rest := ForCapability(rs[1..], id);
      forall i | 0 <= i < |rest| ensures rest[i].revocationId != rs[0].revocationId {
        ForCapabilityMember(rs[1..], id, rest[i]);
        assert rest[i] in rest;
      }
    }
  }

  /** Applying a grant to the projection of earlier events gives its closed-form entry. */
  lemma GrantGivesEntry(p: Projection, es: seq<Event>, g: Grant)
    requires IsProjectionOf(p, es) && DistinctIds(RevocationsIn(es))
    ensures var id := g.capabilityId;
      ApplyGrant(p, g) == p.(grants := p.grants[
        id := EntryFor(GrantOf(es + [Granted(g)], id).value, ForCapability(RevocationsIn(es), id))])
  {
    var id := g.capabilityId;
    var prior := ForCapability(RevocationsIn(es), id);
    GrantOfAppended(es, Granted(g), id);
    ForCapabilityDistinct(RevocationsIn(es), id);
    IdsDistinct(prior);
    if id in p.grants {
      UnionSelf(IdsOf(prior), IdsOf(prior));
    } else {
      UnionFresh([], IdsOf(prior));
      assert [] + IdsOf(prior) == IdsOf(prior);
    }
  }

  lemma GrantStep(p: Projection, es: seq<Event>, g: Grant)
    requires IsProjectionOf(p, es) && DistinctIds(RevocationsIn(es))
    ensures IsProjectionOf(ApplyGrant(p, g), es + [Granted(g)])
  {
    GrantGivesEntry(p, es, g);
    Appended(es, Granted(g));
    forall id ensures GrantOf(es + [Granted(g)], id) ==
      if g.capabilityId == id && (GrantOf(es, id).None? || ForCapability(RevocationsIn(es), id) == []) then Some(g)
      else GrantOf(es, id)
    {
      GrantOfAppended(es, Granted(g), id);
    }
  }

  lemma InvocationStep(p: Projection, es: seq<Event>, id: Id)
    requires IsProjectionOf(p, es)
    ensures IsProjectionOf(ApplyInvocation(p, id), es + [Invoked(id)])
  {
    Appended(es, Invoked(id));
    forall x ensures GrantOf(es + [Invoked(id)], x) == GrantOf(es, x) {
      GrantOfAppended(es, Invoked(id), x);
    }
  }

  /** Applying a revocation updates the entry of its capability to the closed form with it included. */
  lemma RevocationGivesEntry(p: Projection, es: seq<Event>, r: Revocation, id: Id)
    requires IsProjectionOf(p, es) && DistinctIds(RevocationsIn(es)) && id in p.grants
    requires forall x :: x in RevocationsIn(es) && x.revocationId == r.revocationId ==> x == r
    ensures var rs := if r in RevocationsIn(es) then RevocationsIn(es) else RevocationsIn(es) + [r];
      id in ApplyRevocation(p, r).grants
      && ApplyRevocation(p, r).grants[id] == EntryFor(GrantOf(es, id).value, ForCapability(rs, id))
  {
    var before := RevocationsIn(es);
    var mine := ForCapability(before, id);
    ForCapabilityAppend(before, r, id);
    if r.capabilityId == id {
      IdsOfMember(mine, r.revocationId);
      if r in before {
        ForCapabilityMember(before, id, r);
        UnionSelf(IdsOf(mine), [r.revocationId]);
      } else {
        forall x | x in mine ensures x.revocationId != r.revocationId {
          ForCapabilityMember(before, id, x);
        }
        UnionFresh(IdsOf(mine), [r.revocationId]);
        IdsOfAppend(mine, r);
      }
    }
  }

  lemma RevocationStep(p: Projection, es: seq<Event>, r: Revocation)
    requires IsProjectionOf(p, es) && DistinctIds(RevocationsIn(es))
    requires forall x :: x in RevocationsIn(es) && x.revocationId == r.revocationId ==> x == r
    ensures IsProjectionOf(ApplyRevocation(p, r), es + [Revoked(r)])
  {
    Appended(es, Revoked(r));
    PutRevocationExact(RevocationsIn(es), r);
    forall id ensures GrantOf(es + [Revoked(r)], id) == GrantOf(es, id) {
      GrantOfAppended(es, Revoked(r), id);
    }
    forall id | id in p.grants
      ensures id in ApplyRevocation(p, r).grants
        && ApplyRevocation(p, r).grants[id] ==
          EntryFor(GrantOf(es, id).value, ForCapability(RevocationsIn(es + [Revoked(r)]), id))
    {
      RevocationGivesEntry(p, es, r, id);
    }
  }

  /** The fold is the closed form, reissued grants included, while no revocation id is reused. */
  lemma {:induction false} FoldIsProjection(es: seq<Event>)
    requires RevocationIdsNamed(es)
    ensures IsProjectionOf(Fold(es), es)
    decreases |es|
  {
    if es != [] {
      var n := |es| - 1;
      var before, e := es[..n], es[n];
      assert es == before + [e];
      FoldIsProjection(before);
      RevocationsInDistinct(before);
      match e
      case Invoked(id) => InvocationStep(Fold(before), before, id);
      case Granted(g) => GrantStep(Fold(before), before, g);
      case Revoked(r) =>
        forall x | x in RevocationsIn(before) && x.revocationId == r.revocationId ensures x == r {
          RevocationsInMember(before, x);
          assert Revoked(x) in es && e in es;
        }
        RevocationStep(Fold(before), before, r);
    }
  }

  // ---- convergence

  /** A capability is revoked exactly when some event revokes it, so the status ignores order. */
  lemma RevokedIffRevocationSeen(es: seq<Event>, id: Id)
    requires RevocationIdsNamed(es)
    ensures IsCapabilityRevoked(Fold(es), id) <==>
      exists e :: e in es && e.Revoked? && e.revocation.capabilityId == id
  {
    FoldIsProjection(es);
    var p := Fold(es);
    var mine := ForCapability(p.revocations, id);
    if mine != [] {
      ForCapabilityMember(p.revocations, id, mine[0]);
      RevocationsInMember(es, mine[0]);
      assert Revoked(mine[0]) in es;
    }
    forall e | e in es && e.Revoked? && e.revocation.capabilityId == id ensures mine != [] {
      RevocationsInMember(es, e.revocation);
      ForCapabilityMember(p.revocations, id, e.revocation);
    }
  }

  /** The record holds revocations of the events only. */
  ghost predicate HoldsOnly(p: Projection, es: seq<Event>) {
    forall r :: r in p.revocations ==> Revoked(r) in es
  }

  lemma {:induction false} PutRevocationMember(rs: seq<Revocation>, r: Revocation, x: Revocation)
    ensures x in PutRevocation(rs, r) ==> x == r || x in rs
    ensures x == r || (x in rs && x.revocationId != r.revocationId) ==> x in PutRevocation(rs, r)
  {
    if rs != [] {
      assert rs == [rs[0]] + rs[1..];
      if rs[0].revocationId != r.revocationId {
        PutRevocationMember(rs[1..], r, x);
      }
    }
  }

  lemma {:induction false} FoldHoldsOnly(es: seq<Event>)
    ensures HoldsOnly(Fold(es), es)
    decreases |es|
  {
    if es != [] {
      var n := |es| - 1;
      FoldHoldsOnly(es[..n]);
      assert es == es[..n] + [es[n]];
      if es[n].Revoked? {
        forall x | x in Fold(es).revocations ensures Revoked(x) in es {
          PutRevocationMember(Fold(es[..n]).revocations, es[n].revocation, x);
        }
      }
    }
  }

  /** One more event leaves a revoked capability revoked, unless it reuses the id of another revocation. */
  lemma StepKeepsRevoked(p: Projection, e: Event, id: Id)
    requires IsCapabilityRevoked(p, id)
    requires e.Revoked? ==>
      forall r :: r in p.revocations && r.revocationId == e.revocation.revocationId ==> r == e.revocation
    ensures IsCapabilityRevoked(Apply(p, e), id)
  {
    if e.Revoked? && ForCapability(p.revocations, id) != [] {
      var r := ForCapability(p.revocations, id)[0];
      ForCapabilityMember(p.revocations, id, r);
      PutRevocationMember(p.revocations, e.revocation, r);
      ForCapabilityMember(PutRevocation(p.revocations, e.revocation), id, r);
    }
  }

  /** Revocation is permanent as long as no revocation id is reused: no later event undoes it. */
  lemma {:induction false} RevocationIsPermanent(es: seq<Event>, more: seq<Event>, id: Id)
    requires RevocationIdsNamed(es + more) && IsCapabilityRevoked(Fold(es), id)
    ensures IsCapabilityRevoked(Fold(es + more), id)
    decreases |more|
  {
    if more == [] {
      assert es + more == es;
    } else {
      var n := |more| - 1;
      var before := es + more[..n];
      assert es + more == before + [more[n]] && (es + more)[..|es| + n] == before;
      RevocationIsPermanent(es, more[..n], id);
      FoldHoldsOnly(before);
      StepKeepsRevoked(Fold(before), more[n], id);
    }
  }

  /** A reused revocation id drops the earlier revocation of a capability that has no grant yet. */
  lemma ReusedIdForgets(a: Revocation, b: Revocation)
    requires a.revocationId == b.revocationId && a.capabilityId != b.capabilityId
    ensures IsCapabilityRevoked(Fold([Revoked(a)]), a.capabilityId)
    ensures !IsCapabilityRevoked(Fold([Revoked(a), Revoked(b)]), a.capabilityId)
  {
    var one, two := [Revoked(a)], [Revoked(a), Revoked(b)];
    assert one[..|one| - 1] == [] && two[..|two| - 1] == one && [a][1..] == [] && [b][1..] == [];
    assert Fold(one) == Apply(EMPTY, Revoked(a)) == Projection(map[], [a], {});
    assert Fold(two) == Apply(Fold(one), Revoked(b)) == Projection(map[], [b] + [a][1..], {});
    assert ForCapability([b] + [a][1..], a.capabilityId) == [] by {
      assert [b] + [a][1..] == [b];
    }
  }

  ghost predicate SameEvents(es: seq<Event>, fs: seq<Event>) {
    forall e :: e in es <==> e in fs
  }

  /**
   * Convergence: any orders of the same events, repetitions included, agree on which capabilities
   * are granted, with which grant, which are revoked, and by which set of revocations.
   */
  lemma OrderAgreesOnStatus(es: seq<Event>, fs: seq<Event>, id: Id)
    requires Consistent(es) && SameEvents(es, fs)
    ensures IsCapabilityRevoked(Fold(es), id) <==> IsCapabilityRevoked(Fold(fs), id)
    ensures id in Fold(es).grants <==> id in Fold(fs).grants
    ensures id in Fold(es).grants ==>
      var a, b := Fold(es).grants[id], Fold(fs).grants[id];
      a.grant == b.grant && a.revoked == b.revoked && forall x :: x in a.revocationIds <==> x in b.revocationIds
  {
    RevokedIffRevocationSeen(es, id);
    RevokedIffRevocationSeen(fs, id);
    FoldIsProjection(es);
    FoldIsProjection(fs);
    GrantOfMember(es, id);
    GrantOfMember(fs, id);
    if id in Fold(es).grants {
      var g := GrantOf(es, id).value;
      OnlyGrant(es, g);
      OnlyGrant(fs, g);
      EntriesAgree(es, fs, g);
    }
  }

  lemma EntriesAgree(es: seq<Event>, fs: seq<Event>, g: Grant)
    requires SameEvents(es, fs)
    ensures var a := EntryFor(g, ForCapability(RevocationsIn(es), g.capabilityId));
      var b := EntryFor(g, ForCapability(RevocationsIn(fs), g.capabilityId));
      a.revoked == b.revoked && forall x :: x in a.revocationIds <==> x in b.revocationIds
  {
    var id := g.capabilityId;
    var xs, ys := ForCapability(RevocationsIn(es), id), ForCapability(RevocationsIn(fs), id);
    forall r ensures r in xs <==> r in ys {
      ForCapabilityMember(RevocationsIn(es), id, r);
      ForCapabilityMember(RevocationsIn(fs), id, r);
      RevocationsInMember(es, r);
      RevocationsInMember(fs, r);
    }
    assert xs != [] ==> xs[0] in ys;
    assert ys != [] ==> ys[0] in xs;
    forall x ensures x in IdsOf(xs) <==> x in IdsOf(ys) {
      IdsOfMember(xs, x);
      IdsOfMember(ys, x);
    }
  }

  /** Moving grants past revocations changes nothing at all while the revocations keep their order. */
  lemma GrantsMoveFreely(es: seq<Event>, fs: seq<Event>)
    requires Consistent(es) && Consistent(fs)
    requires forall g :: Granted(g) in es <==> Granted(g) in fs
    requires RevocationsIn(es) == RevocationsIn(fs)
    ensures Fold(es).grants == Fold(fs).grants && Fold(es).revocations == Fold(fs).revocations
  {
    FoldIsProjection(es);
    FoldIsProjection(fs);
    forall id ensures GrantOf(es, id) == GrantOf(fs, id) {
      GrantOfMember(es, id);
      GrantOfMember(fs, id);
      if GrantOf(es, id).Some? {
        OnlyGrant(fs, GrantOf(es, id).value);
      }
      if GrantOf(fs, id).Some? {
        OnlyGrant(es, GrantOf(fs, id).value);
      }
    }
    assert Fold(es).grants.Keys == Fold(fs).grants.Keys;
  }
}
