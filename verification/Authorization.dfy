/** Step-wise attenuation along a proof chain and the authorization decision built on it. */
module Authorization {
  import opened Wrappers
  import opened DelegationGraph
  import opened DelegationCycles
  import opened ProofChains

  /** The check made between one grant of a path and the next. */
  predicate ValidateDelegationStep(parent: Grant, child: Grant) {
    && child.issuer == parent.audience
    && child.resource == parent.resource
    && (forall action :: action in child.actions ==> action in parent.actions)
    && child.scope == parent.scope
    && child.expiresAt <= parent.expiresAt
    && (parent.notBefore.Some? ==>
          child.notBefore.Some? && parent.notBefore.value <= child.notBefore.value)
    && parent.delegationDepth > 0
    && child.delegationDepth < parent.delegationDepth
  }

  /** A descendant the given number of steps below an ancestor is bounded by it in every respect. */
  ghost predicate Bounds(ancestor: Grant, descendant: Grant, steps: nat) {
    && descendant.resource == ancestor.resource
    && descendant.scope == ancestor.scope
    && (forall action :: action in descendant.actions ==> action in ancestor.actions)
    && descendant.expiresAt <= ancestor.expiresAt
    && (ancestor.notBefore.Some? ==>
          descendant.notBefore.Some? && ancestor.notBefore.value <= descendant.notBefore.value)
    && descendant.delegationDepth + steps <= ancestor.delegationDepth
  }

  /** Each grant is issued by the audience of the one above, and every ancestor bounds every descendant. */
  ghost predicate Attenuating(c: seq<Grant>) {
    && |c| > 0
    && (forall i :: 0 < i < |c| ==> c[i].issuer == c[i - 1].audience)
    && (forall i, j :: 0 <= i < j < |c| ==> Bounds(c[i], c[j], j - i))
  }

  ghost predicate StepsValid(c: seq<Grant>) {
    forall i :: 0 < i < |c| ==> ValidateDelegationStep(c[i - 1], c[i])
  }

  lemma {:induction false} StepsBound(c: seq<Grant>, i: nat, j: nat)
    requires StepsValid(c) && i < j < |c|
    ensures Bounds(c[i], c[j], j - i)
    decreases j
  {
    assert ValidateDelegationStep(c[j - 1], c[j]);
    if i < j - 1 {
      StepsBound(c, i, j - 1);
    }
  }

  /** Checking neighbours is enough: local steps are valid exactly when the whole path attenuates. */
  lemma StepsAttenuate(c: seq<Grant>)
    requires |c| > 0
    ensures StepsValid(c) <==> Attenuating(c)
  {
    if StepsValid(c) {
      forall i | 0 < i < |c| ensures c[i].issuer == c[i - 1].audience {
        assert ValidateDelegationStep(c[i - 1], c[i]);
      }
      forall i, j | 0 <= i < j < |c| ensures Bounds(c[i], c[j], j - i) {
        StepsBound(c, i, j);
      }
    }
    if Attenuating(c) {
      forall i | 0 < i < |c| ensures ValidateDelegationStep(c[i - 1], c[i]) {
        assert Bounds(c[i - 1], c[i], 1);
      }
    }
  }

  ghost predicate AllAccepted(check: Grant -> bool, c: seq<Grant>) {
    forall g :: g in c ==> Accepts(check, g)
  }

  /** The step check is reached at position i, all before it having passed, and meets an invalid grant. */
  ghost predicate ThrowsAt(check: Grant -> bool, c: seq<Grant>, i: nat) {
    && i + 1 < |c|
    && (forall k :: 0 < k <= i ==> ValidateDelegationStep(c[k - 1], c[k]))
    && (forall k :: 0 <= k <= i && i > 0 ==> Accepts(check, c[k]))
    && !(Accepts(check, c[i]) && Accepts(check, c[i + 1]))
  }

  /** Each step validates both of its grants again; a path of one grant is not validated. */
  ghost predicate PathAccepted(check: Grant -> bool, c: seq<Grant>) {
    Attenuating(c) && (|c| > 1 ==> AllAccepted(check, c))
  }

  /** None where the validation of a grant throws. */
  method ValidateDelegationPath(path: DelegationPath, check: Grant -> bool) returns (ok: Option<bool>)
    ensures ok == Some(true) <==> PathAccepted(check, path.grants)
    ensures ok == None <==> exists i :: ThrowsAt(check, path.grants, i)
  {
    if |path.grants| == 0 {
      return Some(false);
    }
    StepsAttenuate(path.grants);
    var i := 0;
    while i < |path.grants| - 1
      invariant 0 <= i <= |path.grants| - 1
      invariant forall k :: 0 < k <= i ==> ValidateDelegationStep(path.grants[k - 1], path.grants[k])
      invariant forall k :: 0 <= k <= i && i > 0 ==> Accepts(check, path.grants[k])
    {
      if !Accepts(check, path.grants[i]) || !Accepts(check, path.grants[i + 1]) {
        assert ThrowsAt(check, path.grants, i);
        assert path.grants[i] in path.grants && path.grants[i + 1] in path.grants;
        return None;
      }
      if !ValidateDelegationStep(path.grants[i], path.grants[i + 1]) {
        assert !ValidateDelegationStep(path.grants[i + 1 - 1], path.grants[i + 1]);
        return Some(false);
      }
      i := i + 1;
    }
    return Some(true);
  }

  predicate InWindow(g: Grant, now: int) {
    (g.notBefore.Some? ==> g.notBefore.value <= now) && now < g.expiresAt
  }

  /** Only a revocation by the grant's own issuer takes effect, from its own time on. */
  ghost predicate RevokedByIssuer(rs: Revocations, g: Grant, now: int) {
    exists r :: r in RevocationsOf(rs, g.capabilityId) && r.revokedBy == g.issuer.id && r.revokedAt <= now
  }

  ghost predicate PathAuthorizes(rs: Revocations, c: seq<Grant>, now: int) {
    && Attenuating(c)
    && (forall g :: g in c ==> InWindow(g, now) && !RevokedByIssuer(rs, g, now))
  }

  /** now is absent when the caller's timestamp does not parse; None where a validation throws. */
  method IsDelegationPathValid(graph: CapabilityDelegationGraph, path: DelegationPath, now: Option<int>)
    returns (ok: Option<bool>)
    ensures ok == Some(true) <==>
      now.Some? && PathAuthorizes(graph.revocations, path.grants, now.value)
      && PathAccepted(graph.grantCheck, path.grants)
    ensures ok == None <==> exists i :: ThrowsAt(graph.grantCheck, path.grants, i)
  {
    ok := ValidateDelegationPath(path, graph.grantCheck);
    if ok != Some(true) {
      return ok;
    }
    if now.None? {
      return Some(false);
    }
    var live := AllLive(graph.revocations, path.grants, now.value);
    return Some(live);
  }

  /** The loop over the path's grants: windows first, then the revocations by each grant's own issuer. */
  method AllLive(rs: Revocations, grants: seq<Grant>, now: int) returns (ok: bool)
    ensures ok <==> forall g :: g in grants ==> InWindow(g, now) && !RevokedByIssuer(rs, g, now)
  {
    var i := 0;
    while i < |grants|
      invariant 0 <= i <= |grants|
      invariant forall k :: 0 <= k < i ==> InWindow(grants[k], now) && !RevokedByIssuer(rs, grants[k], now)
    {
      var grant := grants[i];
      if !InWindow(grant, now) {
        return false;
      }
      var revocations := RevocationsOf(rs, grant.capabilityId);
      var j := 0;
      while j < |revocations|
        invariant 0 <= j <= |revocations|
        invariant forall k :: 0 <= k < j ==>
          !(revocations[k].revokedBy == grant.issuer.id && revocations[k].revokedAt <= now)
      {
        if revocations[j].revokedBy == grant.issuer.id && revocations[j].revokedAt <= now {
          assert RevokedByIssuer(rs, grant, now);
          return false;
        }
        j := j + 1;
      }
      i := i + 1;
    }
    return true;
  }

  /** Acyclic graph, and some proof chain attenuates, is in its time window and is not revoked. */
  ghost predicate Authorized(gs: Grants, rs: Revocations, id: Id, now: Option<int>) {
    && now.Some?
    && !HasCycle(gs)
    && exists c :: ChainAuthorizes(gs, rs, c, id, now.value)
  }

  ghost predicate ChainAuthorizes(gs: Grants, rs: Revocations, c: seq<Grant>, id: Id, now: int) {
    IsProofChain(gs, c, id, {}) && PathAuthorizes(rs, c, now)
  }

  method IsCapabilityAuthorized(graph: CapabilityDelegationGraph, id: Id, now: Option<int>)
    returns (ok: bool)
    requires graph.Valid()
    ensures ok <==> Authorized(graph.grants, graph.revocations, id, now)
  {
    var cyclic := DetectDelegationCycle(graph);
    if cyclic {
      return false;
    }
    var paths := BuildCapabilityProofGraph(graph, id);
    ghost var gs := graph.grants;
    forall p, g | p in paths && g in p.grants ensures Accepts(graph.grantCheck, g) {
      assert DelegationPath(EdgesOf(p.grants), p.grants) in paths;
      assert IsProofChain(gs, p.grants, id, {});
    }
    ok := SomePathValid(graph, paths, now);
    if now.Some? {
      PathsDecide(graph.grants, graph.revocations, paths, id, now.value);
    }
  }

  /** The grants of a graph were validated when added, so their paths never throw. */
  lemma NeverThrows(check: Grant -> bool, c: seq<Grant>)
    requires AllAccepted(check, c)
    ensures forall i :: !ThrowsAt(check, c, i)
  {
  }

  ghost predicate AnyAuthorizes(rs: Revocations, paths: seq<DelegationPath>, now: int) {
    exists k :: 0 <= k < |paths| && PathAuthorizes(rs, paths[k].grants, now)
  }

  method SomePathValid(graph: CapabilityDelegationGraph, paths: seq<DelegationPath>, now: Option<int>)
    returns (ok: bool)
    requires forall p, g :: p in paths && g in p.grants ==> Accepts(graph.grantCheck, g)
    ensures ok <==> now.Some? && AnyAuthorizes(graph.revocations, paths, now.value)
  {
    var i := 0;
    while i < |paths|
      invariant 0 <= i <= |paths|
      invariant forall k :: 0 <= k < i && now.Some? ==>
        !PathAuthorizes(graph.revocations, paths[k].grants, now.value)
    {
      assert paths[i] in paths;
      var valid := IsDelegationPathValid(graph, paths[i], now);
      NeverThrows(graph.grantCheck, paths[i].grants);
      if valid == Some(true) {
        return true;
      }
      i := i + 1;
    }
    return false;
  }

  /** Since the enumerated paths are exactly the proof chains, looking among them is conclusive. */
  lemma PathsDecide(gs: Grants, rs: Revocations, paths: seq<DelegationPath>, id: Id, now: int)
    requires forall c: seq<Grant> :: DelegationPath(EdgesOf(c), c) in paths <==> IsProofChain(gs, c, id, {})
    requires forall p :: p in paths ==> p.edges == EdgesOf(p.grants)
    ensures AnyAuthorizes(rs, paths, now) <==> exists c :: ChainAuthorizes(gs, rs, c, id, now)
  {
    if AnyAuthorizes(rs, paths, now) {
      var k :| 0 <= k < |paths| && PathAuthorizes(rs, paths[k].grants, now);
      var c := paths[k].grants;
      assert paths[k] == DelegationPath(EdgesOf(c), c);
      assert ChainAuthorizes(gs, rs, c, id, now);
    }
    if exists c :: ChainAuthorizes(gs, rs, c, id, now) {
      var c :| ChainAuthorizes(gs, rs, c, id, now);
      assert DelegationPath(EdgesOf(c), c) in paths;
      var k :| 0 <= k < |paths| && paths[k] == DelegationPath(EdgesOf(c), c);
      assert PathAuthorizes(rs, paths[k].grants, now);
    }
  }

  /** Adding a revocation record never turns a refusal into an authorization. */
  lemma RevokingNeverAuthorizes(gs: Grants, rs: Revocations, r: Revocation, id: Id, now: Option<int>)
    requires Authorized(gs, WithRevocation(rs, r), id, now)
    ensures Authorized(gs, rs, id, now)
  {
    var rs' := WithRevocation(rs, r);
    var c :| ChainAuthorizes(gs, rs', c, id, now.value);
    forall g | g in c ensures !RevokedByIssuer(rs, g, now.value) {
      assert forall x :: x in RevocationsOf(rs, g.capabilityId) ==> x in RevocationsOf(rs', g.capabilityId);
    }
    assert ChainAuthorizes(gs, rs, c, id, now.value);
  }

  /** The record is about this grant, by its issuer, and in effect. */
  predicate Hits(r: Revocation, g: Grant, now: int) {
    r.capabilityId == g.capabilityId && r.revokedBy == g.issuer.id && r.revokedAt <= now
  }

  /** No path through a grant authorizes while the graph holds a record in effect by the grant's issuer. */
  lemma RevokedPathNeverAuthorizes(rs: Revocations, r: Revocation, g: Grant, c: seq<Grant>, now: int)
    requires g in c && g.capabilityId in rs && r in rs[g.capabilityId]
    requires r.revokedBy == g.issuer.id && r.revokedAt <= now
    ensures !PathAuthorizes(rs, c, now)
  {
    assert RevokedByIssuer(rs, g, now);
  }

  /** One more record stops exactly the paths through a grant that it hits. */
  lemma RevokingStopsExactly(rs: Revocations, r: Revocation, c: seq<Grant>, now: int)
    ensures PathAuthorizes(WithRevocation(rs, r), c, now) <==>
      PathAuthorizes(rs, c, now) && forall g :: g in c ==> !Hits(r, g, now)
  {
    var rs' := WithRevocation(rs, r);
    forall g: Grant ensures RevokedByIssuer(rs', g, now) <==> RevokedByIssuer(rs, g, now) || Hits(r, g, now) {
      RevokedByOneMore(rs, r, g, now);
    }
  }

  lemma RevokedByOneMore(rs: Revocations, r: Revocation, g: Grant, now: int)
    ensures RevokedByIssuer(WithRevocation(rs, r), g, now) <==> RevokedByIssuer(rs, g, now) || Hits(r, g, now)
  {
    var list, list' := RevocationsOf(rs, g.capabilityId), RevocationsOf(WithRevocation(rs, r), g.capabilityId);
    assert list' == if g.capabilityId == r.capabilityId then list + [r] else list;
    assert forall x :: x in list ==> x in list';
    assert g.capabilityId == r.capabilityId ==> r in list';
  }

  /** With one more record a capability is authorized exactly by the chains that no hit grant is on. */
  lemma AuthorizedAfterRevoking(gs: Grants, rs: Revocations, r: Revocation, id: Id, now: Option<int>)
    ensures Authorized(gs, WithRevocation(rs, r), id, now) <==>
      && now.Some? && !HasCycle(gs)
      && exists c :: ChainAuthorizes(gs, rs, c, id, now.value) && forall g :: g in c ==> !Hits(r, g, now.value)
  {
    if now.Some? {
      forall c ensures ChainAuthorizes(gs, WithRevocation(rs, r), c, id, now.value) <==>
        ChainAuthorizes(gs, rs, c, id, now.value) && forall g :: g in c ==> !Hits(r, g, now.value)
      {
        RevokingStopsExactly(rs, r, c, now.value);
      }
    }
  }

  /** A capability whose every chain passes through a revoked grant is not authorized. */
  lemma EveryChainRevoked(gs: Grants, rs: Revocations, id: Id, now: int)
    requires forall c :: IsProofChain(gs, c, id, {}) ==> exists g :: g in c && RevokedOnRecord(rs, g, now)
    ensures !Authorized(gs, rs, id, Some(now))
  {
    forall c | IsProofChain(gs, c, id, {}) ensures !PathAuthorizes(rs, c, now) {
      var g :| g in c && RevokedOnRecord(rs, g, now);
      var r :| r in rs[g.capabilityId] && r.revokedBy == g.issuer.id && r.revokedAt <= now;
      RevokedPathNeverAuthorizes(rs, r, g, c, now);
    }
  }

  /** The graph holds a record about the grant, by its issuer, in effect. */
  ghost predicate RevokedOnRecord(rs: Revocations, g: Grant, now: int) {
    g.capabilityId in rs
    && exists r :: r in rs[g.capabilityId] && r.revokedBy == g.issuer.id && r.revokedAt <= now
  }

  /** In particular one whose own grant is revoked: every chain ends with it. */
  lemma RevokedIsUnauthorized(gs: Grants, rs: Revocations, id: Id, now: int)
    requires ValidGrants(gs) && id in gs && RevokedOnRecord(rs, gs[id], now)
    ensures !Authorized(gs, rs, id, Some(now))
  {
    forall c | IsProofChain(gs, c, id, {}) ensures exists g :: g in c && RevokedOnRecord(rs, g, now) {
      assert c[|c| - 1] in c && c[|c| - 1] == gs[id];
    }
    EveryChainRevoked(gs, rs, id, now);
  }

  /** The earliest of deadline and the revocations in the list made by the given issuer. */
  function EarliestIn(list: seq<Revocation>, issuer: Id, deadline: int): int {
    if list == [] then deadline
    else
      var rest := EarliestIn(list[1..], issuer, deadline);
      if list[0].revokedBy == issuer && list[0].revokedAt < rest then list[0].revokedAt else rest
  }

  lemma {:induction false} EarliestInExact(list: seq<Revocation>, issuer: Id, deadline: int, t: int)
    ensures t < EarliestIn(list, issuer, deadline) <==>
      t < deadline && forall r :: r in list && r.revokedBy == issuer ==> t < r.revokedAt
  {
    if list != [] {
      EarliestInExact(list[1..], issuer, deadline, t);
      assert list == [list[0]] + list[1..];
    }
  }

  /** The first instant at which the deadline or an issuer's revocation of a path grant takes effect. */
  function PathDeadline(rs: Revocations, c: seq<Grant>, deadline: int): int {
    if c == [] then deadline
    else
      EarliestIn(RevocationsOf(rs, c[0].capabilityId), c[0].issuer.id, PathDeadline(rs, c[1..], deadline))
  }

  lemma {:induction false} PathDeadlineExact(rs: Revocations, c: seq<Grant>, deadline: int, t: int)
    ensures t < PathDeadline(rs, c, deadline) <==>
      t < deadline && forall g :: g in c ==> !RevokedByIssuer(rs, g, t)
  {
    if c != [] {
      PathDeadlineExact(rs, c[1..], deadline, t);
      var list := RevocationsOf(rs, c[0].capabilityId);
      EarliestInExact(list, c[0].issuer.id, PathDeadline(rs, c[1..], deadline), t);
      assert !RevokedByIssuer(rs, c[0], t) <==>
        forall r :: r in list && r.revokedBy == c[0].issuer.id ==> t < r.revokedAt;
      assert c == [c[0]] + c[1..];
    }
  }

  /**
   * On an attenuating path the leaf's window decides for the whole path, so the times at which
   * the path authorizes form one interval: from the leaf's notBefore up to the leaf's expiry or
   * the earliest issuer revocation on the path, whichever comes first.
   */
  lemma ValidTimesAreOneInterval(rs: Revocations, c: seq<Grant>, t: int)
    requires Attenuating(c)
    ensures var leaf := c[|c| - 1];
      PathAuthorizes(rs, c, t) <==>
        (leaf.notBefore.Some? ==> leaf.notBefore.value <= t) && t < PathDeadline(rs, c, leaf.expiresAt)
  {
    var leaf := c[|c| - 1];
    PathDeadlineExact(rs, c, leaf.expiresAt, t);
    if InWindow(leaf, t) {
      forall g | g in c ensures InWindow(g, t) {
        var i :| 0 <= i < |c| && c[i] == g;
        if i < |c| - 1 {
          assert Bounds(c[i], leaf, |c| - 1 - i);
        }
      }
    }
  }

  /**
   * An authorized capability traces back to a grant that needs no proof, which bounds its
   * actions, resource, scope and expiry, and whose delegation depth pays for every step.
   */
  lemma AuthorizedTracesToRoot(gs: Grants, rs: Revocations, id: Id, now: Option<int>)
    returns (c: seq<Grant>)
    requires ValidGrants(gs) && Authorized(gs, rs, id, now)
    ensures IsProofChain(gs, c, id, {}) && PathAuthorizes(rs, c, now.value)
    ensures id in gs && c[|c| - 1] == gs[id] && c[0].proofRefs == []
    ensures |EdgesOf(c)| <= c[0].delegationDepth
    ensures Bounds(c[0], gs[id], |EdgesOf(c)|)
  {
    c :| ChainAuthorizes(gs, rs, c, id, now.value);
    if |c| > 1 {
      assert Bounds(c[0], c[|c| - 1], |c| - 1);
    }
  }
}
