/**
 * The capability delegation graph: grants, the proof references between them,
 * and the records that revoke them.
 */
module DelegationGraph {
  import opened Wrappers

  type Id = string

  /** A party, resource or scope reference; only kind and id take part in delegation checks. */
  datatype Ref = Ref(kind: string, id: Id)

  /** A grant. Timestamps are the epoch milliseconds that Date.parse yields for a validated grant. */
  datatype Grant = Grant(
    capabilityId: Id,
    issuer: Ref,
    audience: Ref,
    resource: Ref,
    actions: seq<string>,
    scope: Ref,
    notBefore: Option<int>,
    expiresAt: int,
    delegationDepth: nat,
    proofRefs: seq<Id>
  )

  datatype Revocation = Revocation(capabilityId: Id, revokedAt: int, revokedBy: Id)

  type Grants = map<Id, Grant>
  type Revocations = map<Id, seq<Revocation>>

  predicate NoDuplicates<T(==)>(s: seq<T>) {
    forall i, j :: 0 <= i < j < |s| ==> s[i] != s[j]
  }

  /** The facts grant validation establishes and the graph code relies on. */
  predicate ValidGrant(g: Grant) {
    && (g.notBefore.Some? ==> g.notBefore.value < g.expiresAt)
    && NoDuplicates(g.proofRefs)
  }

  /** Validation as a whole: those facts and the field checks that the model does not spell out. */
  predicate Accepts(check: Grant -> bool, g: Grant) {
    ValidGrant(g) && check(g)
  }

  ghost predicate ValidGrants(gs: Grants) {
    forall id :: id in gs ==> gs[id].capabilityId == id && ValidGrant(gs[id])
  }

  function RevocationsOf(rs: Revocations, id: Id): seq<Revocation> {
    if id in rs then rs[id] else []
  }

  class CapabilityDelegationGraph {
    const grantCheck: Grant -> bool
    const revocationCheck: Revocation -> bool
    var grants: Grants
    // Iteration order of the grant map: first insertion of each key.
    var grantOrder: seq<Id>
    var revocations: Revocations

    ghost predicate Valid()
      reads this
    {
      && ValidGrants(grants)
      && (forall id :: id in grants ==> grantCheck(grants[id]))
      && (forall id :: id in grantOrder <==> id in grants)
    }

    constructor (grantCheck: Grant -> bool, revocationCheck: Revocation -> bool)
      ensures Valid() && this.grantCheck == grantCheck && this.revocationCheck == revocationCheck
      ensures grants == map[] && revocations == map[]
    {
      this.grantCheck, this.revocationCheck := grantCheck, revocationCheck;
      grants, grantOrder, revocations := map[], [], map[];
    }

    /** Adds or replaces a grant; an invalid one is refused and changes nothing. */
    method AddGrant(g: Grant) returns (ok: bool)
      requires Valid()
      modifies this
      ensures Valid()
      ensures ok == Accepts(grantCheck, g)
      ensures ok ==> grantCheck(g) && (g.notBefore.Some? ==> g.notBefore.value < g.expiresAt)
      ensures grants == if ok then old(grants)[g.capabilityId := g] else old(grants)
      ensures revocations == old(revocations)
    {
      ok := Accepts(grantCheck, g);
      if ok {
        if g.capabilityId !in grants {
          grantOrder := grantOrder + [g.capabilityId];
        }
        grants := grants[g.capabilityId := g];
      }
    }

    /** Revocations accumulate per capability and are never dropped; a malformed one is refused. */
    method AddRevocation(r: Revocation) returns (ok: bool)
      requires Valid()
      modifies this`revocations
      ensures Valid()
      ensures ok == revocationCheck(r)
      ensures revocations == if ok then WithRevocation(old(revocations), r) else old(revocations)
      ensures ok ==>
        r.capabilityId in revocations
        && revocations[r.capabilityId] ==
             (if r.capabilityId in old(revocations) then old(revocations)[r.capabilityId] else []) + [r]
      ensures forall id :: id != r.capabilityId || !ok ==>
        (id in revocations <==> id in old(revocations))
        && (id in revocations ==> revocations[id] == old(revocations)[id])
    {
      ok := revocationCheck(r);
      if ok {
        var list := if r.capabilityId in revocations then revocations[r.capabilityId] else [];
        revocations := revocations[r.capabilityId := list + [r]];
      }
    }
  }

  function WithRevocation(rs: Revocations, r: Revocation): Revocations {
    rs[r.capabilityId := RevocationsOf(rs, r.capabilityId) + [r]]
  }
}

/** Depth-first cycle detection over proof references. */
module DelegationCycles {
  import opened DelegationGraph

  /** Grant a cites grant b as proof, and both are in the graph. */
  ghost predicate Cites(gs: Grants, a: Id, b: Id) {
    a in gs && b in gs && b in gs[a].proofRefs
  }

  ghost predicate IsWalk(gs: Grants, p: seq<Id>) {
    forall i :: 0 <= i < |p| - 1 ==> Cites(gs, p[i], p[i + 1])
  }

  /** Some closed walk of at least one step exists; a self-loop is one. */
  ghost predicate HasCycle(gs: Grants) {
    exists p :: IsCycle(gs, p)
  }

  ghost predicate IsCycle(gs: Grants, p: seq<Id>) {
    |p| >= 2 && p[0] == p[|p| - 1] && IsWalk(gs, p)
  }

  /** Every proof cited from a ranked grant is ranked strictly lower. */
  ghost predicate Ranked(gs: Grants, rank: map<Id, nat>) {
    forall v, w :: v in rank && Cites(gs, v, w) ==> w in rank && rank[w] < rank[v]
  }

  lemma {:induction false} WalkDescends(gs: Grants, rank: map<Id, nat>, p: seq<Id>)
    requires Ranked(gs, rank) && IsWalk(gs, p) && |p| >= 2 && p[0] in rank
    ensures p[|p| - 1] in rank && rank[p[|p| - 1]] < rank[p[0]]
  {
    assert Cites(gs, p[0], p[1]);
    if |p| > 2 {
      var q := p[1..];
      forall i | 0 <= i < |q| - 1 ensures Cites(gs, q[i], q[i + 1]) {
        assert Cites(gs, p[i + 1], p[i + 2]);
      }
      WalkDescends(gs, rank, q);
    }
  }

  /** A rank for every grant rules out cycles. */
  lemma RankedIsAcyclic(gs: Grants, rank: map<Id, nat>)
    requires Ranked(gs, rank) && gs.Keys <= rank.Keys
    ensures !HasCycle(gs)
  {
    forall p | IsCycle(gs, p) ensures false {
      assert Cites(gs, p[0], p[1]);
      WalkDescends(gs, rank, p);
    }
  }

  function Members(stack: seq<Id>): set<Id> { set id | id in stack }

  /**
   * Mid-search: the stack is a walk, and the grants visited and off the stack have ranks, in order
   * of finishing, that descend along every citation.
   */
  ghost predicate Searching(gs: Grants, visited: set<Id>, stack: seq<Id>, rank: map<Id, nat>, finished: nat) {
    && visited <= gs.Keys
    && Members(stack) <= visited
    && IsWalk(gs, stack)
    && rank.Keys == visited - Members(stack)
    && (forall v :: v in rank ==> rank[v] < finished)
    && Ranked(gs, rank)
  }

  ghost predicate Reaches(gs: Grants, stack: seq<Id>, id: Id) {
    id in gs && (stack != [] ==> Cites(gs, stack[|stack| - 1], id))
  }

  lemma OnStackIsCycle(gs: Grants, stack: seq<Id>, id: Id)
    requires IsWalk(gs, stack) && Reaches(gs, stack, id) && id in stack
    ensures HasCycle(gs)
  {
    var k :| 0 <= k < |stack| && stack[k] == id;
    assert IsCycle(gs, stack[k..] + [id]);
  }

  lemma Enter(gs: Grants, visited: set<Id>, stack: seq<Id>, rank: map<Id, nat>, finished: nat, id: Id)
    requires Searching(gs, visited, stack, rank, finished) && Reaches(gs, stack, id) && id !in visited
    ensures Searching(gs, visited + {id}, stack + [id], rank, finished)
    ensures Members(stack + [id]) == Members(stack) + {id}
  {
  }

  lemma Leave(gs: Grants, visited: set<Id>, stack: seq<Id>, rank: map<Id, nat>, finished: nat, id: Id)
    requires Searching(gs, visited, stack + [id], rank, finished) && id !in stack
    requires forall w :: Cites(gs, id, w) ==> w in rank
    ensures Searching(gs, visited, stack, rank[id := finished], finished + 1)
    ensures Members(stack + [id]) - {id} == Members(stack)
  {
    assert Members(stack + [id]) == Members(stack) + {id};
    assert forall i :: 0 <= i < |stack| ==> (stack + [id])[i] == stack[i];
  }

  /** The visited and recStack sets shared by the recursive calls of one detection run. */
  class CycleSearch {
    const grants: Grants
    var visited: set<Id>
    var recStack: set<Id>
    // The walk that recStack holds the members of.
    ghost var stack: seq<Id>
    // Finishing order of the grants that left the stack.
    ghost var rank: map<Id, nat>
    ghost var finished: nat

    constructor (gs: Grants)
      ensures Valid() && grants == gs && stack == [] && visited == {}
    {
      grants, visited, recStack := gs, {}, {};
      stack, rank, finished := [], map[], 0;
    }

    ghost predicate Valid()
      reads this
    {
      recStack == Members(stack) && Searching(grants, visited, stack, rank, finished)
    }

    method HasCycleFrom(id: Id) returns (found: bool)
      requires Valid() && Reaches(grants, stack, id)
      modifies this
      ensures found ==> HasCycle(grants)
      ensures !found ==> Valid() && stack == old(stack) && old(visited) <= visited && id in rank
      ensures !found ==> old(rank).Keys <= rank.Keys
      decreases grants.Keys - visited
    {
      if id in recStack {
        OnStackIsCycle(grants, stack, id);
        return true;
      }
      if id in visited {
        return false;
      }
      Enter(grants, visited, stack, rank, finished, id);
      visited := visited + {id};
      recStack := recStack + {id};
      stack := stack + [id];

      var refs := grants[id].proofRefs;
      var i := 0;
      while i < |refs|
        invariant 0 <= i <= |refs|
        invariant Valid() && stack == old(stack) + [id] && old(visited) + {id} <= visited
        invariant old(rank).Keys <= rank.Keys
        invariant forall j :: 0 <= j < i && refs[j] in grants ==> refs[j] in rank
      {
        if refs[i] in grants {
          assert Cites(grants, id, refs[i]);
          var cyclic := HasCycleFrom(refs[i]);
          if cyclic {
            return true;
          }
        }
        i := i + 1;
      }

      Leave(grants, visited, old(stack), rank, finished, id);
      recStack := recStack - {id};
      stack := old(stack);
      rank := rank[id := finished];
      finished := finished + 1;
      return false;
    }
  }

  /** True exactly when the citation relation restricted to the graph has a directed cycle. */
  method DetectDelegationCycle(graph: CapabilityDelegationGraph) returns (cyclic: bool)
    requires graph.Valid()
    ensures cyclic <==> HasCycle(graph.grants)
  {
    var search := new CycleSearch(graph.grants);
    var i := 0;
    while i < |graph.grantOrder|
      invariant 0 <= i <= |graph.grantOrder|
      invariant search.Valid() && search.grants == graph.grants && search.stack == []
      invariant fresh(search)
      invariant forall j :: 0 <= j < i ==> graph.grantOrder[j] in search.rank
    {
      var found := search.HasCycleFrom(graph.grantOrder[i]);
      if found {
        return true;
      }
      i := i + 1;
    }
    RankedIsAcyclic(graph.grants, search.rank);
    return false;
  }
}
