/** Enumeration of the proof chains that lead from a root grant down to a capability. */
module ProofChains {
  import opened DelegationGraph

  datatype DelegationEdge = DelegationEdge(from: Id, to: Id)
  datatype DelegationPath = DelegationPath(edges: seq<DelegationEdge>, grants: seq<Grant>)

  /**
   * c is a chain of distinct grants of the graph, root first: the root cites nothing, every
   * later grant cites the one before it, the last one is id, and none of them is in avoid.
   */
  ghost predicate IsProofChain(gs: Grants, c: seq<Grant>, id: Id, avoid: set<Id>) {
    && |c| > 0
    && c[|c| - 1].capabilityId == id
    && c[0].proofRefs == []
    && (forall i :: 0 <= i < |c| ==>
          c[i].capabilityId in gs && gs[c[i].capabilityId] == c[i] && c[i].capabilityId !in avoid)
    && (forall i, j :: 0 <= i < j < |c| ==> c[i].capabilityId != c[j].capabilityId)
    && (forall i :: 0 < i < |c| ==> c[i - 1].capabilityId in c[i].proofRefs)
  }

  /** c is a proof chain for id followed by below. */
  ghost predicate Extends(gs: Grants, c: seq<Grant>, id: Id, below: seq<Grant>, avoid: set<Id>) {
    && |c| >= |below|
    && c[|c| - |below|..] == below
    && IsProofChain(gs, c[..|c| - |below|], id, avoid)
  }

  /** The chains one traversal call contributes, in the order it finds them. */
  function Chains(gs: Grants, id: Id, below: seq<Grant>, visited: set<Id>): seq<seq<Grant>>
    requires visited <= gs.Keys
    decreases gs.Keys - visited, 1, 0
  {
    if id !in gs then if |below| > 0 then [below] else []
    else if id in visited then []
    else if gs[id].proofRefs == [] then [[gs[id]] + below]
    else ChainsVia(gs, gs[id].proofRefs, [gs[id]] + below, visited + {id})
  }

  /** The chains through each cited proof that is in the graph, in citation order. */
  function ChainsVia(gs: Grants, refs: seq<Id>, below: seq<Grant>, visited: set<Id>): seq<seq<Grant>>
    requires visited <= gs.Keys
    decreases gs.Keys - visited, 2, |refs|
  {
    if refs == [] then []
    else
      var first := if refs[0] in gs then Chains(gs, refs[0], below, visited) else [];
      first + ChainsVia(gs, refs[1..], below, visited)
  }

  /** Peeling the last grant off a chain leaves a chain for one of the proofs it cites. */
  lemma PeelChain(gs: Grants, c: seq<Grant>, id: Id, avoid: set<Id>)
    requires ValidGrants(gs) && id in gs && id !in avoid && gs[id].proofRefs != []
    requires |c| > 0 && c[|c| - 1] == gs[id]
    ensures IsProofChain(gs, c, id, avoid) <==>
      |c| > 1 && c[|c| - 2].capabilityId in gs[id].proofRefs
      && IsProofChain(gs, c[..|c| - 1], c[|c| - 2].capabilityId, avoid + {id})
  {
  }

  /** The grant just above the partial chain is the one the extension is for. */
  lemma LastGrant(gs: Grants, c: seq<Grant>, id: Id, below: seq<Grant>, avoid: set<Id>)
    requires id in gs && Extends(gs, c, id, below, avoid)
    ensures |c| > |below| && c[|c| - |below| - 1..] == [gs[id]] + below && id !in avoid
  {
  }

  /** A traversal call finds exactly the chains that extend its partial chain. */
  lemma {:induction false} ChainsExact(gs: Grants, id: Id, below: seq<Grant>, visited: set<Id>, c: seq<Grant>)
    requires ValidGrants(gs) && visited <= gs.Keys && id in gs
    ensures c in Chains(gs, id, below, visited) <==> Extends(gs, c, id, below, visited)
    decreases gs.Keys - visited, 1, 0
  {
    var g := gs[id];
    if Extends(gs, c, id, below, visited) {
      LastGrant(gs, c, id, below, visited);
    }
    if id !in visited && g.proofRefs == [] {
      RootChain(gs, id, below, visited, c);
    } else if id !in visited {
      ChainsViaExact(gs, g.proofRefs, [g] + below, visited + {id}, c);
      PeelExtension(gs, id, below, visited, c);
    }
  }

  /** A chain extends the partial chain for id exactly when it extends it by id for a proof id cites. */
  lemma PeelExtension(gs: Grants, id: Id, below: seq<Grant>, visited: set<Id>, c: seq<Grant>)
    requires ValidGrants(gs) && id in gs && id !in visited && gs[id].proofRefs != []
    ensures Extends(gs, c, id, below, visited) <==>
      exists ref :: ref in gs[id].proofRefs && ref in gs && Extends(gs, c, ref, [gs[id]] + below, visited + {id})
  {
    var g := gs[id];
    if Extends(gs, c, id, below, visited) {
      LastGrant(gs, c, id, below, visited);
    }
    if |c| > |below| && c[|c| - |below| - 1..] == [g] + below {
      var p := c[..|c| - |below|];
      PeelChain(gs, p, id, visited);
      assert c[|p|..] == ([g] + below)[1..];
      assert c[..|p| - 1] == p[..|p| - 1];
    }
  }

  lemma RootChain(gs: Grants, id: Id, below: seq<Grant>, visited: set<Id>, c: seq<Grant>)
    requires ValidGrants(gs) && visited <= gs.Keys && id in gs
    requires id !in visited && gs[id].proofRefs == []
    ensures c == [gs[id]] + below <==> Extends(gs, c, id, below, visited)
  {
    if Extends(gs, c, id, below, visited) {
      LastGrant(gs, c, id, below, visited);
      var p := c[..|c| - |below|];
      forall i | 0 < i < |p| ensures p[i].proofRefs != [] {
        assert p[i - 1].capabilityId in p[i].proofRefs;
      }
      assert p[|p| - 1].proofRefs == [];
      assert p == [gs[id]];
    }
    if c == [gs[id]] + below {
      assert c[..1] == [gs[id]];
      assert c[1..] == below;
    }
  }

  lemma {:induction false} ChainsViaExact(
      gs: Grants, refs: seq<Id>, below: seq<Grant>, visited: set<Id>, c: seq<Grant>)
    requires ValidGrants(gs) && visited <= gs.Keys
    ensures c in ChainsVia(gs, refs, below, visited) <==>
      exists ref :: ref in refs && ref in gs && Extends(gs, c, ref, below, visited)
    decreases gs.Keys - visited, 2, |refs|
  {
    if refs != [] {
      ChainsViaExact(gs, refs[1..], below, visited, c);
      if refs[0] in gs {
        ChainsExact(gs, refs[0], below, visited, c);
      }
      assert refs == [refs[0]] + refs[1..];
    }
  }

  /** No chain is found twice. */
  lemma {:induction false} ChainsOnce(gs: Grants, id: Id, below: seq<Grant>, visited: set<Id>)
    requires ValidGrants(gs) && visited <= gs.Keys && id in gs
    ensures NoDuplicates(Chains(gs, id, below, visited))
    decreases gs.Keys - visited, 1, 0
  {
    if id !in visited && gs[id].proofRefs != [] {
      ChainsViaOnce(gs, gs[id].proofRefs, [gs[id]] + below, visited + {id});
    }
  }

  lemma {:induction false} ChainsViaOnce(gs: Grants, refs: seq<Id>, below: seq<Grant>, visited: set<Id>)
    requires ValidGrants(gs) && visited <= gs.Keys && NoDuplicates(refs)
    ensures NoDuplicates(ChainsVia(gs, refs, below, visited))
    decreases gs.Keys - visited, 2, |refs|
  {
    if refs != [] {
      ChainsViaOnce(gs, refs[1..], below, visited);
      if refs[0] in gs {
        var head, tail := Chains(gs, refs[0], below, visited), ChainsVia(gs, refs[1..], below, visited);
        ChainsOnce(gs, refs[0], below, visited);
        forall i, j | 0 <= i < |head| && 0 <= j < |tail| ensures head[i] != tail[j] {
          ChainsExact(gs, refs[0], below, visited, head[i]);
          LastGrant(gs, head[i], refs[0], below, visited);
          ChainsViaExact(gs, refs[1..], below, visited, tail[j]);
          var ref :| ref in refs[1..] && ref in gs && Extends(gs, tail[j], ref, below, visited);
          LastGrant(gs, tail[j], ref, below, visited);
          assert head[i][|head[i]| - |below| - 1..][0] == gs[refs[0]];
          assert tail[j][|tail[j]| - |below| - 1..][0] == gs[ref];
        }
      }
    }
  }

  /** The path enumeration in progress: the list that the recursive calls push onto. */
  class PathCollector {
    const grants: Grants
    var paths: seq<DelegationPath>

    constructor (gs: Grants)
      ensures grants == gs && paths == []
    {
      grants, paths := gs, [];
    }

    method Traverse(id: Id, currentGrants: seq<Grant>, visited: set<Id>)
      requires visited <= grants.Keys
      modifies this
      ensures paths == old(paths) + PathsOf(Chains(grants, id, currentGrants, visited))
      decreases grants.Keys - visited, 0
    {
      if id !in grants {
        if |currentGrants| > 0 {
          var path := CreatePath(currentGrants);
          paths := paths + [path];
        }
        return;
      }
      if id in visited {
        return;
      }
      var newVisited := visited + {id};
      var newGrants := [grants[id]] + currentGrants;
      var refs := grants[id].proofRefs;
      if |refs| == 0 {
        var path := CreatePath(newGrants);
        paths := paths + [path];
        return;
      }
      TraverseParents(refs, newGrants, newVisited);
    }

    /** Goes on through each cited proof that is in the graph. */
    method TraverseParents(refs: seq<Id>, currentGrants: seq<Grant>, visited: set<Id>)
      requires visited <= grants.Keys
      modifies this
      ensures paths == old(paths) + PathsOf(ChainsVia(grants, refs, currentGrants, visited))
      decreases grants.Keys - visited, 1
    {
      ghost var found := [];
      var i := 0;
      while i < |refs|
        invariant 0 <= i <= |refs|
        invariant paths == old(paths) + PathsOf(found)
        invariant found + ChainsVia(grants, refs[i..], currentGrants, visited)
          == ChainsVia(grants, refs, currentGrants, visited)
      {
        assert refs[i..][0] == refs[i] && refs[i..][1..] == refs[i + 1..];
        if refs[i] in grants {
          ghost var more := Chains(grants, refs[i], currentGrants, visited);
          Traverse(refs[i], currentGrants, visited);
          PathsOfConcat(found, more);
          found := found + more;
        }
        i := i + 1;
      }
      assert found == ChainsVia(grants, refs, currentGrants, visited);
    }
  }

  function EdgesOf(grants: seq<Grant>): seq<DelegationEdge> {
    if |grants| == 0 then []
    else
      seq(|grants| - 1, i requires 0 <= i < |grants| - 1 =>
        DelegationEdge(grants[i].capabilityId, grants[i + 1].capabilityId))
  }

  ghost function PathsOf(chains: seq<seq<Grant>>): seq<DelegationPath> {
    seq(|chains|, i requires 0 <= i < |chains| => DelegationPath(EdgesOf(chains[i]), chains[i]))
  }

  lemma PathsOfConcat(a: seq<seq<Grant>>, b: seq<seq<Grant>>)
    ensures PathsOf(a + b) == PathsOf(a) + PathsOf(b)
  {
  }

  /** Links each grant of the chain to the next one. */
  method CreatePath(grants: seq<Grant>) returns (path: DelegationPath)
    ensures path == DelegationPath(EdgesOf(grants), grants)
    ensures |grants| > 0 ==> |path.edges| == |grants| - 1
    ensures forall i :: 0 <= i < |path.edges| ==>
      path.edges[i].from == grants[i].capabilityId && path.edges[i].to == grants[i + 1].capabilityId
  {
    var edges := [];
    var i := 0;
    while i < |grants| - 1
      invariant 0 <= i && (|grants| > 0 ==> i <= |grants| - 1)
      invariant |grants| == 0 ==> i == 0
      invariant |edges| == i
      invariant forall k :: 0 <= k < i ==> edges[k] == EdgesOf(grants)[k]
    {
      edges := edges + [DelegationEdge(grants[i].capabilityId, grants[i + 1].capabilityId)];
      i := i + 1;
    }
    path := DelegationPath(edges, grants);
  }

  /** The edges of a proof chain run from each cited grant to the one that cites it. */
  lemma EdgeCites(gs: Grants, c: seq<Grant>, id: Id, i: nat)
    requires IsProofChain(gs, c, id, {}) && i + 1 < |c|
    ensures |EdgesOf(c)| == |c| - 1
    ensures var e := EdgesOf(c)[i];
      e.from == c[i].capabilityId && e.to == c[i + 1].capabilityId
      && e.from in gs && e.to in gs && e.from in gs[e.to].proofRefs
  {
    assert c[i + 1 - 1].capabilityId in c[i + 1].proofRefs;
  }

  lemma PathsOfMember(chains: seq<seq<Grant>>, c: seq<Grant>)
    ensures DelegationPath(EdgesOf(c), c) in PathsOf(chains) <==> c in chains
  {
    if c in chains {
      var k :| 0 <= k < |chains| && chains[k] == c;
      assert PathsOf(chains)[k] == DelegationPath(EdgesOf(c), c);
    }
  }

  lemma PathIffChain(gs: Grants, id: Id, c: seq<Grant>)
    requires ValidGrants(gs)
    ensures DelegationPath(EdgesOf(c), c) in PathsOf(Chains(gs, id, [], {})) <==> IsProofChain(gs, c, id, {})
  {
    PathsOfMember(Chains(gs, id, [], {}), c);
    if id in gs {
      ChainsExact(gs, id, [], {}, c);
      assert c[..|c|] == c;
    }
  }

  /**
   * The paths returned are the proof chains of the capability, each once, root first and linked
   * grant to grant; this holds on cyclic graphs too.
   */
  method BuildCapabilityProofGraph(graph: CapabilityDelegationGraph, id: Id)
    returns (paths: seq<DelegationPath>)
    requires graph.Valid()
    ensures forall c: seq<Grant> ::
      DelegationPath(EdgesOf(c), c) in paths <==> IsProofChain(graph.grants, c, id, {})
    ensures forall p :: p in paths ==> p.edges == EdgesOf(p.grants)
    ensures NoDuplicates(paths)
  {
    var collector := new PathCollector(graph.grants);
    collector.Traverse(id, [], {});
    paths := collector.paths;

    ghost var chains := Chains(graph.grants, id, [], {});
    assert paths == PathsOf(chains);
    forall c: seq<Grant>
      ensures DelegationPath(EdgesOf(c), c) in paths <==> IsProofChain(graph.grants, c, id, {})
    {
      PathIffChain(graph.grants, id, c);
    }
    if id in graph.grants {
      ChainsOnce(graph.grants, id, [], {});
    }
  }
}
