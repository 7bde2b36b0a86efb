/** The typed dependency-graph document and what its edges mean, in terms of package identities. */
module GraphDocument {
  import opened Wrappers

  datatype Identity = Identity(registryId: string, org: string, name: string, version: string)

  datatype DependencyKind = Runtime | Build | Development | Peer | Tooling

  datatype DeclaredDependency = DeclaredDependency(
    registryId: string, org: string, name: string, requirement: string, kind: DependencyKind,
    optional: bool, defaultFeatures: bool, features: seq<string>, target: Option<string>)

  datatype ResolvedEdge = ResolvedEdge(
    from: Identity, to: Identity, requirement: Option<string>, kind: DependencyKind,
    optional: bool, features: seq<string>, target: Option<string>)

  // Nodes are given by their ids.
  datatype GraphData =
    | Declared(package: Identity, dependencies: seq<DeclaredDependency>)
    | Resolved(resolverVersion: string, enabledFeatures: seq<string>, roots: seq<Identity>,
               nodes: seq<Identity>, edges: seq<ResolvedEdge>)

  ghost predicate KnownEdges(nodes: seq<Identity>, edges: seq<ResolvedEdge>) {
    forall j | 0 <= j < |edges| :: edges[j].from in nodes && edges[j].to in nodes
  }

  ghost predicate KnownRoots(nodes: seq<Identity>, roots: seq<Identity>) {
    forall i | 0 <= i < |roots| :: roots[i] in nodes
  }

  ghost predicate DistinctIds(nodes: seq<Identity>) {
    forall i, j | 0 <= i < j < |nodes| :: nodes[i] != nodes[j]
  }

  /** `k` resolved edges lead, one after the other, from `a` to `b`. */
  ghost predicate Chain(edges: seq<ResolvedEdge>, a: Identity, b: Identity, k: nat)
    decreases k
  {
    if k == 0 then a == b
    else exists j :: 0 <= j < |edges| && edges[j].to == b && Chain(edges, a, edges[j].from, k - 1)
  }

  ghost predicate DependsOn(edges: seq<ResolvedEdge>, a: Identity, b: Identity) {
    exists k: nat :: Chain(edges, a, b, k)
  }

  ghost predicate ReachedFromRoots(roots: seq<Identity>, edges: seq<ResolvedEdge>, b: Identity) {
    exists i :: 0 <= i < |roots| && DependsOn(edges, roots[i], b)
  }

  ghost predicate AllReached(roots: seq<Identity>, nodes: seq<Identity>, edges: seq<ResolvedEdge>) {
    forall i | 0 <= i < |nodes| :: ReachedFromRoots(roots, edges, nodes[i])
  }

  /** `d` is the least number of edges from any root to `b`. */
  ghost predicate Depth(roots: seq<Identity>, edges: seq<ResolvedEdge>, b: Identity, d: nat) {
    && (exists i :: 0 <= i < |roots| && Chain(edges, roots[i], b, d))
    && forall i, k: nat | 0 <= i < |roots| && Chain(edges, roots[i], b, k) :: d <= k
  }

  /** `a` depends on itself through at least one edge. */
  ghost predicate InCycle(edges: seq<ResolvedEdge>, a: Identity) {
    exists k: nat :: k > 0 && Chain(edges, a, a, k)
  }

  /** The nodes that depend on `a` and that `a` depends on. */
  ghost function MutualGroup(nodes: seq<Identity>, edges: seq<ResolvedEdge>, a: Identity): set<Identity> {
    set b | b in nodes && DependsOn(edges, a, b) && DependsOn(edges, b, a)
  }

  ghost function CyclicGroups(nodes: seq<Identity>, edges: seq<ResolvedEdge>): set<set<Identity>> {
    set a | a in nodes && InCycle(edges, a) :: MutualGroup(nodes, edges, a)
  }

  lemma DepthUnique(roots: seq<Identity>, edges: seq<ResolvedEdge>, b: Identity, d: nat, e: nat)
    requires Depth(roots, edges, b, d) && Depth(roots, edges, b, e)
    ensures d == e
  {
    var i :| 0 <= i < |roots| && Chain(edges, roots[i], b, d);
    var j :| 0 <= j < |roots| && Chain(edges, roots[j], b, e);
  }

  /** Across one edge the depth grows by at most one. */
  lemma DepthAcrossEdge(roots: seq<Identity>, edges: seq<ResolvedEdge>, j: nat, d: nat, e: nat)
    requires j < |edges| && Depth(roots, edges, edges[j].from, d) && Depth(roots, edges, edges[j].to, e)
    ensures e <= d + 1
  {
    var i :| 0 <= i < |roots| && Chain(edges, roots[i], edges[j].from, d);
    assert Chain(edges, roots[i], edges[j].to, d + 1);
  }
}
