/** Depths and cycle count of a resolved dependency graph (`analyze_resolved_graph`). */
module GraphAnalysis {
  import opened Digraph
  import opened GraphDocument
  import opened GraphPolicy
  import opened Wrappers
  import CycleCount
  import ShortestDepths

  datatype Analysis = Analysis(maxDepth: nat, cycleCount: nat, edgeDepths: seq<nat>)

  function Max(a: nat, b: nat): nat {
    if a < b then b else a
  }

  // i is the last position of id: the one a map built by successive insertion keeps.
  ghost predicate LastAt(nodes: seq<Identity>, id: Identity, i: nat) {
    i < |nodes| && nodes[i] == id && forall j | i < j < |nodes| :: nodes[j] != id
  }

  ghost predicate Indexes(nodes: seq<Identity>, indices: map<Identity, nat>) {
    && (forall id :: id in indices <==> id in nodes)
    && forall id | id in indices :: LastAt(nodes, id, indices[id])
  }

  ghost predicate JoinedBy(nodes: seq<Identity>, edges: seq<ResolvedEdge>, u: nat, v: nat) {
    exists j :: 0 <= j < |edges| && LastAt(nodes, edges[j].from, u) && LastAt(nodes, edges[j].to, v)
  }

  /** `g` is the index graph of the document's edges. */
  ghost predicate Represents(nodes: seq<Identity>, edges: seq<ResolvedEdge>, g: Graph) {
    && |g| == |nodes|
    && WellFormed(g)
    && forall u: nat, v: nat :: Edge(g, u, v) <==> JoinedBy(nodes, edges, u, v)
  }

  ghost function RootIndices(nodes: seq<Identity>, roots: seq<Identity>): set<nat> {
    set i: nat | i < |nodes| && nodes[i] in roots && LastAt(nodes, nodes[i], i)
  }

  // ---------- From index walks back to chains of document edges ----------

  lemma LastAtUnique(nodes: seq<Identity>, id: Identity, i: nat, j: nat)
    requires LastAt(nodes, id, i) && LastAt(nodes, id, j)
    ensures i == j
  {
  }

  lemma {:induction false} WalkIsChain(nodes: seq<Identity>, edges: seq<ResolvedEdge>, g: Graph, u: nat, v: nat, k: nat)
    requires Represents(nodes, edges, g) && Walk(g, u, v, k)
    ensures u < |nodes| && v < |nodes| && Chain(edges, nodes[u], nodes[v], k)
    ensures k > 0 ==> LastAt(nodes, nodes[v], v)
    decreases k
  {
    if k > 0 {
      var w: nat :| Walk(g, u, w, k - 1) && Edge(g, w, v);
      WalkIsChain(nodes, edges, g, u, w, k - 1);
      assert JoinedBy(nodes, edges, w, v);
      var j :| 0 <= j < |edges| && LastAt(nodes, edges[j].from, w) && LastAt(nodes, edges[j].to, v);
      assert edges[j].to == nodes[v] && Chain(edges, nodes[u], edges[j].from, k - 1);
    }
  }

  lemma {:induction false} ChainIsWalk(nodes: seq<Identity>, edges: seq<ResolvedEdge>, g: Graph, u: nat, v: nat, k: nat)
    requires Represents(nodes, edges, g) && KnownEdges(nodes, edges)
    requires u < |nodes| && v < |nodes| && LastAt(nodes, nodes[u], u) && LastAt(nodes, nodes[v], v)
    requires Chain(edges, nodes[u], nodes[v], k)
    ensures Walk(g, u, v, k)
    decreases k
  {
    if k == 0 {
      LastAtUnique(nodes, nodes[u], u, v);
    } else {
      var j :| 0 <= j < |edges| && edges[j].to == nodes[v] && Chain(edges, nodes[u], edges[j].from, k - 1);
      var w := LastIndex(nodes, edges[j].from);
      ChainIsWalk(nodes, edges, g, u, w, k - 1);
      assert JoinedBy(nodes, edges, w, v);
      assert Edge(g, w, v);
    }
  }

  lemma {:induction false} LastIndex(nodes: seq<Identity>, id: Identity) returns (i: nat)
    requires id in nodes
    ensures LastAt(nodes, id, i)
  {
    i := |nodes| - 1;
    while nodes[i] != id
      invariant i < |nodes| && forall j | i < j < |nodes| :: nodes[j] != id
      decreases i
    {
      assert i > 0 by { if i == 0 { assert forall j | 0 <= j < |nodes| :: nodes[j] != id; } }
      i := i - 1;
    }
  }

  lemma DistinctIffAllLast(nodes: seq<Identity>)
    ensures DistinctIds(nodes) <==> forall i: nat | i < |nodes| :: LastAt(nodes, nodes[i], i)
  {
    if !DistinctIds(nodes) {
      var i, j :| 0 <= i < j < |nodes| && nodes[i] == nodes[j];
      assert !LastAt(nodes, nodes[i], i);
    }
  }

  // ---------- Building the adjacency lists ----------

  method IndexNodes(nodes: seq<Identity>) returns (indices: map<Identity, nat>)
    ensures Indexes(nodes, indices)
  {
    indices := map[];
    for i := 0 to |nodes|
      invariant Indexes(nodes[..i], indices)
    {
      assert nodes[..i + 1] == nodes[..i] + [nodes[i]];
      indices := indices[nodes[i] := i];
    }
    assert nodes[..|nodes|] == nodes;
  }

  // Outgoing lists, incoming lists and loop flags of the same edges.
  ghost predicate Adjacency(nodes: seq<Identity>, edges: seq<ResolvedEdge>, outgoing: Graph, incoming: Graph, selfLoop: seq<bool>) {
    && Represents(nodes, edges, outgoing)
    && Transposed(outgoing, incoming)
    && |selfLoop| == |outgoing|
    && forall v: nat | v < |outgoing| :: selfLoop[v] <==> Edge(outgoing, v, v)
  }

  lemma NoEdges(nodes: seq<Identity>)
    ensures Adjacency(nodes, [], seq(|nodes|, _ => []), seq(|nodes|, _ => []), seq(|nodes|, _ => false))
  {
  }

  lemma JoinedByOneMore(nodes: seq<Identity>, edges: seq<ResolvedEdge>, e: ResolvedEdge, u: nat, v: nat, x: nat, y: nat)
    requires LastAt(nodes, e.from, u) && LastAt(nodes, e.to, v)
    ensures JoinedBy(nodes, edges + [e], x, y) <==> JoinedBy(nodes, edges, x, y) || (x == u && y == v)
  {
    var edges' := edges + [e];
    if j :| 0 <= j < |edges'| && LastAt(nodes, edges'[j].from, x) && LastAt(nodes, edges'[j].to, y) {
      if j < |edges| {
        assert edges[j] == edges'[j];
      } else {
        LastAtUnique(nodes, e.from, u, x);
        LastAtUnique(nodes, e.to, v, y);
      }
    }
    if j :| 0 <= j < |edges| && LastAt(nodes, edges[j].from, x) && LastAt(nodes, edges[j].to, y) {
      assert edges'[j] == edges[j];
    }
    assert edges'[|edges|] == e;
  }

  lemma EdgeAfterAppend(g: Graph, u: nat, v: nat, x: nat, y: nat)
    requires u < |g|
    ensures Edge(g[u := g[u] + [v]], x, y) <==> Edge(g, x, y) || (x == u && y == v)
  {
  }

  lemma EdgeAdded(nodes: seq<Identity>, edges: seq<ResolvedEdge>, outgoing: Graph, incoming: Graph, selfLoop: seq<bool>,
                  e: ResolvedEdge, u: nat, v: nat)
    requires Adjacency(nodes, edges, outgoing, incoming, selfLoop)
    requires LastAt(nodes, e.from, u) && LastAt(nodes, e.to, v)
    ensures u < |outgoing| && v < |incoming| && u < |selfLoop|
    ensures Adjacency(nodes, edges + [e], outgoing[u := outgoing[u] + [v]], incoming[v := incoming[v] + [u]],
                      selfLoop[u := selfLoop[u] || u == v])
  {
    var outgoing', incoming' := outgoing[u := outgoing[u] + [v]], incoming[v := incoming[v] + [u]];
    forall x: nat, y: nat
      ensures Edge(outgoing', x, y) <==> JoinedBy(nodes, edges + [e], x, y)
      ensures Edge(outgoing', x, y) <==> Edge(incoming', y, x)
      ensures Edge(outgoing', x, y) <==> Edge(outgoing, x, y) || (x == u && y == v)
    {
      EdgeAfterAppend(outgoing, u, v, x, y);
      EdgeAfterAppend(incoming, v, u, y, x);
      JoinedByOneMore(nodes, edges, e, u, v, x, y);
    }
    AppendKeepsWellFormed(outgoing, u, v);
  }

  lemma AppendKeepsWellFormed(g: Graph, u: nat, v: nat)
    requires WellFormed(g) && u < |g| && v < |g|
    ensures WellFormed(g[u := g[u] + [v]])
  {
  }

  // Edge j is the first with an endpoint that is not a node.
  ghost predicate FirstUnknown(nodes: seq<Identity>, edges: seq<ResolvedEdge>, j: nat) {
    && j < |edges|
    && KnownEdges(nodes, edges[..j])
    && !(edges[j].from in nodes && edges[j].to in nodes)
  }

  method Connect(nodes: seq<Identity>, indices: map<Identity, nat>, edges: seq<ResolvedEdge>)
      returns (r: Result<(), GraphError>, outgoing: Graph, incoming: Graph, selfLoop: seq<bool>)
    requires Indexes(nodes, indices)
    ensures r.Ok? ==> KnownEdges(nodes, edges) && Adjacency(nodes, edges, outgoing, incoming, selfLoop)
    ensures r.Err? ==> exists j: nat ::
      && FirstUnknown(nodes, edges, j)
      && r.error == if edges[j].from in nodes then EdgeTargetNotNode else EdgeSourceNotNode
  {
    hide Adjacency;
    var n := |nodes|;
    outgoing, incoming, selfLoop := seq(n, _ => []), seq(n, _ => []), seq(n, _ => false);
    NoEdges(nodes);
    assert edges[..0] == [];
    for j := 0 to |edges|
      invariant KnownEdges(nodes, edges[..j])
      invariant Adjacency(nodes, edges[..j], outgoing, incoming, selfLoop)
    {
      var edge := edges[j];
      if edge.from !in indices {
        assert FirstUnknown(nodes, edges, j);
        return Err(EdgeSourceNotNode), outgoing, incoming, selfLoop;
      }
      if edge.to !in indices {
        assert FirstUnknown(nodes, edges, j);
        return Err(EdgeTargetNotNode), outgoing, incoming, selfLoop;
      }
      var from, to := indices[edge.from], indices[edge.to];
      EdgeAdded(nodes, edges[..j], outgoing, incoming, selfLoop, edge, from, to);
      assert edges[..j + 1] == edges[..j] + [edge];
      outgoing := outgoing[from := outgoing[from] + [to]];
      incoming := incoming[to := incoming[to] + [from]];
      selfLoop := selfLoop[from := selfLoop[from] || from == to];
    }
    assert edges[..|edges|] == edges;
    return Ok(()), outgoing, incoming, selfLoop;
  }

  // ---------- Seeding the search ----------

  method SeedRoots(ghost g: Graph, nodes: seq<Identity>, indices: map<Identity, nat>, roots: seq<Identity>, slots: array<Option<nat>>)
      returns (r: Result<seq<nat>, GraphError>, ghost d: ShortestDepths.Depths)
    requires |g| == |nodes| == slots.Length && Indexes(nodes, indices)
    requires forall v: nat | v < slots.Length :: slots[v] == None
    modifies slots
    ensures r.Ok? <==> KnownRoots(nodes, roots)
    ensures r.Err? ==> r.error == RootNotNode
    ensures r.Ok? ==> ShortestDepths.BfsInvariant(g, RootIndices(nodes, roots), d, r.value) && ShortestDepths.Recorded(slots, d)
  {
    d := map[];
    var queue: seq<nat> := [];
    for i := 0 to |roots|
      invariant KnownRoots(nodes, roots[..i])
      invariant forall v: nat :: v in d <==> v in RootIndices(nodes, roots[..i])
      invariant forall v | v in d :: d[v] == 0 && v in queue
      invariant forall k | 0 <= k < |queue| :: queue[k] in d
      invariant ShortestDepths.Recorded(slots, d)
    {
      var root := roots[i];
      if root !in indices {
        assert !KnownRoots(nodes, roots);
        return Err(RootNotNode), d;
      }
      var at := indices[root];
      RootIndicesGrow(nodes, roots[..i], root, at);
      assert roots[..i + 1] == roots[..i] + [root];
      if slots[at].None? {
        slots[at] := Some(0);
        queue := queue + [at];
        d := d[at := 0];
        assert queue[|queue| - 1] == at;
      }
    }
    assert roots[..|roots|] == roots;
    return Ok(queue), d;
  }

  lemma RootIndicesGrow(nodes: seq<Identity>, roots: seq<Identity>, root: Identity, at: nat)
    requires LastAt(nodes, root, at)
    ensures RootIndices(nodes, roots + [root]) == RootIndices(nodes, roots) + {at}
  {
    forall i: nat | i < |nodes| && LastAt(nodes, nodes[i], i) ensures nodes[i] == root <==> i == at {
      if nodes[i] == root { LastAtUnique(nodes, root, i, at); }
    }
  }

  // ---------- What the analysis means ----------

  /** The documents the analysis accepts. */
  ghost predicate Admitted(roots: seq<Identity>, nodes: seq<Identity>, edges: seq<ResolvedEdge>) {
    && KnownEdges(nodes, edges)
    && KnownRoots(nodes, roots)
    && DistinctIds(nodes)
    && AllReached(roots, nodes, edges)
  }

  ghost predicate EdgeDepth(roots: seq<Identity>, edges: seq<ResolvedEdge>, j: nat, depth: nat)
    requires j < |edges|
  {
    exists d: nat :: Depth(roots, edges, edges[j].to, d) && depth == Max(d, 1)
  }

  // m is the largest element, or 0 of no elements.
  ghost predicate Largest(s: seq<nat>, m: nat) {
    && (forall i | 0 <= i < |s| :: s[i] <= m)
    && if s == [] then m == 0 else m in s
  }

  /** The numbers a correct analysis reports, all in terms of package identities. */
  ghost predicate IsAnalysis(roots: seq<Identity>, nodes: seq<Identity>, edges: seq<ResolvedEdge>, a: Analysis) {
    && |a.edgeDepths| == |edges|
    && (forall j | 0 <= j < |edges| :: EdgeDepth(roots, edges, j, a.edgeDepths[j]))
    && Largest(a.edgeDepths, a.maxDepth)
    && a.cycleCount == |CyclicGroups(nodes, edges)|
  }

  /** The exact reason behind each error. */
  ghost predicate Explains(roots: seq<Identity>, nodes: seq<Identity>, edges: seq<ResolvedEdge>, e: GraphError) {
    match e
    case EdgeSourceNotNode => exists j: nat :: FirstUnknown(nodes, edges, j) && edges[j].from !in nodes
    case EdgeTargetNotNode => exists j: nat :: FirstUnknown(nodes, edges, j) && edges[j].from in nodes
    case RootNotNode => KnownEdges(nodes, edges) && !KnownRoots(nodes, roots)
    case DepthExceedsI32 => KnownEdges(nodes, edges) && KnownRoots(nodes, roots) && |nodes| > I32_MAX
    case UnreachableNode =>
      KnownEdges(nodes, edges) && KnownRoots(nodes, roots) && !(DistinctIds(nodes) && AllReached(roots, nodes, edges))
    case CycleCountExceedsI32 => Admitted(roots, nodes, edges) && |CyclicGroups(nodes, edges)| > I32_MAX
    case NodeCountExceedsI32 => false
  }

  lemma ReachedIndexHasChain(roots: seq<Identity>, nodes: seq<Identity>, edges: seq<ResolvedEdge>, g: Graph, i: nat)
    requires Represents(nodes, edges, g)
    requires i < |nodes| && ShortestDepths.ReachedFrom(g, RootIndices(nodes, roots), i)
    ensures LastAt(nodes, nodes[i], i) && ReachedFromRoots(roots, edges, nodes[i])
  {
    var r :| r in RootIndices(nodes, roots) && Reaches(g, r, i);
    var k: nat :| Walk(g, r, i, k);
    WalkIsChain(nodes, edges, g, r, i, k);
    var j :| 0 <= j < |roots| && roots[j] == nodes[r];
    assert DependsOn(edges, roots[j], nodes[i]);
  }

  lemma ChainReachesIndex(roots: seq<Identity>, nodes: seq<Identity>, edges: seq<ResolvedEdge>, g: Graph, i: nat, j: nat, k: nat)
      returns (r: nat)
    requires Represents(nodes, edges, g) && KnownEdges(nodes, edges) && KnownRoots(nodes, roots) && DistinctIds(nodes)
    requires i < |nodes| && j < |roots| && Chain(edges, roots[j], nodes[i], k)
    ensures r in RootIndices(nodes, roots) && Walk(g, r, i, k)
  {
    DistinctIffAllLast(nodes);
    r := LastIndex(nodes, roots[j]);
    ChainIsWalk(nodes, edges, g, r, i, k);
  }

  /** Every index is found exactly when ids are distinct and every node is reached from a root. */
  lemma AllFoundIff(roots: seq<Identity>, nodes: seq<Identity>, edges: seq<ResolvedEdge>, g: Graph)
    requires Represents(nodes, edges, g) && KnownEdges(nodes, edges) && KnownRoots(nodes, roots)
    ensures (forall i: nat | i < |nodes| :: ShortestDepths.ReachedFrom(g, RootIndices(nodes, roots), i)) <==>
      DistinctIds(nodes) && AllReached(roots, nodes, edges)
  {
    hide Represents, Chain, Walk, KnownEdges, KnownRoots, RootIndices, LastAt;
    if forall i: nat | i < |nodes| :: ShortestDepths.ReachedFrom(g, RootIndices(nodes, roots), i) {
      forall i: nat | i < |nodes| ensures LastAt(nodes, nodes[i], i) && ReachedFromRoots(roots, edges, nodes[i]) {
        ReachedIndexHasChain(roots, nodes, edges, g, i);
      }
      DistinctIffAllLast(nodes);
    }
    if DistinctIds(nodes) && AllReached(roots, nodes, edges) {
      forall i: nat | i < |nodes| ensures ShortestDepths.ReachedFrom(g, RootIndices(nodes, roots), i) {
        assert ReachedFromRoots(roots, edges, nodes[i]);
        var j :| 0 <= j < |roots| && DependsOn(edges, roots[j], nodes[i]);
        var k: nat :| Chain(edges, roots[j], nodes[i], k);
        var r := ChainReachesIndex(roots, nodes, edges, g, i, j, k);
        assert Reaches(g, r, i);
      }
    }
  }

  /** Index distances are identity depths. */
  lemma NearestIsDepth(roots: seq<Identity>, nodes: seq<Identity>, edges: seq<ResolvedEdge>, g: Graph, i: nat, d: nat)
    requires Represents(nodes, edges, g) && KnownEdges(nodes, edges) && KnownRoots(nodes, roots) && DistinctIds(nodes)
    requires i < |nodes| && ShortestDepths.NearestRoot(g, RootIndices(nodes, roots), i, d)
    ensures Depth(roots, edges, nodes[i], d)
  {
    var r :| r in RootIndices(nodes, roots) && Walk(g, r, i, d);
    WalkIsChain(nodes, edges, g, r, i, d);
    var j :| 0 <= j < |roots| && roots[j] == nodes[r];
    assert Chain(edges, roots[j], nodes[i], d);
    hide Represents, Admitted, KnownEdges, KnownRoots, DistinctIds, AllReached;
    forall j: int, k: nat | 0 <= j < |roots| && Chain(edges, roots[j], nodes[i], k) ensures d <= k {
      var r := ChainReachesIndex(roots, nodes, edges, g, i, j, k);
    }
  }

  // ---------- Cyclic components are cyclic groups ----------

  ghost function Names(nodes: seq<Identity>, c: set<nat>): set<Identity> {
    set i | i in c && i < |nodes| :: nodes[i]
  }

  lemma WalkIffChain(nodes: seq<Identity>, edges: seq<ResolvedEdge>, g: Graph, u: nat, v: nat, k: nat)
    requires Represents(nodes, edges, g) && KnownEdges(nodes, edges) && DistinctIds(nodes)
    requires u < |nodes| && v < |nodes|
    ensures Walk(g, u, v, k) <==> Chain(edges, nodes[u], nodes[v], k)
  {
    DistinctIffAllLast(nodes);
    if Walk(g, u, v, k) { WalkIsChain(nodes, edges, g, u, v, k); }
    if Chain(edges, nodes[u], nodes[v], k) { ChainIsWalk(nodes, edges, g, u, v, k); }
  }

  lemma ReachesIffDependsOn(nodes: seq<Identity>, edges: seq<ResolvedEdge>, g: Graph, u: nat, v: nat)
    requires Represents(nodes, edges, g) && KnownEdges(nodes, edges) && DistinctIds(nodes)
    requires u < |nodes| && v < |nodes|
    ensures Reaches(g, u, v) <==> DependsOn(edges, nodes[u], nodes[v])
  {
    if k: nat :| Walk(g, u, v, k) { WalkIffChain(nodes, edges, g, u, v, k); }
    if k: nat :| Chain(edges, nodes[u], nodes[v], k) { WalkIffChain(nodes, edges, g, u, v, k); }
  }

  lemma ComponentIsGroup(nodes: seq<Identity>, edges: seq<ResolvedEdge>, g: Graph, u: nat)
    requires Represents(nodes, edges, g) && KnownEdges(nodes, edges) && DistinctIds(nodes) && u < |nodes|
    ensures Names(nodes, Component(g, u)) == MutualGroup(nodes, edges, nodes[u])
    ensures OnCycle(g, u) <==> InCycle(edges, nodes[u])
  {
    forall v: nat | v < |nodes|
      ensures Linked(g, u, v) <==> DependsOn(edges, nodes[u], nodes[v]) && DependsOn(edges, nodes[v], nodes[u])
    {
      ReachesIffDependsOn(nodes, edges, g, u, v);
      ReachesIffDependsOn(nodes, edges, g, v, u);
    }
    forall k: nat ensures Walk(g, u, u, k) <==> Chain(edges, nodes[u], nodes[u], k) {
      WalkIffChain(nodes, edges, g, u, u, k);
    }
  }

  lemma NamesInjective(nodes: seq<Identity>, c: set<nat>, d: set<nat>)
    requires DistinctIds(nodes) && (forall i | i in c :: i < |nodes|) && (forall i | i in d :: i < |nodes|)
    requires Names(nodes, c) == Names(nodes, d)
    ensures c == d
  {
    forall i | i in c ensures i in d { assert nodes[i] in Names(nodes, c); }
    forall i | i in d ensures i in c { assert nodes[i] in Names(nodes, d); }
  }

  lemma {:induction false} ImageSize(nodes: seq<Identity>, cs: set<set<nat>>)
    requires DistinctIds(nodes) && forall c, i | c in cs && i in c :: i < |nodes|
    ensures |set c | c in cs :: Names(nodes, c)| == |cs|
  {
    var image := set c | c in cs :: Names(nodes, c);
    if cs == {} {
      assert image == {};
    } else {
      var c :| c in cs;
      ImageSize(nodes, cs - {c});
      var rest := set d | d in cs - {c} :: Names(nodes, d);
      if Names(nodes, c) in rest {
        var d :| d in cs - {c} && Names(nodes, d) == Names(nodes, c);
        NamesInjective(nodes, c, d);
      }
      assert image == rest + {Names(nodes, c)};
    }
  }

  lemma SameCycleCount(nodes: seq<Identity>, edges: seq<ResolvedEdge>, g: Graph)
    requires Represents(nodes, edges, g) && KnownEdges(nodes, edges) && DistinctIds(nodes)
    ensures |CyclicGroups(nodes, edges)| == |CyclicComponents(g)|
  {
    var image := set c | c in CyclicComponents(g) :: Names(nodes, c);
    forall s ensures s in image <==> s in CyclicGroups(nodes, edges) {
      if s in image {
        var u: nat :| u < |g| && OnCycle(g, u) && s == Names(nodes, Component(g, u));
        ComponentIsGroup(nodes, edges, g, u);
      }
      if s in CyclicGroups(nodes, edges) {
        var a :| a in nodes && InCycle(edges, a) && s == MutualGroup(nodes, edges, a);
        var u: nat :| u < |nodes| && nodes[u] == a;
        ComponentIsGroup(nodes, edges, g, u);
        assert Component(g, u) in CyclicComponents(g);
      }
    }
    assert image == CyclicGroups(nodes, edges);
    forall c, i | c in CyclicComponents(g) && i in c ensures i < |nodes| {
      var u: nat :| u < |g| && OnCycle(g, u) && c == Component(g, u);
    }
    ImageSize(nodes, CyclicComponents(g));
  }

  // ---------- Reading the results off the depth slots ----------

  // Every slot holds the depth of its node.
  ghost predicate AllDepths(roots: seq<Identity>, nodes: seq<Identity>, edges: seq<ResolvedEdge>, depths: seq<nat>) {
    && |depths| == |nodes|
    && forall i: nat | i < |nodes| :: Depth(roots, edges, nodes[i], depths[i])
  }

  method AllFound(slots: array<Option<nat>>) returns (found: bool, depths: seq<nat>)
    ensures found <==> forall i | 0 <= i < slots.Length :: slots[i].Some?
    ensures found ==> |depths| == slots.Length && forall i | 0 <= i < slots.Length :: slots[i] == Some(depths[i])
  {
    depths := [];
    for i := 0 to slots.Length
      invariant |depths| == i && forall k | 0 <= k < i :: slots[k] == Some(depths[k])
    {
      if slots[i].None? {
        return false, [];
      }
      depths := depths + [slots[i].value];
    }
    return true, depths;
  }

  method EdgeDepths(nodes: seq<Identity>, edges: seq<ResolvedEdge>, indices: map<Identity, nat>, depths: seq<nat>)
      returns (edgeDepths: seq<nat>)
    requires Indexes(nodes, indices) && KnownEdges(nodes, edges) && |depths| == |nodes|
    ensures |edgeDepths| == |edges|
    ensures forall j | 0 <= j < |edges| :: edgeDepths[j] == Max(depths[indices[edges[j].to]], 1)
  {
    edgeDepths := [];
    for j := 0 to |edges|
      invariant |edgeDepths| == j
      invariant forall k | 0 <= k < j :: edgeDepths[k] == Max(depths[indices[edges[k].to]], 1)
    {
      edgeDepths := edgeDepths + [Max(depths[indices[edges[j].to]], 1)];
    }
  }

  lemma EdgeDepthsMean(roots: seq<Identity>, nodes: seq<Identity>, edges: seq<ResolvedEdge>, indices: map<Identity, nat>,
                       depths: seq<nat>, edgeDepths: seq<nat>)
    requires Indexes(nodes, indices) && KnownEdges(nodes, edges) && AllDepths(roots, nodes, edges, depths)
    requires |edgeDepths| == |edges|
    requires forall j | 0 <= j < |edges| :: edgeDepths[j] == Max(depths[indices[edges[j].to]], 1)
    ensures forall j | 0 <= j < |edges| :: EdgeDepth(roots, edges, j, edgeDepths[j])
  {
    hide Depth;
    forall j | 0 <= j < |edges| ensures EdgeDepth(roots, edges, j, edgeDepths[j]) {
      var t := indices[edges[j].to];
      assert Depth(roots, edges, nodes[t], depths[t]);
    }
  }

  method MaxDepth(depths: seq<nat>, hasEdges: bool) returns (m: nat)
    ensures forall i | 0 <= i < |depths| :: depths[i] <= m
    ensures m == (if hasEdges then 1 else 0) || m in depths
    ensures hasEdges ==> m >= 1
  {
    m := 0;
    for i := 0 to |depths|
      invariant forall k | 0 <= k < i :: depths[k] <= m
      invariant m == 0 || m in depths
    {
      m := Max(m, depths[i]);
    }
    m := Max(m, if hasEdges then 1 else 0);
  }

  lemma EdgeIntoDeepNode(roots: seq<Identity>, edges: seq<ResolvedEdge>, b: Identity, d: nat) returns (j: nat)
    requires Depth(roots, edges, b, d) && d > 0
    ensures j < |edges| && edges[j].to == b
  {
    var i :| 0 <= i < |roots| && Chain(edges, roots[i], b, d);
    j :| 0 <= j < |edges| && edges[j].to == b && Chain(edges, roots[i], edges[j].from, d - 1);
  }

  /** The node maximum, raised to one when there are edges, is the edge maximum. */
  lemma MaxDepthIsLargest(roots: seq<Identity>, nodes: seq<Identity>, edges: seq<ResolvedEdge>, indices: map<Identity, nat>,
                          depths: seq<nat>, edgeDepths: seq<nat>, m: nat)
    requires Indexes(nodes, indices) && KnownEdges(nodes, edges) && AllDepths(roots, nodes, edges, depths)
    requires |edgeDepths| == |edges|
    requires forall j | 0 <= j < |edges| :: edgeDepths[j] == Max(depths[indices[edges[j].to]], 1)
    requires forall i | 0 <= i < |depths| :: depths[i] <= m
    requires m == (if edges != [] then 1 else 0) || m in depths
    requires edges != [] ==> m >= 1
    ensures Largest(edgeDepths, m)
  {
    if m in depths && m > 0 {
      var i: nat :| i < |depths| && depths[i] == m;
      var j := EdgeIntoDeepNode(roots, edges, nodes[i], m);
      var t := indices[edges[j].to];
      DepthUnique(roots, edges, nodes[i], depths[i], depths[t]);
      assert edgeDepths[j] == m;
    } else if edges != [] {
      assert depths[indices[edges[0].to]] <= 1;
      assert edgeDepths[0] == m;
    }
  }

  lemma DepthsOfAll(roots: seq<Identity>, nodes: seq<Identity>, edges: seq<ResolvedEdge>, depths: seq<nat>)
    requires |depths| == |nodes| && forall i: nat | i < |nodes| :: Depth(roots, edges, nodes[i], depths[i])
    ensures AllDepths(roots, nodes, edges, depths)
  {
    hide Depth;
  }

  lemma DepthsFromSearch(roots: seq<Identity>, nodes: seq<Identity>, edges: seq<ResolvedEdge>, g: Graph,
                         d: ShortestDepths.Depths, depths: seq<nat>)
    requires Represents(nodes, edges, g) && KnownEdges(nodes, edges) && KnownRoots(nodes, roots)
    requires ShortestDepths.BfsInvariant(g, RootIndices(nodes, roots), d, [])
    requires |depths| == |nodes| && forall i: nat | i < |nodes| :: i in d && depths[i] == d[i]
    ensures DistinctIds(nodes) && AllReached(roots, nodes, edges)
    ensures AllDepths(roots, nodes, edges, depths)
  {
    hide *;
    ShortestDepths.DepthsAreNearest(g, RootIndices(nodes, roots), d);
    AllFoundIff(roots, nodes, edges, g);
    forall i: nat | i < |nodes| ensures Depth(roots, edges, nodes[i], depths[i]) {
      NearestIsDepth(roots, nodes, edges, g, i, d[i]);
    }
    DepthsOfAll(roots, nodes, edges, depths);
  }

  lemma NotAllFound(roots: seq<Identity>, nodes: seq<Identity>, edges: seq<ResolvedEdge>, g: Graph, d: ShortestDepths.Depths)
    requires Represents(nodes, edges, g) && KnownEdges(nodes, edges) && KnownRoots(nodes, roots)
    requires ShortestDepths.BfsInvariant(g, RootIndices(nodes, roots), d, [])
    requires exists i: nat :: i < |nodes| && i !in d
    ensures !(DistinctIds(nodes) && AllReached(roots, nodes, edges))
  {
    ShortestDepths.DepthsAreNearest(g, RootIndices(nodes, roots), d);
    AllFoundIff(roots, nodes, edges, g);
  }

  lemma AdjacencyFacts(nodes: seq<Identity>, edges: seq<ResolvedEdge>, outgoing: Graph, incoming: Graph, selfLoop: seq<bool>)
    requires Adjacency(nodes, edges, outgoing, incoming, selfLoop)
    ensures Represents(nodes, edges, outgoing) && WellFormed(outgoing) && Transposed(outgoing, incoming)
    ensures |outgoing| == |nodes| == |selfLoop|
    ensures forall v: nat | v < |outgoing| :: selfLoop[v] <==> Edge(outgoing, v, v)
  {
  }

  /** The depths of all nodes, or the finding that some node has none. */
  method ReadDepths(ghost roots: seq<Identity>, nodes: seq<Identity>, ghost edges: seq<ResolvedEdge>, ghost g: Graph,
                    slots: array<Option<nat>>, ghost d: ShortestDepths.Depths)
      returns (found: bool, depths: seq<nat>)
    requires Represents(nodes, edges, g) && KnownEdges(nodes, edges) && KnownRoots(nodes, roots)
    requires slots.Length == |nodes| && ShortestDepths.Recorded(slots, d)
    requires ShortestDepths.BfsInvariant(g, RootIndices(nodes, roots), d, [])
    ensures found <==> DistinctIds(nodes) && AllReached(roots, nodes, edges)
    ensures found ==> AllDepths(roots, nodes, edges, depths)
  {
    hide Represents, ShortestDepths.BfsInvariant, RootIndices, Depth, AllReached, AllDepths;
    found, depths := AllFound(slots);
    if !found {
      NotAllFound(roots, nodes, edges, g, d);
    } else {
      forall i: nat | i < |nodes| ensures i in d && depths[i] == d[i] {
        assert slots[i] == Some(depths[i]);
      }
      DepthsFromSearch(roots, nodes, edges, g, d, depths);
    }
  }

  /** The depth of each edge and their largest, the node maximum being raised to one when there are edges. */
  method DepthSummary(ghost roots: seq<Identity>, nodes: seq<Identity>, edges: seq<ResolvedEdge>,
                      indices: map<Identity, nat>, depths: seq<nat>)
      returns (edgeDepths: seq<nat>, maxDepth: nat)
    requires Indexes(nodes, indices) && KnownEdges(nodes, edges) && AllDepths(roots, nodes, edges, depths)
    ensures |edgeDepths| == |edges| && Largest(edgeDepths, maxDepth)
    ensures forall j | 0 <= j < |edges| :: EdgeDepth(roots, edges, j, edgeDepths[j])
  {
    edgeDepths := EdgeDepths(nodes, edges, indices, depths);
    EdgeDepthsMean(roots, nodes, edges, indices, depths, edgeDepths);
    maxDepth := MaxDepth(depths, edges != []);
    MaxDepthIsLargest(roots, nodes, edges, indices, depths, edgeDepths, maxDepth);
  }

  /** The analysis: an exact reason when it fails, exact depths and cycle count when it succeeds. */
  method AnalyzeResolvedGraph(roots: seq<Identity>, nodes: seq<Identity>, edges: seq<ResolvedEdge>)
      returns (r: Result<Analysis, GraphError>)
    ensures r.Ok? ==> Admitted(roots, nodes, edges) && IsAnalysis(roots, nodes, edges, r.value)
    ensures r.Err? ==> Explains(roots, nodes, edges, r.error)
  {
    var indices := IndexNodes(nodes);
    hide Represents, Adjacency, WellFormed, Transposed, ShortestDepths.BfsInvariant, ShortestDepths.Recorded,
      CyclicComponents, CyclicGroups, Depth, EdgeDepth, AllDepths, AllReached, RootIndices, Largest, Indexes, KnownEdges, KnownRoots;
    var connected, outgoing, incoming, selfLoop := Connect(nodes, indices, edges);
    if connected.Err? {
      return Err(connected.error);
    }
    AdjacencyFacts(nodes, edges, outgoing, incoming, selfLoop);
    var slots := new Option<nat>[|nodes|](_ => None);
    var seeded, d0 := SeedRoots(outgoing, nodes, indices, roots, slots);
    if seeded.Err? {
      return Err(seeded.error);
    }
    var searched, d := ShortestDepths.Search(outgoing, RootIndices(nodes, roots), slots, seeded.value, d0);
    if searched.Err? {
      return Err(searched.error);
    }
    var found, depths := ReadDepths(roots, nodes, edges, outgoing, slots, d);
    if !found {
      return Err(UnreachableNode);
    }
    var edgeDepths, maxDepth := DepthSummary(roots, nodes, edges, indices, depths);
    var counted := CycleCount.CountCyclicComponents(outgoing, incoming, selfLoop);
    SameCycleCount(nodes, edges, outgoing);
    if counted.Err? {
      return Err(counted.error);
    }
    return Ok(Analysis(maxDepth, counted.value, edgeDepths));
  }
}
