/** Counts and depths derived from a graph document (`graph_projection`). */
module GraphProjection {
  import opened Digraph
  import opened GraphAnalysis
  import opened GraphDocument
  import opened GraphPolicy
  import opened Wrappers

  datatype Projection = Projection(nodeCount: nat, maxDepth: nat, cycleCount: nat, edgeDepths: seq<nat>)

  function Coordinates(dependencies: seq<DeclaredDependency>): set<(string, string, string)> {
    set d | d in dependencies :: (d.registryId, d.org, d.name)
  }

  /** The projection of a document, by meaning. */
  ghost predicate IsProjection(data: GraphData, p: Projection) {
    match data
    case Declared(_, dependencies) =>
      && p.nodeCount == 1 + |Coordinates(dependencies)|
      && p.maxDepth == (if dependencies == [] then 0 else 1)
      && p.cycleCount == 0
      && p.edgeDepths == seq(|dependencies|, _ => 1)
    case Resolved(_, _, roots, nodes, edges) =>
      && p.nodeCount == |nodes|
      && Admitted(roots, nodes, edges)
      && IsAnalysis(roots, nodes, edges, Analysis(p.maxDepth, p.cycleCount, p.edgeDepths))
  }

  ghost predicate Projectable(data: GraphData) {
    exists p :: IsProjection(data, p) && p.nodeCount <= I32_MAX
  }

  lemma EdgeDepthUnique(roots: seq<Identity>, edges: seq<ResolvedEdge>, j: nat, a: nat, b: nat)
    requires j < |edges| && EdgeDepth(roots, edges, j, a) && EdgeDepth(roots, edges, j, b)
    ensures a == b
  {
    hide Depth;
    var d: nat :| Depth(roots, edges, edges[j].to, d) && a == Max(d, 1);
    var e: nat :| Depth(roots, edges, edges[j].to, e) && b == Max(e, 1);
    DepthUnique(roots, edges, edges[j].to, d, e);
  }

  /** A document has at most one projection. */
  lemma ProjectionUnique(data: GraphData, p: Projection, q: Projection)
    requires IsProjection(data, p) && IsProjection(data, q)
    ensures p == q
  {
    hide EdgeDepth, Admitted;
    if data.Resolved? {
      forall j | 0 <= j < |data.edges| ensures p.edgeDepths[j] == q.edgeDepths[j] {
        EdgeDepthUnique(data.roots, data.edges, j, p.edgeDepths[j], q.edgeDepths[j]);
      }
      assert p.edgeDepths == q.edgeDepths;
    }
  }

  /** The projection succeeds exactly on projectable documents. Since the node count is checked to fit
      i32 first, the depth and cycle-count overflow errors of the analysis never surface. */
  method Project(data: GraphData) returns (r: Result<Projection, GraphError>)
    ensures r.Ok? ==> IsProjection(data, r.value) && r.value.nodeCount <= I32_MAX
    ensures r.Ok? <==> Projectable(data)
    ensures r.Err? ==> r.error != DepthExceedsI32 && r.error != CycleCountExceedsI32
    ensures r.Err? && data.Resolved? && r.error != NodeCountExceedsI32 ==>
      Explains(data.roots, data.nodes, data.edges, r.error)
  {
    hide IsAnalysis, Admitted;
    match data
    case Declared(_, dependencies) =>
      var nodeCount := 1 + |Coordinates(dependencies)|;
      if nodeCount > I32_MAX {
        return Err(NodeCountExceedsI32);
      }
      var p := Projection(nodeCount, if dependencies == [] then 0 else 1, 0, seq(|dependencies|, _ => 1));
      assert IsProjection(data, p);
      return Ok(p);
    case Resolved(_, _, roots, nodes, edges) =>
      if |nodes| > I32_MAX {
        return Err(NodeCountExceedsI32);
      }
      var analysis := AnalyzeResolvedGraph(roots, nodes, edges);
      if analysis.Err? {
        OverflowImpossible(roots, nodes, edges, analysis.error);
        NoProjection(data, analysis.error);
        return Err(analysis.error);
      }
      var a := analysis.value;
      var p := Projection(|nodes|, a.maxDepth, a.cycleCount, a.edgeDepths);
      assert IsProjection(data, p);
      return Ok(p);
  }

  lemma OverflowImpossible(roots: seq<Identity>, nodes: seq<Identity>, edges: seq<ResolvedEdge>, e: GraphError)
    requires |nodes| <= I32_MAX && Explains(roots, nodes, edges, e)
    ensures e != DepthExceedsI32 && e != CycleCountExceedsI32
  {
    CyclicGroupsBounded(nodes, edges);
  }

  lemma NoProjection(data: GraphData, e: GraphError)
    requires data.Resolved? && Explains(data.roots, data.nodes, data.edges, e) && |data.nodes| <= I32_MAX
    ensures !Projectable(data)
  {
    CyclicGroupsBounded(data.nodes, data.edges);
  }

  ghost function GroupsOf(nodes: seq<Identity>, edges: seq<ResolvedEdge>, ids: seq<Identity>): set<set<Identity>> {
    set a | a in ids && InCycle(edges, a) :: MutualGroup(nodes, edges, a)
  }

  /** At most one cyclic group per node. */
  lemma CyclicGroupsBounded(nodes: seq<Identity>, edges: seq<ResolvedEdge>)
    ensures |CyclicGroups(nodes, edges)| <= |nodes|
  {
    GroupsOfBounded(nodes, edges, nodes);
    assert CyclicGroups(nodes, edges) == GroupsOf(nodes, edges, nodes);
  }

  lemma {:induction false} GroupsOfBounded(nodes: seq<Identity>, edges: seq<ResolvedEdge>, ids: seq<Identity>)
    ensures |GroupsOf(nodes, edges, ids)| <= |ids|
  {
    if ids == [] {
      assert GroupsOf(nodes, edges, ids) == {};
    } else {
      GroupsOfBounded(nodes, edges, ids[1..]);
      var rest, first := GroupsOf(nodes, edges, ids[1..]), MutualGroup(nodes, edges, ids[0]);
      SubsetSize(GroupsOf(nodes, edges, ids), rest + {first});
      assert |rest + {first}| <= |rest| + 1;
    }
  }

  /** No group is cyclic exactly when no node depends on itself. */
  lemma CycleCountZeroIffNoCycle(data: GraphData, p: Projection)
    requires data.Resolved? && IsProjection(data, p)
    ensures p.cycleCount == 0 <==> forall i | 0 <= i < |data.nodes| :: !InCycle(data.edges, data.nodes[i])
  {
    var groups := CyclicGroups(data.nodes, data.edges);
    if i :| 0 <= i < |data.nodes| && InCycle(data.edges, data.nodes[i]) {
      assert MutualGroup(data.nodes, data.edges, data.nodes[i]) in groups;
    } else {
      assert groups == {};
    }
  }

  // ---------- Depth bounds ----------

  // The nodes at depth d or less.
  ghost function Shallow(roots: seq<Identity>, nodes: seq<Identity>, edges: seq<ResolvedEdge>, d: nat): set<Identity> {
    set b | b in nodes && exists e: nat :: e <= d && Depth(roots, edges, b, e)
  }

  lemma NotShallower(roots: seq<Identity>, nodes: seq<Identity>, edges: seq<ResolvedEdge>, b: Identity, d: nat, e: nat)
    requires Depth(roots, edges, b, d)
    ensures b in Shallow(roots, nodes, edges, e) ==> d <= e
  {
  }

  lemma {:induction false} ShallowSize(roots: seq<Identity>, nodes: seq<Identity>, edges: seq<ResolvedEdge>, b: Identity, d: nat)
    requires KnownEdges(nodes, edges) && b in nodes && Depth(roots, edges, b, d)
    ensures |Shallow(roots, nodes, edges, d)| > d
    decreases d
  {
    assert b in Shallow(roots, nodes, edges, d);
    if d == 0 {
      SubsetSize({b}, Shallow(roots, nodes, edges, d));
    } else {
      var i :| 0 <= i < |roots| && Chain(edges, roots[i], b, d);
      var j :| 0 <= j < |edges| && edges[j].to == b && Chain(edges, roots[i], edges[j].from, d - 1);
      var c := edges[j].from;
      forall i', k: nat | 0 <= i' < |roots| && Chain(edges, roots[i'], c, k) ensures d - 1 <= k {
        assert Chain(edges, roots[i'], b, k + 1);
      }
      ShallowSize(roots, nodes, edges, c, d - 1);
      var below := Shallow(roots, nodes, edges, d - 1);
      NotShallower(roots, nodes, edges, b, d, d - 1);
      SubsetSize(below + {b}, Shallow(roots, nodes, edges, d));
    }
  }

  lemma {:induction false} ElementsSize(nodes: seq<Identity>)
    ensures |set b | b in nodes| <= |nodes|
  {
    if nodes == [] {
      assert (set b | b in nodes) == {};
    } else {
      ElementsSize(nodes[1..]);
      assert (set b | b in nodes) == {nodes[0]} + set b | b in nodes[1..];
    }
  }

  lemma EdgeDepthAcross(roots: seq<Identity>, edges: seq<ResolvedEdge>, j: nat, depth: nat, d: nat)
    requires j < |edges| && EdgeDepth(roots, edges, j, depth) && Depth(roots, edges, edges[j].from, d)
    ensures depth <= d + 1
  {
    hide Depth;
    var e: nat :| Depth(roots, edges, edges[j].to, e) && depth == Max(e, 1);
    DepthAcrossEdge(roots, edges, j, d, e);
  }

  lemma EdgeDepthBound(roots: seq<Identity>, nodes: seq<Identity>, edges: seq<ResolvedEdge>, j: nat, depth: nat)
    requires j < |edges| && KnownEdges(nodes, edges) && EdgeDepth(roots, edges, j, depth)
    ensures depth <= |nodes|
  {
    hide Depth;
    var d: nat :| Depth(roots, edges, edges[j].to, d) && depth == Max(d, 1);
    ShallowSize(roots, nodes, edges, edges[j].to, d);
    ElementsSize(nodes);
    SubsetSize(Shallow(roots, nodes, edges, d), set b | b in nodes);
  }

  /** Across an edge the recorded depth grows by at most one. */
  lemma DepthGrowsByOne(data: GraphData, p: Projection, j: nat, d: nat)
    requires data.Resolved? && IsProjection(data, p)
    requires j < |data.edges| && Depth(data.roots, data.edges, data.edges[j].from, d)
    ensures p.edgeDepths[j] <= d + 1
  {
    hide Depth, EdgeDepth, Admitted;
    assert EdgeDepth(data.roots, data.edges, j, p.edgeDepths[j]);
    EdgeDepthAcross(data.roots, data.edges, j, p.edgeDepths[j], d);
  }

  /** No depth exceeds the node count. */
  lemma MaxDepthBound(data: GraphData, p: Projection)
    requires IsProjection(data, p)
    ensures p.maxDepth <= p.nodeCount
  {
    hide Depth, EdgeDepth, DistinctIds, AllReached, KnownRoots, KnownEdges;
    if data.Resolved? && data.edges != [] {
      var j :| 0 <= j < |p.edgeDepths| && p.edgeDepths[j] == p.maxDepth;
      assert EdgeDepth(data.roots, data.edges, j, p.edgeDepths[j]);
      EdgeDepthBound(data.roots, data.nodes, data.edges, j, p.maxDepth);
    }
  }

  /** A declared graph counts its package and each coordinate it depends on once, so at most one node per
      dependency besides the package, and exactly that many when no coordinate repeats. */
  lemma DeclaredCounts(data: GraphData, p: Projection)
    requires data.Declared? && IsProjection(data, p)
    ensures p.nodeCount <= 1 + |data.dependencies|
    ensures p.nodeCount == 1 + |data.dependencies| <==> Unrepeated(data.dependencies)
    ensures p.maxDepth == 0 <==> data.dependencies == []
    ensures p.cycleCount == 0 && |p.edgeDepths| == |data.dependencies| && forall i | 0 <= i < |p.edgeDepths| :: p.edgeDepths[i] == 1
  {
    CoordinatesCount(data.dependencies);
  }

  function CoordinateOf(d: DeclaredDependency): (string, string, string) {
    (d.registryId, d.org, d.name)
  }

  predicate SameCoordinate(a: DeclaredDependency, b: DeclaredDependency) {
    CoordinateOf(a) == CoordinateOf(b)
  }

  ghost predicate Unrepeated(dependencies: seq<DeclaredDependency>) {
    forall i, j | 0 <= i < j < |dependencies| :: !SameCoordinate(dependencies[i], dependencies[j])
  }

  lemma UnrepeatedGrows(dependencies: seq<DeclaredDependency>)
    requires dependencies != []
    ensures var front, last := dependencies[..|dependencies| - 1], dependencies[|dependencies| - 1];
      Unrepeated(dependencies) <==> Unrepeated(front) && !exists i :: 0 <= i < |front| && SameCoordinate(front[i], last)
  {
    hide SameCoordinate;
    var n := |dependencies| - 1;
    assert forall i | 0 <= i < n :: dependencies[..n][i] == dependencies[i];
  }

  lemma {:induction false} CoordinatesCount(dependencies: seq<DeclaredDependency>)
    ensures |Coordinates(dependencies)| <= |dependencies|
    ensures |Coordinates(dependencies)| == |dependencies| <==> Unrepeated(dependencies)
    decreases |dependencies|
  {
    if dependencies == [] {
      assert Coordinates(dependencies) == {};
    } else {
      var n := |dependencies| - 1;
      CoordinatesCount(dependencies[..n]);
      CoordinateRepeats(dependencies[..n], dependencies[n]);
      CoordinatesGrow(dependencies);
      UnrepeatedGrows(dependencies);
      hide *;
    }
  }

  lemma CoordinatesGrow(dependencies: seq<DeclaredDependency>)
    requires dependencies != []
    ensures var n := |dependencies| - 1;
      Coordinates(dependencies) == Coordinates(dependencies[..n]) + {CoordinateOf(dependencies[n])}
  {
    var n := |dependencies| - 1;
    assert dependencies == dependencies[..n] + [dependencies[n]];
  }

  lemma CoordinateRepeats(front: seq<DeclaredDependency>, last: DeclaredDependency)
    ensures CoordinateOf(last) in Coordinates(front) <==> exists i :: 0 <= i < |front| && SameCoordinate(front[i], last)
  {
    if CoordinateOf(last) in Coordinates(front) {
      var d :| d in front && CoordinateOf(d) == CoordinateOf(last);
      var i :| 0 <= i < |front| && front[i] == d;
      assert SameCoordinate(front[i], last);
    }
    if i :| 0 <= i < |front| && SameCoordinate(front[i], last) {
      assert front[i] in front;
    }
  }
}
