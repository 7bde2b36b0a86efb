/** Breadth-first depths from a set of roots (the search inside `analyze_resolved_graph`). */
module ShortestDepths {
  import opened Digraph
  import opened GraphPolicy
  import opened Wrappers

  // Depths found so far.
  type Depths = map<nat, nat>

  /** `d` is the length of a shortest walk to `v` from the nearest root. */
  ghost predicate NearestRoot(g: Graph, roots: set<nat>, v: nat, d: nat) {
    && (exists r :: r in roots && Walk(g, r, v, d))
    && forall r, k: nat | r in roots && Walk(g, r, v, k) :: d <= k
  }

  ghost predicate ReachedFrom(g: Graph, roots: set<nat>, v: nat) {
    exists r :: r in roots && Reaches(g, r, v)
  }

  ghost predicate HasParent(g: Graph, d: Depths, v: nat)
    requires v in d
  {
    exists u :: u in d && d[u] + 1 == d[v] && Edge(g, u, v)
  }

  // Every depth is zero at a root, or one more than the depth of some predecessor.
  ghost predicate Layered(g: Graph, roots: set<nat>, d: Depths) {
    && (forall v | v in d :: v < |g|)
    && (forall r | r in roots :: r in d && d[r] == 0)
    && (forall v | v in d && d[v] == 0 :: v in roots)
    && forall v {:trigger HasParent(g, d, v)} | v in d && d[v] > 0 :: HasParent(g, d, v)
  }

  // All of v's targets have depths, at most one more than v's.
  ghost predicate Expanded(g: Graph, d: Depths, v: nat)
    requires v in d
  {
    forall w: nat | Edge(g, v, w) :: w in d && d[w] <= d[v] + 1
  }

  ghost predicate QueueOrdered(d: Depths, queue: seq<nat>, low: nat) {
    && (forall i | 0 <= i < |queue| :: queue[i] in d && low <= d[queue[i]])
    && (forall i, j | 0 <= i <= j < |queue| :: d[queue[i]] <= d[queue[j]])
    && forall v | v in d :: d[v] <= low + 1
  }

  ghost predicate BfsInvariant(g: Graph, roots: set<nat>, d: Depths, queue: seq<nat>) {
    && Layered(g, roots, d)
    && (forall i | 0 <= i < |queue| :: queue[i] in d)
    && (|queue| > 0 ==> QueueOrdered(d, queue, d[queue[0]]))
    && forall v | v in d && v !in queue :: Expanded(g, d, v)
  }

  // While x, just dequeued, has its first k edges read.
  ghost predicate Expanding(g: Graph, roots: set<nat>, d: Depths, queue: seq<nat>, x: nat, k: nat) {
    && Layered(g, roots, d)
    && x in d && x < |g| && k <= |g[x]|
    && QueueOrdered(d, queue, d[x])
    && (forall v | v in d && v !in queue && v != x :: Expanded(g, d, v))
    && forall j | 0 <= j < k :: g[x][j] in d
  }

  lemma DequeueStarts(g: Graph, roots: set<nat>, d: Depths, queue: seq<nat>)
    requires |queue| > 0 && BfsInvariant(g, roots, d, queue)
    ensures Expanding(g, roots, d, queue[1..], queue[0], 0)
  {
    forall v | v in d && v !in queue[1..] && v != queue[0] ensures Expanded(g, d, v) {
      assert v !in queue;
    }
  }

  lemma NeighborFound(g: Graph, roots: set<nat>, d: Depths, queue: seq<nat>, x: nat, k: nat)
    requires Expanding(g, roots, d, queue, x, k) && k < |g[x]| && g[x][k] in d
    ensures Expanding(g, roots, d, queue, x, k + 1)
  {
  }

  lemma LayerGrows(g: Graph, roots: set<nat>, d: Depths, x: nat, y: nat)
    requires Layered(g, roots, d) && x in d && y !in d && y < |g| && Edge(g, x, y)
    ensures Layered(g, roots, d[y := d[x] + 1])
  {
    var d' := d[y := d[x] + 1];
    forall v | v in d' && d'[v] > 0 ensures HasParent(g, d', v) {
      if v == y {
        assert x in d' && d'[x] + 1 == d'[y];
      } else {
        assert HasParent(g, d, v);
        var u :| u in d && d[u] + 1 == d[v] && Edge(g, u, v);
        assert u in d' && d'[u] + 1 == d'[v];
      }
    }
  }

  lemma QueueGrows(d: Depths, queue: seq<nat>, low: nat, y: nat)
    requires QueueOrdered(d, queue, low) && y !in d
    ensures QueueOrdered(d[y := low + 1], queue + [y], low)
  {
  }

  lemma ExpandedGrows(g: Graph, d: Depths, v: nat, y: nat, k: nat)
    requires v in d && y !in d && Expanded(g, d, v)
    ensures Expanded(g, d[y := k], v)
  {
  }

  lemma NeighborEnqueued(g: Graph, roots: set<nat>, d: Depths, queue: seq<nat>, x: nat, k: nat)
    requires WellFormed(g) && Expanding(g, roots, d, queue, x, k) && k < |g[x]| && g[x][k] !in d
    ensures Expanding(g, roots, d[g[x][k] := d[x] + 1], queue + [g[x][k]], x, k + 1)
  {
    var y := g[x][k];
    var d', queue' := d[y := d[x] + 1], queue + [y];
    assert queue'[|queue|] == y;
    LayerGrows(g, roots, d, x, y);
    QueueGrows(d, queue, d[x], y);
    hide Layered, QueueOrdered;
    forall v | v in d' && v !in queue' && v != x ensures Expanded(g, d', v) {
      assert v in d && v !in queue;
      ExpandedGrows(g, d, v, y, d[x] + 1);
    }
  }

  lemma DequeueEnds(g: Graph, roots: set<nat>, d: Depths, queue: seq<nat>, x: nat)
    requires x < |g| && Expanding(g, roots, d, queue, x, |g[x]|)
    ensures BfsInvariant(g, roots, d, queue)
  {
    assert Expanded(g, d, x);
  }

  // The nodes at depth k or less.
  ghost function UpTo(d: Depths, k: nat): set<nat> {
    set u | u in d && d[u] <= k
  }

  /** A depth is always below the number of nodes. */
  lemma DepthsBelowNodeCount(g: Graph, roots: set<nat>, d: Depths, v: nat)
    requires Layered(g, roots, d) && v in d
    ensures d[v] < |g|
  {
    NodesUpTo(g, roots, d, v);
    SubsetSize(UpTo(d, d[v]), Below(|g|));
  }

  lemma {:induction false} NodesUpTo(g: Graph, roots: set<nat>, d: Depths, v: nat)
    requires Layered(g, roots, d) && v in d
    ensures |UpTo(d, d[v])| > d[v]
    decreases d[v]
  {
    if d[v] == 0 {
      SubsetSize({v}, UpTo(d, 0));
    } else {
      assert HasParent(g, d, v);
      var u :| u in d && d[u] + 1 == d[v] && Edge(g, u, v);
      NodesUpTo(g, roots, d, u);
      SubsetSize(UpTo(d, d[u]) + {v}, UpTo(d, d[v]));
    }
  }

  lemma {:induction false} DepthIsWalk(g: Graph, roots: set<nat>, d: Depths, v: nat)
    requires Layered(g, roots, d) && v in d
    ensures exists r :: r in roots && Walk(g, r, v, d[v])
    decreases d[v]
  {
    if d[v] == 0 {
      assert Walk(g, v, v, 0);
    } else {
      assert HasParent(g, d, v);
      var u :| u in d && d[u] + 1 == d[v] && Edge(g, u, v);
      DepthIsWalk(g, roots, d, u);
      var r :| r in roots && Walk(g, r, u, d[u]);
      assert Walk(g, r, v, d[v]);
    }
  }

  lemma {:induction false} WalkBoundsDepth(g: Graph, roots: set<nat>, d: Depths, r: nat, v: nat, k: nat)
    requires BfsInvariant(g, roots, d, []) && r in roots && Walk(g, r, v, k)
    ensures v in d && d[v] <= k
    decreases k
  {
    if k > 0 {
      var w: nat :| Walk(g, r, w, k - 1) && Edge(g, w, v);
      WalkBoundsDepth(g, roots, d, r, w, k - 1);
      assert Expanded(g, d, w);
    }
  }

  /** When the queue runs empty the depths are exactly the nearest-root distances. */
  lemma DepthsAreNearest(g: Graph, roots: set<nat>, d: Depths)
    requires BfsInvariant(g, roots, d, [])
    ensures forall v: nat :: v in d <==> ReachedFrom(g, roots, v)
    ensures forall v: nat | v in d :: NearestRoot(g, roots, v, d[v])
  {
    forall v: nat ensures v in d <==> ReachedFrom(g, roots, v) {
      if v in d {
        DepthIsWalk(g, roots, d, v);
        var r :| r in roots && Walk(g, r, v, d[v]);
        assert Reaches(g, r, v);
      }
      if r :| r in roots && Reaches(g, r, v) {
        var k: nat :| Walk(g, r, v, k);
        WalkBoundsDepth(g, roots, d, r, v, k);
      }
    }
    forall v: nat | v in d ensures NearestRoot(g, roots, v, d[v]) {
      DepthIsWalk(g, roots, d, v);
      forall r, k: nat | r in roots && Walk(g, r, v, k) ensures d[v] <= k {
        WalkBoundsDepth(g, roots, d, r, v, k);
      }
    }
  }

  // The slots record exactly the depths in d.
  ghost predicate Recorded(slots: array<Option<nat>>, d: Depths)
    reads slots
  {
    && (forall v | v in d :: v < slots.Length)
    && forall v: nat | v < slots.Length :: slots[v] == if v in d then Some(d[v]) else None
  }

  ghost function Undiscovered(n: nat, d: Depths): nat {
    |Below(n) - d.Keys|
  }

  lemma UndiscoveredShrinks(n: nat, d: Depths, v: nat, k: nat)
    requires v < n && v !in d
    ensures Undiscovered(n, d[v := k]) < Undiscovered(n, d)
  {
    hide Below;
    var before, after := Below(n) - d.Keys, Below(n) - d[v := k].Keys;
    assert v in before;
    assert d[v := k].Keys == d.Keys + {v};
    assert after == before - {v};
  }

  lemma BfsFacts(g: Graph, roots: set<nat>, d: Depths, queue: seq<nat>)
    requires |queue| > 0 && BfsInvariant(g, roots, d, queue)
    ensures queue[0] in d && queue[0] < |g| && d[queue[0]] < |g|
  {
    DepthsBelowNodeCount(g, roots, d, queue[0]);
  }

  /** The queue loop: on return the slots hold the nearest-root distance of every reachable node. */
  method Search(outgoing: Graph, ghost roots: set<nat>, slots: array<Option<nat>>, start: seq<nat>, ghost seeded: Depths)
      returns (r: Result<(), GraphError>, ghost d: Depths)
    requires WellFormed(outgoing) && slots.Length == |outgoing|
    requires BfsInvariant(outgoing, roots, seeded, start) && Recorded(slots, seeded)
    modifies slots
    ensures r.Ok? ==> BfsInvariant(outgoing, roots, d, []) && Recorded(slots, d)
    ensures r.Err? ==> r.error == DepthExceedsI32 && |outgoing| > I32_MAX
  {
    hide BfsInvariant, Expanding, WellFormed, Undiscovered;
    var queue := start;
    d := seeded;
    while |queue| > 0
      invariant BfsInvariant(outgoing, roots, d, queue) && Recorded(slots, d)
      decreases Undiscovered(|outgoing|, d), |queue|
    {
      BfsFacts(outgoing, roots, d, queue);
      DequeueStarts(outgoing, roots, d, queue);
      var node := queue[0];
      queue := queue[1..];
      var depth := slots[node].value;
      if depth == I32_MAX {
        return Err(DepthExceedsI32), d;
      }
      var nextDepth := depth + 1;
      ghost var open, length := Undiscovered(|outgoing|, d), |queue|;
      for k := 0 to |outgoing[node]|
        invariant Expanding(outgoing, roots, d, queue, node, k) && Recorded(slots, d)
        invariant node in d && d[node] == depth
        invariant Undiscovered(|outgoing|, d) < open || (Undiscovered(|outgoing|, d) == open && |queue| == length)
      {
        var neighbor := outgoing[node][k];
        TargetInRange(outgoing, node, k);
        if slots[neighbor].None? {
          slots[neighbor] := Some(nextDepth);
          NeighborEnqueued(outgoing, roots, d, queue, node, k);
          UndiscoveredShrinks(|outgoing|, d, neighbor, nextDepth);
          d := d[neighbor := nextDepth];
          queue := queue + [neighbor];
        } else {
          NeighborFound(outgoing, roots, d, queue, node, k);
        }
      }
      DequeueEnds(outgoing, roots, d, queue, node);
    }
    assert queue == [];
    return Ok(()), d;
  }
}
