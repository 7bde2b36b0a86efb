/** Finite directed graphs as adjacency lists, and the notions every result about
    the dependency graph is stated in: walks, reachability and strong components. */
module Digraph {

  // g[u] lists the targets of u's outgoing edges; parallel edges and loops are allowed.
  type Graph = seq<seq<nat>>

  ghost predicate WellFormed(g: Graph) {
    forall u, k | 0 <= u < |g| && 0 <= k < |g[u]| :: g[u][k] < |g|
  }

  lemma TargetInRange(g: Graph, u: nat, k: nat)
    requires WellFormed(g) && u < |g| && k < |g[u]|
    ensures g[u][k] < |g|
  {
  }

  predicate Edge(g: Graph, u: nat, v: nat) {
    u < |g| && v in g[u]
  }

  /** `back` lists for every node the sources of its incoming edges. */
  ghost predicate Transposed(g: Graph, back: Graph) {
    && |back| == |g|
    && forall u: nat, v: nat :: Edge(g, u, v) <==> Edge(back, v, u)
  }

  lemma SameSize(g: Graph, back: Graph)
    requires Transposed(g, back)
    ensures |back| == |g|
  {
  }

  /** There is a walk of exactly `k` edges from `u` to `v`. */
  ghost predicate Walk(g: Graph, u: nat, v: nat, k: nat)
    decreases k
  {
    if k == 0 then u == v && u < |g|
    else exists w: nat :: Walk(g, u, w, k - 1) && Edge(g, w, v)
  }

  ghost predicate Reaches(g: Graph, u: nat, v: nat) {
    exists k: nat :: Walk(g, u, v, k)
  }

  ghost predicate Linked(g: Graph, u: nat, v: nat) {
    Reaches(g, u, v) && Reaches(g, v, u)
  }

  /** The strong component of `u`. */
  ghost function Component(g: Graph, u: nat): set<nat> {
    set v: nat | v < |g| && Linked(g, u, v)
  }

  /** `u` lies on a closed walk with at least one edge. */
  ghost predicate OnCycle(g: Graph, u: nat) {
    exists k: nat :: k > 0 && Walk(g, u, u, k)
  }

  ghost predicate Acyclic(g: Graph) {
    forall u: nat :: !OnCycle(g, u)
  }

  /** The strong components that contain a cycle. */
  ghost function CyclicComponents(g: Graph): set<set<nat>> {
    set u: nat | u < |g| && OnCycle(g, u) :: Component(g, u)
  }

  lemma {:induction false} WalkStays(g: Graph, u: nat, v: nat, k: nat)
    requires WellFormed(g) && Walk(g, u, v, k)
    ensures u < |g| && v < |g|
    decreases k
  {
    if k > 0 {
      var w: nat :| Walk(g, u, w, k - 1) && Edge(g, w, v);
      WalkStays(g, u, w, k - 1);
      var i :| 0 <= i < |g[w]| && g[w][i] == v;
    }
  }

  lemma {:induction false} WalkConcat(g: Graph, u: nat, v: nat, w: nat, j: nat, k: nat)
    requires Walk(g, u, v, j) && Walk(g, v, w, k)
    ensures Walk(g, u, w, j + k)
    decreases k
  {
    if k > 0 {
      var x: nat :| Walk(g, v, x, k - 1) && Edge(g, x, w);
      WalkConcat(g, u, v, x, j, k - 1);
    }
  }

  lemma ReachesSelf(g: Graph, u: nat)
    requires u < |g|
    ensures Reaches(g, u, u)
  {
    assert Walk(g, u, u, 0);
  }

  lemma ReachesStep(g: Graph, u: nat, v: nat, w: nat)
    requires Reaches(g, u, v) && Edge(g, v, w)
    ensures Reaches(g, u, w)
  {
    var k: nat :| Walk(g, u, v, k);
    assert Walk(g, u, w, k + 1);
  }

  lemma ReachesTrans(g: Graph, u: nat, v: nat, w: nat)
    requires Reaches(g, u, v) && Reaches(g, v, w)
    ensures Reaches(g, u, w)
  {
    var j: nat :| Walk(g, u, v, j);
    var k: nat :| Walk(g, v, w, k);
    WalkConcat(g, u, v, w, j, k);
  }

  /** A set that contains `u` and every edge target of its members contains all `u` reaches. */
  lemma {:induction false} ClosedContains(g: Graph, c: set<nat>, u: nat, v: nat, k: nat)
    requires u in c && Walk(g, u, v, k)
    requires forall x: nat, y: nat | x in c && Edge(g, x, y) :: y in c
    ensures v in c
    decreases k
  {
    if k > 0 {
      var w: nat :| Walk(g, u, w, k - 1) && Edge(g, w, v);
      ClosedContains(g, c, u, w, k - 1);
    }
  }

  lemma ComponentsAgree(g: Graph, u: nat, v: nat)
    requires WellFormed(g) && Linked(g, u, v)
    ensures Component(g, u) == Component(g, v)
  {
    forall w: nat | w < |g| ensures Linked(g, u, w) <==> Linked(g, v, w) {
      if Linked(g, u, w) { ReachesTrans(g, v, u, w); ReachesTrans(g, w, u, v); }
      if Linked(g, v, w) { ReachesTrans(g, u, v, w); ReachesTrans(g, w, v, u); }
    }
  }

  /** A node is on a cycle exactly when it has a loop or a second node in its component. */
  lemma OnCycleIff(g: Graph, u: nat)
    requires WellFormed(g) && u < |g|
    ensures OnCycle(g, u) <==> Edge(g, u, u) || exists v: nat :: v != u && Linked(g, u, v)
  {
    if OnCycle(g, u) {
      var k: nat :| k > 0 && Walk(g, u, u, k);
      var w: nat :| Walk(g, u, w, k - 1) && Edge(g, w, u);
      assert Walk(g, w, w, 0);
      assert Walk(g, w, u, 1) by { assert Walk(g, w, w, 1 - 1) && Edge(g, w, u); }
      assert Linked(g, u, w);
    }
    if Edge(g, u, u) {
      assert Walk(g, u, u, 0);
      assert Walk(g, u, u, 1) by { assert Walk(g, u, u, 1 - 1) && Edge(g, u, u); }
    }
    if v: nat :| v != u && Linked(g, u, v) {
      var j: nat :| Walk(g, u, v, j);
      var k: nat :| Walk(g, v, u, k);
      WalkConcat(g, u, v, u, j, k);
      assert j + k > 0;
    }
  }

  lemma OnCycleIsLarge(g: Graph, x: nat)
    requires WellFormed(g) && x < |g| && OnCycle(g, x)
    ensures x in Component(g, x) && (Edge(g, x, x) || |Component(g, x)| > 1)
  {
    ReachesSelf(g, x);
    OnCycleIff(g, x);
    if !Edge(g, x, x) {
      var v: nat :| v != x && Linked(g, x, v);
      var k: nat :| Walk(g, x, v, k);
      WalkStays(g, x, v, k);
      hide Walk, OnCycle;
      assert {x, v} <= Component(g, x);
      SubsetSize({x, v}, Component(g, x));
    }
  }

  /** A component is cyclic exactly when its size or a loop on one of its nodes says so. */
  lemma CyclicBySizeOrLoop(g: Graph, u: nat)
    requires WellFormed(g) && u < |g|
    ensures u in Component(g, u)
    ensures Component(g, u) in CyclicComponents(g) <==>
      |Component(g, u)| > 1 || exists v: nat :: v in Component(g, u) && Edge(g, v, v)
  {
    var c := Component(g, u);
    ReachesSelf(g, u);
    if |c| > 1 {
      assert c == {u} + (c - {u});
      var v :| v in c - {u};
      OnCycleIff(g, u);
    }
    if v: nat :| v in c && Edge(g, v, v) {
      OnCycleIff(g, v);
      ComponentsAgree(g, u, v);
    }
    if c in CyclicComponents(g) {
      var x: nat :| x < |g| && OnCycle(g, x) && c == Component(g, x);
      OnCycleIsLarge(g, x);
    }
  }

  /** The numbers below n. */
  ghost function Below(n: nat): (s: set<nat>)
    ensures |s| == n
    ensures forall x: nat :: x in s <==> x < n
  {
    if n == 0 then {} else Below(n - 1) + {n - 1}
  }

  lemma SubsetSize<T>(a: set<T>, b: set<T>)
    requires a <= b
    ensures |a| <= |b|
  {
    assert |b - a| + |a| == |b| by { assert b == (b - a) + a; }
  }

  /** No component is cyclic exactly when the graph is acyclic. */
  lemma NoCyclicComponentIffAcyclic(g: Graph)
    requires WellFormed(g)
    ensures |CyclicComponents(g)| == 0 <==> Acyclic(g)
  {
    if Acyclic(g) {
      assert CyclicComponents(g) == {};
    } else {
      var u: nat :| OnCycle(g, u);
      var k: nat :| k > 0 && Walk(g, u, u, k);
      WalkStays(g, u, u, k);
      assert Component(g, u) in CyclicComponents(g);
    }
  }

  /** There are at most as many cyclic components as nodes. */
  lemma CyclicComponentsBounded(g: Graph)
    ensures |CyclicComponents(g)| <= |g|
  {
    CyclicComponentsBelow(g, |g|);
    assert CyclicComponents(g) == set u: nat | u < |g| && OnCycle(g, u) :: Component(g, u);
  }

  lemma {:induction false} CyclicComponentsBelow(g: Graph, n: nat)
    requires n <= |g|
    ensures |set u: nat | u < n && OnCycle(g, u) :: Component(g, u)| <= n
  {
    if n > 0 {
      CyclicComponentsBelow(g, n - 1);
      var below := set u: nat | u < n - 1 && OnCycle(g, u) :: Component(g, u);
      var here := set u: nat | u < n && OnCycle(g, u) :: Component(g, u);
      if OnCycle(g, n - 1) {
        assert here == below + {Component(g, n - 1)};
      } else {
        assert here == below;
      }
    } else {
      assert (set u: nat | u < n && OnCycle(g, u) :: Component(g, u)) == {};
    }
  }
}
