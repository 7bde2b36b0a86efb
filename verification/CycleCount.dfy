/** The two-pass count of cyclic strong components (`count_cyclic_components`). */
module CycleCount {
  import opened Digraph
  import opened GraphPolicy
  import opened Wrappers

  // ---------- First pass: an iterative depth-first search with explicit cursors ----------

  // A stack frame is a node and the position of its next unread outgoing edge.
  type Frame = (nat, nat)

  ghost predicate OnStack(stack: seq<Frame>, v: nat) {
    exists i :: 0 <= i < |stack| && stack[i].0 == v
  }

  // Open nodes are the finish positions after i together with the stack.
  ghost predicate OpenAfter(finished: seq<nat>, stack: seq<Frame>, i: nat, w: nat)
    requires i < |finished|
  {
    w in finished[i + 1..] || OnStack(stack, w)
  }

  // finished[i] is not the last node of its component to finish.
  ghost predicate Outlived(g: Graph, finished: seq<nat>, stack: seq<Frame>, i: nat)
    requires i < |finished|
  {
    exists w: nat :: OpenAfter(finished, stack, i, w) && Linked(g, finished[i], w)
  }

  // Everything the i-th finisher reaches finished no later, unless its component is still open.
  ghost predicate SettledAt(g: Graph, finished: seq<nat>, stack: seq<Frame>, i: nat)
    requires i < |finished|
  {
    Outlived(g, finished, stack, i) ||
    forall v: nat | Reaches(g, finished[i], v) :: v in finished[..i + 1]
  }

  ghost predicate Distinct(s: seq<nat>) {
    forall i, j | 0 <= i < j < |s| :: s[i] != s[j]
  }

  // Visited nodes are the finished and the stacked ones, each once.
  ghost predicate Partitioned(g: Graph, visited: set<nat>, stack: seq<Frame>, finished: seq<nat>) {
    && (forall v | v in visited :: v < |g|)
    && (forall v: nat :: v in visited <==> v in finished || OnStack(stack, v))
    && Distinct(finished)
    && (forall i, j | 0 <= i < j < |stack| :: stack[i].0 != stack[j].0)
    && (forall i | 0 <= i < |stack| :: stack[i].0 !in finished)
  }

  ghost predicate FrameRead(g: Graph, visited: set<nat>, f: Frame) {
    && f.0 < |g| && f.1 <= |g[f.0]|
    && forall k | 0 <= k < f.1 :: g[f.0][k] in visited
  }

  ghost predicate DfsInvariant(g: Graph, visited: set<nat>, stack: seq<Frame>, finished: seq<nat>) {
    && Partitioned(g, visited, stack, finished)
    && (forall v: nat, w: nat | v in finished && Edge(g, v, w) :: w in visited)
    && (forall i | 0 <= i < |stack| :: FrameRead(g, visited, stack[i]))
    && (forall i, j | 0 <= i <= j < |stack| :: Reaches(g, stack[i].0, stack[j].0))
    && (forall i: nat | i < |finished| :: SettledAt(g, finished, stack, i))
  }

  lemma StackTop(stack: seq<Frame>, v: nat)
    requires |stack| > 0
    ensures OnStack(stack, v) <==> OnStack(stack[..|stack| - 1], v) || v == stack[|stack| - 1].0
  {
    var below := stack[..|stack| - 1];
    if i :| 0 <= i < |stack| && stack[i].0 == v && i < |below| { assert below[i].0 == v; }
    if i :| 0 <= i < |below| && below[i].0 == v { assert stack[i].0 == v; }
  }

  // Settlement survives any change of stack that keeps the stacked nodes stacked.
  lemma SettledStays(g: Graph, finished: seq<nat>, stack: seq<Frame>, stack': seq<Frame>)
    requires forall i: nat | i < |finished| :: SettledAt(g, finished, stack, i)
    requires forall v: nat | OnStack(stack, v) :: OnStack(stack', v)
    ensures forall i: nat | i < |finished| :: SettledAt(g, finished, stack', i)
  {
    forall i: nat | i < |finished| ensures SettledAt(g, finished, stack', i) {
      assert SettledAt(g, finished, stack, i);
      if Outlived(g, finished, stack, i) {
        var w: nat :| OpenAfter(finished, stack, i, w) && Linked(g, finished[i], w);
        assert OpenAfter(finished, stack', i, w);
      }
    }
  }

  lemma PushKeeps(g: Graph, visited: set<nat>, stack: seq<Frame>, finished: seq<nat>, v: nat)
    requires WellFormed(g) && DfsInvariant(g, visited, stack, finished)
    requires v < |g| && v !in visited
    requires |stack| > 0 ==> Edge(g, stack[|stack| - 1].0, v)
    ensures DfsInvariant(g, visited + {v}, stack + [(v, 0)], finished)
  {
    var stack' := stack + [(v, 0)];
    forall w: nat ensures OnStack(stack', w) <==> OnStack(stack, w) || w == v {
      if OnStack(stack, w) {
        var i :| 0 <= i < |stack| && stack[i].0 == w;
        assert stack'[i].0 == w;
      }
      assert stack'[|stack|].0 == v;
    }
    assert Partitioned(g, visited + {v}, stack', finished) by {
      forall i | 0 <= i < |stack| ensures stack[i].0 != v {
        assert OnStack(stack, stack[i].0);
      }
    }
    forall i, j | 0 <= i <= j < |stack'| ensures Reaches(g, stack'[i].0, stack'[j].0) {
      if j == |stack| {
        ReachesSelf(g, v);
        if i < j { ReachesStep(g, stack[i].0, stack[|stack| - 1].0, v); }
      }
    }
    SettledStays(g, finished, stack, stack');
  }

  // The stack after frame i has read one more edge.
  function Advanced(stack: seq<Frame>, i: nat): seq<Frame>
    requires i < |stack|
  {
    stack[i := (stack[i].0, stack[i].1 + 1)]
  }

  lemma AdvanceKeeps(g: Graph, visited: set<nat>, stack: seq<Frame>, finished: seq<nat>, i: nat)
    requires WellFormed(g) && DfsInvariant(g, visited, stack, finished) && i < |stack|
    requires stack[i].1 < |g[stack[i].0]| && g[stack[i].0][stack[i].1] in visited
    ensures DfsInvariant(g, visited, Advanced(stack, i), finished)
  {
    var stack' := Advanced(stack, i);
    forall w: nat ensures OnStack(stack', w) <==> OnStack(stack, w) {
      if j :| 0 <= j < |stack| && stack[j].0 == w { assert stack'[j].0 == w; }
    }
    SettledStays(g, finished, stack, stack');
  }

  // With all its edges read, x closes: either its component is still open, or all it reaches is done.
  lemma PopSettles(g: Graph, visited: set<nat>, stack: seq<Frame>, finished: seq<nat>)
    requires WellFormed(g) && DfsInvariant(g, visited, stack, finished) && |stack| > 0
    requires stack[|stack| - 1].1 == |g[stack[|stack| - 1].0]|
    ensures SettledAt(g, finished + [stack[|stack| - 1].0], stack[..|stack| - 1], |finished|)
  {
    var x, below := stack[|stack| - 1].0, stack[..|stack| - 1];
    var finished' := finished + [x];
    if w: nat :| OnStack(below, w) && Reaches(g, x, w) {
      var i :| 0 <= i < |below| && below[i].0 == w;
      assert stack[i].0 == w;
      assert OpenAfter(finished', below, |finished|, w) && Linked(g, x, w);
    } else {
      var c := set v: nat | v in visited && Reaches(g, x, v);
      ReachesSelf(g, x);
      assert OnStack(stack, x);
      forall y: nat, z: nat | y in c && Edge(g, y, z) ensures z in c {
        ReachesStep(g, x, y, z);
        if y !in finished {
          StackTop(stack, y);
          var k :| 0 <= k < |g[x]| && g[x][k] == z;
          assert FrameRead(g, visited, stack[|stack| - 1]);
        }
      }
      forall v: nat | Reaches(g, x, v) ensures v in finished'[..|finished| + 1] {
        var k: nat :| Walk(g, x, v, k);
        ClosedContains(g, c, x, v, k);
        if v !in finished {
          StackTop(stack, v);
          assert finished'[|finished|] == v;
        } else {
          var i :| 0 <= i < |finished| && finished[i] == v;
          assert finished'[i] == v;
        }
      }
    }
  }

  lemma PopKeeps(g: Graph, visited: set<nat>, stack: seq<Frame>, finished: seq<nat>)
    requires WellFormed(g) && DfsInvariant(g, visited, stack, finished) && |stack| > 0
    requires stack[|stack| - 1].1 == |g[stack[|stack| - 1].0]|
    ensures DfsInvariant(g, visited, stack[..|stack| - 1], finished + [stack[|stack| - 1].0])
  {
    var x, below := stack[|stack| - 1].0, stack[..|stack| - 1];
    var finished' := finished + [x];
    forall w: nat ensures OnStack(stack, w) <==> OnStack(below, w) || w == x {
      StackTop(stack, w);
    }
    forall v: nat, w: nat | v in finished' && Edge(g, v, w) ensures w in visited {
      if v !in finished {
        var k :| 0 <= k < |g[x]| && g[x][k] == w;
        assert FrameRead(g, visited, stack[|stack| - 1]);
      }
    }
    PopSettles(g, visited, stack, finished);
    forall i: nat | i < |finished'| ensures SettledAt(g, finished', below, i) {
      if i < |finished| {
        SettledAfterPop(g, finished, stack, i);
      }
    }
  }

  lemma SettledAfterPop(g: Graph, finished: seq<nat>, stack: seq<Frame>, i: nat)
    requires |stack| > 0 && i < |finished| && SettledAt(g, finished, stack, i)
    ensures SettledAt(g, finished + [stack[|stack| - 1].0], stack[..|stack| - 1], i)
  {
    var x, below := stack[|stack| - 1].0, stack[..|stack| - 1];
    var finished' := finished + [x];
    assert finished'[..i + 1] == finished[..i + 1];
    assert finished'[i + 1..] == finished[i + 1..] + [x];
    if Outlived(g, finished, stack, i) {
      var w: nat :| OpenAfter(finished, stack, i, w) && Linked(g, finished[i], w);
      StackTop(stack, w);
      assert OpenAfter(finished', below, i, w);
    }
  }

  // The flag array holds exactly the members of s.
  ghost predicate Marks(flags: array<bool>, s: set<nat>)
    reads flags
  {
    && (forall v | v in s :: v < flags.Length)
    && forall v: nat | v < flags.Length :: flags[v] <==> v in s
  }

  // What the second pass needs of the first: every node once, in a settled order.
  ghost predicate FinishOrderOf(g: Graph, finished: seq<nat>) {
    && Distinct(finished)
    && (forall v: nat :: v in finished <==> v < |g|)
    && forall i: nat | i < |finished| :: SettledAt(g, finished, [], i)
  }

  ghost function Unvisited(n: nat, visited: set<nat>): nat {
    |Below(n) - visited|
  }

  lemma UnvisitedShrinks(n: nat, visited: set<nat>, v: nat)
    requires v < n && v !in visited
    ensures Unvisited(n, visited + {v}) < Unvisited(n, visited)
  {
    assert Below(n) - (visited + {v}) == (Below(n) - visited) - {v};
  }

  lemma TopFrame(g: Graph, visited: set<nat>, stack: seq<Frame>, finished: seq<nat>)
    requires WellFormed(g) && DfsInvariant(g, visited, stack, finished)
    ensures forall v | v in visited :: v < |g|
    ensures |stack| > 0 ==> stack[|stack| - 1].0 < |g| && stack[|stack| - 1].1 <= |g[stack[|stack| - 1].0]|
  {
    if |stack| > 0 { assert FrameRead(g, visited, stack[|stack| - 1]); }
  }

  lemma NothingVisited(g: Graph)
    ensures DfsInvariant(g, {}, [], [])
  {
  }

  lemma AllFinished(g: Graph, visited: set<nat>, finished: seq<nat>)
    requires DfsInvariant(g, visited, [], finished) && forall v: nat | v < |g| :: v in visited
    ensures FinishOrderOf(g, finished)
  {
  }

  method FinishOrder(outgoing: Graph) returns (finished: seq<nat>)
    requires WellFormed(outgoing)
    ensures FinishOrderOf(outgoing, finished)
  {
    hide DfsInvariant, FinishOrderOf, WellFormed, Unvisited;
    var n := |outgoing|;
    var visited := new bool[n](_ => false);
    ghost var seen: set<nat> := {};
    finished := [];
    NothingVisited(outgoing);
    for start := 0 to n
      invariant Marks(visited, seen)
      invariant DfsInvariant(outgoing, seen, [], finished)
      invariant forall v: nat | v < start :: v in seen
    {
      if visited[start] {
        continue;
      }
      visited[start] := true;
      TopFrame(outgoing, seen, [], finished);
      var stack: seq<Frame> := [(start, 0)];
      PushKeeps(outgoing, seen, [], finished, start);
      assert [] + [(start, 0)] == stack;
      seen := seen + {start};
      while |stack| > 0
        invariant Marks(visited, seen)
        invariant DfsInvariant(outgoing, seen, stack, finished)
        invariant forall v: nat | v <= start :: v in seen
        invariant forall i | 0 <= i < |stack| :: stack[i].0 < n
        decreases Unvisited(n, seen), |stack|, if |stack| > 0 then |outgoing[stack[|stack| - 1].0]| - stack[|stack| - 1].1 else 0
      {
        var top := |stack| - 1;
        var node, next := stack[top].0, stack[top].1;
        TopFrame(outgoing, seen, stack, finished);
        if next < |outgoing[node]| {
          var neighbor := outgoing[node][next];
          TargetInRange(outgoing, node, next);
          var before := stack;
          stack := stack[top := (node, next + 1)];
          if !visited[neighbor] {
            visited[neighbor] := true;
            PushKeeps(outgoing, seen, before, finished, neighbor);
            AdvanceKeeps(outgoing, seen + {neighbor}, before + [(neighbor, 0)], finished, top);
            assert Advanced(before + [(neighbor, 0)], top) == stack + [(neighbor, 0)];
            UnvisitedShrinks(n, seen, neighbor);
            stack := stack + [(neighbor, 0)];
            seen := seen + {neighbor};
          } else {
            AdvanceKeeps(outgoing, seen, before, finished, top);
          }
        } else {
          PopKeeps(outgoing, seen, stack, finished);
          stack := stack[..top];
          finished := finished + [node];
        }
      }
    }
    AllFinished(outgoing, seen, finished);
  }

  // ---------- Second pass: backward searches in reverse finish order ----------

  // Every edge into the set starts in the set.
  ghost predicate BackClosed(g: Graph, s: set<nat>) {
    forall x: nat, y: nat | Edge(g, x, y) && y in s :: x in s
  }

  lemma {:induction false} BackClosedWalk(g: Graph, s: set<nat>, u: nat, v: nat, k: nat)
    requires BackClosed(g, s) && Walk(g, u, v, k) && v in s
    ensures u in s
    decreases k
  {
    if k > 0 {
      var w: nat :| Walk(g, u, w, k - 1) && Edge(g, w, v);
      BackClosedWalk(g, s, u, w, k - 1);
    }
  }

  lemma BackClosedReaches(g: Graph, s: set<nat>, u: nat, v: nat)
    requires BackClosed(g, s) && Reaches(g, u, v) && v in s
    ensures u in s
  {
    var k: nat :| Walk(g, u, v, k);
    BackClosedWalk(g, s, u, v, k);
  }

  // The last node of finished[j]'s component to finish.
  lemma {:induction false} LastOfComponent(g: Graph, finished: seq<nat>, j: nat) returns (m: nat)
    requires WellFormed(g) && j < |finished| && finished[j] < |g|
    requires forall i | 0 <= i < |finished| :: finished[i] < |g|
    ensures j <= m < |finished| && Linked(g, finished[j], finished[m])
    ensures !Outlived(g, finished, [], m)
    decreases |finished| - j
  {
    ReachesSelf(g, finished[j]);
    if !Outlived(g, finished, [], j) {
      return j;
    }
    var w: nat :| OpenAfter(finished, [], j, w) && Linked(g, finished[j], w);
    var i :| 0 <= i < |finished[j + 1..]| && finished[j + 1..][i] == w;
    assert finished[j + 1 + i] == w;
    m := LastOfComponent(g, finished, j + 1 + i);
    ReachesTrans(g, finished[j], w, finished[m]);
    ReachesTrans(g, finished[m], w, finished[j]);
  }

  /** The heart of the two-pass count: when all later finishers are done, whatever still
      unassigned reaches finished[i] lies in finished[i]'s own component. */
  lemma UnassignedPredecessorsAreLinked(g: Graph, finished: seq<nat>, i: nat, done: set<nat>, u: nat)
    requires WellFormed(g) && FinishOrderOf(g, finished) && i < |finished|
    requires BackClosed(g, done)
    requires forall j | i < j < |finished| :: finished[j] in done
    requires u < |g| && u !in done && Reaches(g, u, finished[i])
    ensures Linked(g, u, finished[i])
  {
    assert u in finished;
    var j :| 0 <= j < |finished| && finished[j] == u;
    assert forall k | 0 <= k < |finished| :: finished[k] in finished;
    var m := LastOfComponent(g, finished, j);
    assert SettledAt(g, finished, [], m);
    ReachesTrans(g, finished[m], u, finished[i]);
    assert finished[i] in finished[..m + 1];
    var k :| 0 <= k < m + 1 && finished[..m + 1][k] == finished[i];
    assert k == i;
    if m > i {
      BackClosedReaches(g, done, u, finished[m]);
    }
  }

  // What the backward search from s has found when it ends.
  lemma SearchFindsComponent(g: Graph, finished: seq<nat>, i: nat, done: set<nat>, found: set<nat>)
    requires WellFormed(g) && FinishOrderOf(g, finished) && i < |finished|
    requires BackClosed(g, done) && finished[i] !in done
    requires forall j | i < j < |finished| :: finished[j] in done
    requires finished[i] in found && found !! done
    requires forall u | u in found :: u < |g| && Reaches(g, u, finished[i])
    requires BackClosed(g, done + found)
    ensures found == Component(g, finished[i])
  {
    var s := finished[i];
    forall u: nat ensures u in found <==> u in Component(g, s) {
      if u in found {
        UnassignedPredecessorsAreLinked(g, finished, i, done, u);
      }
      if u in Component(g, s) {
        BackClosedReaches(g, done + found, u, s);
        if u in done {
          BackClosedReaches(g, done, s, u);
        }
      }
    }
  }

  // The cyclic components that lie inside s.
  ghost function CyclicWithin(g: Graph, s: set<nat>): set<set<nat>> {
    set c | c in CyclicComponents(g) && c <= s
  }

  lemma CyclicWithinGrows(g: Graph, done: set<nat>, s: nat)
    requires WellFormed(g) && s < |g| && s !in done && BackClosed(g, done)
    ensures |CyclicWithin(g, done + Component(g, s))| ==
      |CyclicWithin(g, done)| + if Component(g, s) in CyclicComponents(g) then 1 else 0
  {
    var c := Component(g, s);
    ReachesSelf(g, s);
    forall d | d in CyclicComponents(g) && d <= done + c ensures d <= done || d == c {
      var x: nat :| x < |g| && OnCycle(g, x) && d == Component(g, x);
      ReachesSelf(g, x);
      if x in c {
        ComponentsAgree(g, s, x);
      } else {
        assert x in d;
        forall y | y in d ensures y in done {
          BackClosedReaches(g, done, y, x);
        }
      }
    }
    var before, after := CyclicWithin(g, done), CyclicWithin(g, done + c);
    assert s in c && c !in before;
    hide WellFormed, Walk, OnCycle;
    if c in CyclicComponents(g) {
      assert after == before + {c};
    } else {
      assert after == before;
    }
  }

  lemma CyclicWithinBounded(g: Graph, s: set<nat>)
    ensures |CyclicWithin(g, s)| <= |CyclicComponents(g)|
  {
    SubsetSize(CyclicWithin(g, s), CyclicComponents(g));
  }

  /** State of the backward search from s: `found` holds every node pushed so far, `popped` those
      taken off the stack again, `closed` those whose incoming edges have all been read. */
  ghost predicate Searching(g: Graph, s: nat, done: set<nat>, found: set<nat>, popped: set<nat>,
                            closed: set<nat>, stack: seq<nat>)
  {
    && s in found && found !! done
    && (forall u | u in found :: u < |g| && Reaches(g, u, s))
    && closed <= popped <= found
    && (forall x: nat, y: nat | Edge(g, x, y) && y in closed :: x in done + found)
    && (forall u: nat :: u in found <==> u in popped || u in stack)
    && Distinct(stack)
    && forall i | 0 <= i < |stack| :: stack[i] !in popped
  }

  lemma SearchStarts(g: Graph, s: nat, done: set<nat>)
    requires s < |g| && s !in done
    ensures Searching(g, s, done, {s}, {}, {}, [s])
  {
    ReachesSelf(g, s);
  }

  lemma SearchPops(g: Graph, s: nat, done: set<nat>, found: set<nat>, popped: set<nat>, stack: seq<nat>)
    requires |stack| > 0 && Searching(g, s, done, found, popped, popped, stack)
    ensures stack[|stack| - 1] in found && stack[|stack| - 1] !in popped && stack[|stack| - 1] < |g|
    ensures Searching(g, s, done, found, popped + {stack[|stack| - 1]}, popped, stack[..|stack| - 1])
  {
    var top := |stack| - 1;
    assert stack[top] in stack;
    forall u: nat ensures u in stack <==> u in stack[..top] || u == stack[top] {
      if u in stack {
        var i :| 0 <= i < |stack| && stack[i] == u;
        assert i < top ==> stack[..top][i] == u;
      }
    }
  }

  lemma SearchPushes(g: Graph, s: nat, done: set<nat>, found: set<nat>, popped: set<nat>, closed: set<nat>,
                     stack: seq<nat>, node: nat, v: nat)
    requires Searching(g, s, done, found, popped, closed, stack)
    requires node in found && v < |g| && Edge(g, v, node) && v !in done + found
    ensures Searching(g, s, done, found + {v}, popped, closed, stack + [v])
  {
    assert Walk(g, v, v, 0);
    assert Walk(g, v, node, 1) by { assert Walk(g, v, v, 1 - 1) && Edge(g, v, node); }
    ReachesTrans(g, v, node, s);
  }

  lemma SearchCloses(g: Graph, s: nat, done: set<nat>, found: set<nat>, popped: set<nat>, stack: seq<nat>, node: nat)
    requires node in popped && Searching(g, s, done, found, popped, popped - {node}, stack)
    requires forall x: nat | Edge(g, x, node) :: x in done + found
    ensures Searching(g, s, done, found, popped, popped, stack)
  {
  }

  lemma SearchExhausted(g: Graph, s: nat, done: set<nat>, found: set<nat>, popped: set<nat>, stack: seq<nat>)
    requires Searching(g, s, done, found, popped, popped, stack) && |stack| == 0
    ensures found == popped && stack == []
  {
  }

  lemma SearchEnds(g: Graph, finished: seq<nat>, i: nat, done: set<nat>, found: set<nat>)
    requires WellFormed(g) && FinishOrderOf(g, finished) && i < |finished| && BackClosed(g, done)
    requires forall j | i < j < |finished| :: finished[j] in done
    requires Searching(g, finished[i], done, found, found, found, [])
    ensures found == Component(g, finished[i]) && finished[i] in found
    ensures BackClosed(g, done + found)
  {
    SearchFindsComponent(g, finished, i, done, found);
  }

  // The incoming edges of `node` up to position k start in a recorded node.
  ghost predicate SourcesIn(incoming: Graph, node: nat, k: nat, s: set<nat>)
    requires node < |incoming| && k <= |incoming[node]|
  {
    forall j | 0 <= j < k :: incoming[node][j] in s
  }

  lemma SourceSeen(incoming: Graph, node: nat, k: nat, s: set<nat>, t: set<nat>)
    requires node < |incoming| && k < |incoming[node]| && SourcesIn(incoming, node, k, s)
    requires s <= t && incoming[node][k] in t
    ensures SourcesIn(incoming, node, k + 1, t)
  {
  }

  lemma NoSourceYet(incoming: Graph, node: nat, s: set<nat>)
    requires node < |incoming|
    ensures SourcesIn(incoming, node, 0, s)
  {
  }

  lemma AllSourcesIn(g: Graph, incoming: Graph, node: nat, s: set<nat>)
    requires Transposed(g, incoming) && node < |g|
    requires SourcesIn(incoming, node, |incoming[node]|, s)
    ensures forall x: nat | Edge(g, x, node) :: x in s
  {
    forall x: nat | Edge(g, x, node) ensures x in s {
      assert Edge(incoming, node, x);
      var j :| 0 <= j < |incoming[node]| && incoming[node][j] == x;
    }
  }

  lemma SourceIsEdge(g: Graph, incoming: Graph, node: nat, k: nat)
    requires WellFormed(g) && Transposed(g, incoming) && node < |incoming| && k < |incoming[node]|
    ensures incoming[node][k] < |g| && Edge(g, incoming[node][k], node)
  {
    assert Edge(incoming, node, incoming[node][k]);
  }

  // Push the sources of the popped node that no search has assigned yet.
  method PushSources(ghost g: Graph, incoming: Graph, isAssigned: array<bool>, node: nat, open: seq<nat>,
                     ghost start: nat, ghost done: set<nat>, ghost before: set<nat>, ghost popped: set<nat>)
      returns (stack: seq<nat>, ghost found: set<nat>)
    requires WellFormed(g) && Transposed(g, incoming) && node < |incoming| == |g| == isAssigned.Length
    requires Searching(g, start, done, before, popped, popped - {node}, open)
    requires Marks(isAssigned, done + before) && node in before
    modifies isAssigned
    ensures Searching(g, start, done, found, popped, popped - {node}, stack)
    ensures Marks(isAssigned, done + found) && node in found
    ensures SourcesIn(incoming, node, |incoming[node]|, done + found)
    ensures Unvisited(|incoming|, done + found) < Unvisited(|incoming|, done + before) ||
      (Unvisited(|incoming|, done + found) == Unvisited(|incoming|, done + before) && |stack| == |open|)
  {
    hide Searching, WellFormed, Transposed, Unvisited, SourcesIn, Edge;
    var n := |incoming|;
    stack, found := open, before;
    NoSourceYet(incoming, node, done + found);
    for k := 0 to |incoming[node]|
      invariant Searching(g, start, done, found, popped, popped - {node}, stack)
      invariant Marks(isAssigned, done + found) && node in found
      invariant SourcesIn(incoming, node, k, done + found)
      invariant Unvisited(n, done + found) < Unvisited(n, done + before) ||
        (Unvisited(n, done + found) == Unvisited(n, done + before) && |stack| == |open|)
    {
      var neighbor := incoming[node][k];
      SourceIsEdge(g, incoming, node, k);
      ghost var seen := done + found;
      if !isAssigned[neighbor] {
        isAssigned[neighbor] := true;
        SearchPushes(g, start, done, found, popped, popped - {node}, stack, node, neighbor);
        UnvisitedShrinks(n, done + found, neighbor);
        assert done + (found + {neighbor}) == done + found + {neighbor};
        stack := stack + [neighbor];
        found := found + {neighbor};
      }
      SourceSeen(incoming, node, k, seen, done + found);
    }
  }

  ghost predicate HasLoop(selfLoop: seq<bool>, s: set<nat>) {
    exists v: nat :: v in s && v < |selfLoop| && selfLoop[v]
  }

  lemma HasLoopGrows(selfLoop: seq<bool>, s: set<nat>, v: nat)
    requires v < |selfLoop|
    ensures HasLoop(selfLoop, s + {v}) <==> HasLoop(selfLoop, s) || selfLoop[v]
    ensures !HasLoop(selfLoop, {})
  {
  }

  /** One backward search: assigns exactly the unassigned nodes that reach `start`. */
  method AssignComponent(ghost g: Graph, incoming: Graph, selfLoop: seq<bool>, isAssigned: array<bool>,
                         start: nat, ghost done: set<nat>)
      returns (size: nat, hasSelfLoop: bool, ghost found: set<nat>)
    requires WellFormed(g) && Transposed(g, incoming) && |selfLoop| == |g|
    requires isAssigned.Length == |g| && start < |g| && start !in done && Marks(isAssigned, done + {start})
    modifies isAssigned
    ensures Searching(g, start, done, found, found, found, [])
    ensures Marks(isAssigned, done + found)
    ensures size == |found|
    ensures hasSelfLoop <==> HasLoop(selfLoop, found)
  {
    hide Searching, WellFormed, Transposed, Unvisited, SourcesIn, Edge, HasLoop, Marks;
    var n := |incoming|;
    SameSize(g, incoming);
    var stack := [start];
    size, hasSelfLoop := 0, false;
    found := {start};
    ghost var popped: set<nat> := {};
    SearchStarts(g, start, done);
    HasLoopGrows(selfLoop, {}, start);
    while |stack| > 0
      invariant Searching(g, start, done, found, popped, popped, stack)
      invariant Marks(isAssigned, done + found)
      invariant size == |popped|
      invariant hasSelfLoop <==> HasLoop(selfLoop, popped)
      decreases Unvisited(n, done + found), |stack|
    {
      SearchPops(g, start, done, found, popped, stack);
      var node := stack[|stack| - 1];
      stack := stack[..|stack| - 1];
      HasLoopGrows(selfLoop, popped, node);
      assert popped + {node} - {node} == popped;
      popped := popped + {node};
      size := size + 1;
      hasSelfLoop := hasSelfLoop || selfLoop[node];
      stack, found := PushSources(g, incoming, isAssigned, node, stack, start, done, found, popped);
      AllSourcesIn(g, incoming, node, done + found);
      SearchCloses(g, start, done, found, popped, stack, node);
    }
    SearchExhausted(g, start, done, found, popped, stack);
  }

  lemma CountStarts(g: Graph)
    ensures CyclicWithin(g, {}) == {} && BackClosed(g, {})
  {
    forall c | c in CyclicComponents(g) ensures c != {} {
      var u: nat :| u < |g| && OnCycle(g, u) && c == Component(g, u);
      ReachesSelf(g, u);
      assert u in c;
    }
  }

  lemma FinisherIsNode(g: Graph, finished: seq<nat>, i: nat)
    requires FinishOrderOf(g, finished) && i < |finished|
    ensures finished[i] < |g|
  {
    assert finished[i] in finished;
  }

  lemma CyclicAsFlagged(g: Graph, selfLoop: seq<bool>, u: nat)
    requires WellFormed(g) && u < |g| && |selfLoop| == |g|
    requires forall v: nat | v < |g| :: selfLoop[v] <==> Edge(g, v, v)
    ensures Component(g, u) in CyclicComponents(g) <==>
      |Component(g, u)| > 1 || exists v: nat :: v in Component(g, u) && v < |selfLoop| && selfLoop[v]
  {
    CyclicBySizeOrLoop(g, u);
    forall v: nat | v in Component(g, u) ensures Edge(g, v, v) <==> v < |selfLoop| && selfLoop[v] {
    }
  }

  lemma CountEnds(g: Graph, finished: seq<nat>, done: set<nat>)
    requires FinishOrderOf(g, finished) && forall j | 0 <= j < |finished| :: finished[j] in done
    ensures CyclicWithin(g, done) == CyclicComponents(g)
  {
    forall c | c in CyclicComponents(g) ensures c <= done {
      var u: nat :| u < |g| && OnCycle(g, u) && c == Component(g, u);
      forall v | v in c ensures v in done {
        assert v in finished;
      }
    }
  }

  /** The number of strong components that contain a cycle; an error only beyond the i32 range. */
  method CountCyclicComponents(outgoing: Graph, incoming: Graph, selfLoop: seq<bool>)
      returns (r: Result<nat, GraphError>)
    requires WellFormed(outgoing) && Transposed(outgoing, incoming)
    requires |selfLoop| == |outgoing| && forall v: nat | v < |outgoing| :: selfLoop[v] <==> Edge(outgoing, v, v)
    ensures r == if |CyclicComponents(outgoing)| <= I32_MAX then Ok(|CyclicComponents(outgoing)|)
                 else Err(CycleCountExceedsI32)
  {
    hide FinishOrderOf, WellFormed, Transposed, Searching, BackClosed, CyclicWithin, CyclicComponents, Component;
    var finished := FinishOrder(outgoing);
    var n := |outgoing|;
    var isAssigned := new bool[n](_ => false);
    ghost var done: set<nat> := {};
    var cycleCount: nat := 0;
    CountStarts(outgoing);
    var i := |finished|;
    while i > 0
      invariant 0 <= i <= |finished|
      invariant isAssigned.Length == n && Marks(isAssigned, done)
      invariant BackClosed(outgoing, done)
      invariant forall j | i <= j < |finished| :: finished[j] in done
      invariant cycleCount == |CyclicWithin(outgoing, done)| <= I32_MAX
    {
      i := i - 1;
      var start := finished[i];
      FinisherIsNode(outgoing, finished, i);
      if isAssigned[start] {
        continue;
      }
      isAssigned[start] := true;
      ghost var found;
      var size, hasSelfLoop;
      size, hasSelfLoop, found := AssignComponent(outgoing, incoming, selfLoop, isAssigned, start, done);
      SearchEnds(outgoing, finished, i, done, found);
      CyclicWithinGrows(outgoing, done, start);
      CyclicAsFlagged(outgoing, selfLoop, start);
      if size > 1 || hasSelfLoop {
        if cycleCount == I32_MAX {
          CyclicWithinBounded(outgoing, done + found);
          return Err(CycleCountExceedsI32);
        }
        cycleCount := cycleCount + 1;
      }
      done := done + found;
    }
    CountEnds(outgoing, finished, done);
    return Ok(cycleCount);
  }
}
