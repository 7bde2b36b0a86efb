/** The lock manager's operations on its shared state, and all-or-nothing acquisition of lock sets. */
module LockManagement {
  import opened LockOrder
  import StableSort
  import opened TextParts
  import opened Wrappers

  // ---------- Sorting a lock set ----------

  function PlaceAtMost(keyOf: string -> string): (Request, Request) -> bool {
    (a: Request, b: Request) => PlaceLe(keyOf, Place(a), Place(b))
  }

  /** The stable sort by (rank, path key). */
  function Sorted(keyOf: string -> string, requests: seq<Request>): seq<Request> {
    StableSort.Sort(requests, PlaceAtMost(keyOf))
  }

  ghost predicate Ascending(keyOf: string -> string, requests: seq<Request>) {
    forall i, j | 0 <= i <= j < |requests| :: PlaceLe(keyOf, Place(requests[i]), Place(requests[j]))
  }

  lemma PlacesAreOrdered(keyOf: string -> string)
    ensures StableSort.TotalPreorder(PlaceAtMost(keyOf))
  {
    var le := PlaceAtMost(keyOf);
    forall a, b, c ensures (le(a, b) || le(b, a)) && (le(a, b) && le(b, c) ==> le(a, c)) {
      PlaceTotal(keyOf, Place(a), Place(b));
      if le(a, b) && le(b, c) { PlaceTrans(keyOf, Place(a), Place(b), Place(c)); }
    }
  }

  /** The sorted lock set goes up the hierarchy and is a permutation of the requests. */
  lemma SortedSorts(keyOf: string -> string, requests: seq<Request>)
    ensures Ascending(keyOf, Sorted(keyOf, requests)) && InHierarchy(keyOf, Sorted(keyOf, requests))
    ensures multiset(Sorted(keyOf, requests)) == multiset(requests)
  {
    PlacesAreOrdered(keyOf);
    StableSort.SortSorts(requests, PlaceAtMost(keyOf));
    var sorted := Sorted(keyOf, requests);
    forall i, j | 0 <= i <= j < |sorted| ensures PlaceLe(keyOf, Place(sorted[i]), Place(sorted[j])) {
      if i < j {
        assert PlaceAtMost(keyOf)(sorted[i], sorted[j]);
      } else {
        PlaceTotal(keyOf, Place(sorted[i]), Place(sorted[i]));
      }
    }
    AscendingInHierarchy(keyOf, sorted);
  }

  /** The sorted set goes up the hierarchy: no request stands above a later one, so class ranks never fall,
      and within a rank keys never fall in character order. */
  ghost predicate InHierarchy(keyOf: string -> string, requests: seq<Request>) {
    forall i, j | 0 <= i < j < |requests| ::
      && requests[i].rank <= requests[j].rank
      && (requests[i].rank == requests[j].rank ==> !LexicallyBelow(keyOf(requests[j].path), keyOf(requests[i].path)))
  }

  lemma AscendingInHierarchy(keyOf: string -> string, requests: seq<Request>)
    requires Ascending(keyOf, requests)
    ensures InHierarchy(keyOf, requests)
  {
    hide LexicallyBelow, PlaceLe;
    forall i, j | 0 <= i < j < |requests|
      ensures requests[i].rank <= requests[j].rank
      ensures requests[i].rank == requests[j].rank ==> !LexicallyBelow(keyOf(requests[j].path), keyOf(requests[i].path))
    {
      PlaceLeIff(keyOf, Place(requests[i]), Place(requests[j]));
    }
  }

  // ---------- What other threads cannot touch ----------

  /** Thread t's own part of the state: its list, its guards, and whether it sleeps. */
  ghost predicate SameOwn(s: LockState, s': LockState, t: nat) {
    && HeldBy(s', t) == HeldBy(s, t)
    && (forall p: string :: Owns(s', t, p) <==> Owns(s, t, p))
    && (forall p | Owns(s, t, p) :: s'.guards[p] == s.guards[p])
    && (t in s'.waiting <==> t in s.waiting)
    && (t in s.waiting ==> s'.waiting[t] == s.waiting[t])
  }

  predicate Owns(s: LockState, t: nat, p: string) {
    p in s.guards && s.guards[p].thread == t
  }

  predicate ByOther(s: LockState, t: nat, step: Step) {
    match step
    case BeginStep(u, _) => u != t
    case GrantStep(u) => u != t
    case FailStep(u) => u != t
    case TryStep(u, _, _) => u != t
    case ReleaseStep(u, _) => u != t
    case DeliverStep(p, to) => to != t && !Owns(s, t, p)
  }

  lemma OtherStepKeepsOwn(keyOf: string -> string, s: LockState, t: nat, step: Step)
    requires ByOther(s, t, step)
    ensures SameOwn(s, Next(keyOf, s, step), t)
  {
    hide OrderAllows, RemoveLast;
  }

  lemma SameOwnTrans(a: LockState, b: LockState, c: LockState, t: nat)
    requires SameOwn(a, b, t) && SameOwn(b, c, t)
    ensures SameOwn(a, c, t)
  {
  }

  // Thread t has just been granted r on top of s.
  ghost predicate OwnsOneMore(s: LockState, s': LockState, t: nat, r: Request) {
    && HeldBy(s', t) == HeldBy(s, t) + [Place(r)]
    && !Owns(s, t, r.path)
    && (forall p: string :: Owns(s', t, p) <==> Owns(s, t, p) || p == r.path)
    && (forall p | Owns(s, t, p) :: s'.guards[p] == s.guards[p])
    && Owns(s', t, r.path) && s'.guards[r.path].rank == r.rank
    && t !in s'.waiting
  }

  lemma GrantOwns(s: LockState, t: nat)
    requires t in s.waiting && s.waiting[t].path !in s.guards
    ensures OwnsOneMore(s, Grant(s, t), t, s.waiting[t])
  {
  }

  lemma BeginKeepsOwn(keyOf: string -> string, s: LockState, t: nat, r: Request)
    requires t !in s.waiting
    ensures var (s', outcome) := Begin(keyOf, s, t, r);
      && HeldBy(s', t) == HeldBy(s, t) && s'.guards == s.guards
      && (outcome == Started ==> t in s'.waiting && s'.waiting[t] == r)
      && (outcome != Started ==> s' == s)
  {
    hide OrderAllows;
  }

  // A refused wait leaves thread t as it was before the request.
  lemma FailRestores(s: LockState, s1: LockState, s2: LockState, t: nat)
    requires t !in s.waiting && HeldBy(s1, t) == HeldBy(s, t) && s1.guards == s.guards && SameOwn(s1, s2, t)
    ensures SameOwn(s, Fail(s2, t), t)
  {
    assert HeldBy(Fail(s2, t), t) == HeldBy(s2, t);
    forall p: string ensures Owns(Fail(s2, t), t, p) <==> Owns(s, t, p) {
      assert Owns(s2, t, p) <==> Owns(s1, t, p);
    }
  }

  /** An attempt that does not take the lock leaves the whole state as it was, and one that does differs only in
      the guard, its place on the thread's list and its reservation. */
  lemma TryLeavesNoTrace(keyOf: string -> string, s: LockState, t: nat, r: Request, kernelOk: bool)
    ensures var taken := kernelOk && Begin(keyOf, s, t, r).1 == Started && r.path !in s.guards;
      var s' := TryAcquire(keyOf, s, t, r, kernelOk);
      && (!taken ==> s' == s)
      && (taken ==>
        && s'.guards == s.guards[r.path := Guard(t, r.rank, if r.policy == Reject then Some(r.manager) else None)]
        && s'.held == s.held[t := HeldBy(s, t) + [Held(r.rank, r.path)]]
        && s'.waiting == s.waiting
        && s'.reserved == s.reserved + (if r.policy == Reject then {(r.manager, r.path)} else {}))
  {
    hide OrderAllows;
    var s1 := Begin(keyOf, s, t, r).0;
    if Begin(keyOf, s, t, r).1 == Started { assert s1.waiting - {t} == s.waiting; }
  }

  // Releasing the most recent grant takes thread t back to where it was.
  lemma ReleaseUndoes(s: LockState, s1: LockState, s2: LockState, t: nat, r: Request)
    requires t !in s.waiting && OwnsOneMore(s, s1, t, r) && SameOwn(s1, s2, t)
    ensures SameOwn(s, Release(s2, t, r.path), t)
  {
    var s' := Release(s2, t, r.path);
    assert HeldBy(s2, t)[|HeldBy(s2, t)| - 1] == Place(r);
    assert HeldBy(s', t) == HeldBy(s, t);
  }

  /** What a granted request allows, every later place in the ascending set is allowed as well. */
  lemma AscendingStaysAllowed(keyOf: string -> string, requests: seq<Request>, held: seq<Held>, i: nat)
    requires Ascending(keyOf, requests) && 0 < i < |requests|
    requires OrderAllows(keyOf, held, Place(requests[0]))
    ensures OrderAllows(keyOf, held + Places(requests[..i]), Place(requests[i]))
  {
    var all := held + Places(requests[..i]);
    forall k | 0 <= k < |all| ensures PlaceLe(keyOf, all[k], Place(requests[i])) {
      if k < |held| {
        PlaceTrans(keyOf, held[k], Place(requests[0]), Place(requests[i]));
      } else {
        assert all[k] == Place(requests[k - |held|]);
      }
    }
  }

  function Places(requests: seq<Request>): seq<Held> {
    seq(|requests|, i requires 0 <= i < |requests| => Place(requests[i]))
  }

  // ---------- The manager ----------

  datatype AcquireError = Refused(outcome: Outcome) | KernelError

  datatype SetError = DuplicateIdentity | Acquire(error: AcquireError)

  class LockManager {
    const keyOf: string -> string
    var held: map<nat, seq<Held>>
    var guards: map<string, Guard>
    var waiting: map<nat, Request>
    var reserved: set<(nat, string)>

    constructor (keyOf: string -> string)
      ensures State() == Idle && this.keyOf == keyOf
    {
      this.keyOf := keyOf;
      held, guards, waiting, reserved := map[], map[], map[], {};
    }

    ghost function State(): LockState
      reads this
    {
      LockState(held, guards, waiting, reserved)
    }

    /** Compare the requested place with the greatest one the thread holds (`check_lock_order`). */
    method CheckLockOrder(t: nat, place: Held) returns (ok: bool)
      ensures ok <==> OrderAllows(keyOf, HeldBy(State(), t), place)
      ensures ok <==> !HoldsAbove(keyOf, HeldBy(State(), t), place)
    {
      OrderAllowsIff(keyOf, HeldBy(State(), t), place);
      hide StandsAbove, HoldsAbove;
      var mine := if t in held then held[t] else [];
      assert mine == HeldBy(State(), t);
      if mine == [] {
        return true;
      }
      var best := mine[0];
      PlaceTotal(keyOf, best, best);
      for i := 1 to |mine|
        invariant best in mine
        invariant forall k | 0 <= k < i :: PlaceLe(keyOf, mine[k], best)
      {
        PlaceTotal(keyOf, best, mine[i]);
        if PlaceLe(keyOf, best, mine[i]) {
          forall k | 0 <= k < i ensures PlaceLe(keyOf, mine[k], mine[i]) {
            PlaceTrans(keyOf, mine[k], best, mine[i]);
          }
          best := mine[i];
          PlaceTotal(keyOf, best, best);
        }
      }
      ok := PlaceLe(keyOf, best, place);
      if ok {
        forall k | 0 <= k < |mine| ensures PlaceLe(keyOf, mine[k], place) {
          PlaceTrans(keyOf, mine[k], best, place);
        }
      }
    }

    // `reserve_if_required`
    method ReserveIfRequired(r: Request) returns (ok: bool)
      modifies this`reserved
      ensures ok <==> r.policy.Queue? || (r.manager, r.path) !in old(reserved)
      ensures reserved == if ok && r.policy.Reject? then old(reserved) + {(r.manager, r.path)} else old(reserved)
    {
      if r.policy.Queue? {
        return true;
      }
      if (r.manager, r.path) in reserved {
        return false;
      }
      reserved := reserved + {(r.manager, r.path)};
      return true;
    }

    /** The checks before the kernel wait. */
    method BeginAcquire(t: nat, r: Request) returns (outcome: Outcome)
      modifies this
      ensures (State(), outcome) == Begin(keyOf, old(State()), t, r)
    {
      hide OrderAllows;
      if t in waiting {
        return ThreadAsleep;
      }
      var ordered := CheckLockOrder(t, Place(r));
      if !ordered {
        return OrderInversion;
      }
      var ok := ReserveIfRequired(r);
      if !ok {
        return SameProcess;
      }
      waiting := waiting[t := r];
      return Started;
    }

    /** The kernel returns from the wait of thread t, with the lock if it is free and no error struck. */
    method FinishAcquire(t: nat, kernelOk: bool) returns (granted: bool)
      requires t in waiting
      modifies this
      ensures granted <==> kernelOk && old(waiting[t]).path !in old(guards)
      ensures State() == if granted then Grant(old(State()), t) else Fail(old(State()), t)
    {
      var r := waiting[t];
      granted := kernelOk && r.path !in guards;
      waiting := waiting - {t};
      if granted {
        guards := guards[r.path := Guard(t, r.rank, if r.policy.Reject? then Some(r.manager) else None)];
        held := held[t := (if t in held then held[t] else []) + [Place(r)]];
      } else if r.policy.Reject? {
        reserved := reserved - {(r.manager, r.path)};
      }
    }

    /** Acquisition without waiting: nothing changes unless the lock is taken. */
    method TryAcquire(t: nat, r: Request, kernelOk: bool) returns (taken: bool)
      modifies this
      ensures State() == LockOrder.TryAcquire(keyOf, old(State()), t, r, kernelOk)
      ensures taken <==> kernelOk && Begin(keyOf, old(State()), t, r).1 == Started && r.path !in old(guards)
    {
      hide OrderAllows;
      var outcome := BeginAcquire(t, r);
      if outcome != Started {
        return false;
      }
      taken := FinishAcquire(t, kernelOk);
    }

    method Release(t: nat, path: string)
      modifies this
      ensures State() == LockOrder.Release(old(State()), t, path)
    {
      if t in waiting || path !in guards || guards[path].thread != t {
        return;
      }
      var g := guards[path];
      guards := guards - {path};
      held := held[t := RemoveLast(if t in held then held[t] else [], Held(g.rank, path))];
      if g.reservation.Some? {
        reserved := reserved - {(g.reservation.value, path)};
      }
    }

    /** Other threads run while t sleeps or is between calls; steps that are not theirs are skipped. */
    method RunOthers(t: nat, steps: seq<Step>)
      modifies this
      ensures SameOwn(old(State()), State(), t)
      ensures ReservationsExact(old(State())) ==> ReservationsExact(State())
    {
      hide SameOwn, ReservationsExact, OrderAllows, RemoveLast;
      ghost var start := State();
      SameOwnRefl(start, t);
      for i := 0 to |steps|
        invariant SameOwn(start, State(), t)
        invariant ReservationsExact(start) ==> ReservationsExact(State())
      {
        var s := LockState(held, guards, waiting, reserved);
        if ByOther(s, t, steps[i]) {
          var s' := Next(keyOf, s, steps[i]);
          OtherStepKeepsOwn(keyOf, s, t, steps[i]);
          SameOwnTrans(start, s, s', t);
          if ReservationsExact(s) { NextReserves(keyOf, s, steps[i]); }
          held, guards, waiting, reserved := s'.held, s'.guards, s'.waiting, s'.reserved;
        }
      }
    }

    /** One blocking acquisition, other threads running `during` the kernel wait. */
    method AcquireBlocking(t: nat, r: Request, during: seq<Step>, kernelOk: bool) returns (e: Option<AcquireError>)
      requires t !in waiting && ReservationsExact(State())
      modifies this
      ensures ReservationsExact(State()) && t !in waiting
      ensures e == None ==> OwnsOneMore(old(State()), State(), t, r)
      ensures e != None ==> SameOwn(old(State()), State(), t)
      ensures e == Some(Refused(OrderInversion)) <==> HoldsAbove(keyOf, HeldBy(old(State()), t), Held(r.rank, r.path))
    {
      hide ReservationsExact, OrderAllows, HoldsAbove;
      OrderAllowsIff(keyOf, HeldBy(State(), t), Place(r));
      ghost var s0 := State();
      var outcome := BeginAcquire(t, r);
      BeginKeepsOwn(keyOf, s0, t, r);
      BeginReserves(keyOf, s0, t, r);
      if outcome != Started {
        return Some(Refused(outcome));
      }
      ghost var s1 := State();
      RunOthers(t, during);
      ghost var s2 := State();
      GrantReserves(s2, t);
      FailReserves(s2, t);
      var granted := FinishAcquire(t, kernelOk);
      if !granted {
        FailRestores(s0, s1, s2, t);
        return Some(KernelError);
      }
      GrantOwns(s2, t);
      return None;
    }

    /** Drop the guards of `paths`, last first. */
    method UnwindInReverse(t: nat, acquired: seq<Request>, ghost states: seq<LockState>)
      requires t !in waiting && |states| == |acquired| + 1 && SameOwn(states[|acquired|], State(), t)
      requires Stacked(states, acquired, t) && ReservationsExact(State())
      modifies this
      ensures SameOwn(states[0], State(), t) && t !in waiting && ReservationsExact(State())
    {
      hide SameOwn, OwnsOneMore, ReservationsExact;
      var n := |acquired|;
      while n > 0
        invariant 0 <= n <= |acquired|
        invariant t !in waiting && SameOwn(states[n], State(), t) && ReservationsExact(State())
      {
        n := n - 1;
        assert OwnsOneMore(states[n], states[n + 1], t, acquired[n]) && t !in states[n].waiting;
        ReleaseUndoes(states[n], states[n + 1], State(), t, acquired[n]);
        ReleaseReserves(State(), t, acquired[n].path);
        Release(t, acquired[n].path);
        AwakeStays(states[n], State(), t);
      }
    }

    /** Acquire a lock set in ascending order, all or nothing: `during(i)` is what other threads do around
        the i-th kernel wait and `kernelOk(i)` whether that wait ends well. */
    method AcquireManyBlocking(t: nat, requests: seq<Request>, during: nat -> seq<Step>, kernelOk: nat -> bool)
        returns (r: Result<seq<Request>, SetError>)
      requires t !in waiting && ReservationsExact(State())
      modifies this
      ensures t !in waiting && ReservationsExact(State())
      ensures r.Err? ==> SameOwn(old(State()), State(), t)
      ensures r == Err(DuplicateIdentity) <==> !DistinctPaths(requests)
      ensures r.Ok? ==>
        && r.value == Sorted(keyOf, requests)
        && InHierarchy(keyOf, r.value) && multiset(r.value) == multiset(requests)
        && HeldBy(State(), t) == HeldBy(old(State()), t) + Places(r.value)
        && (forall p: string :: Owns(State(), t, p) <==> Owns(old(State()), t, p) || p in Paths(requests))
      ensures r == Err(Acquire(Refused(OrderInversion))) <==>
        var sorted := Sorted(keyOf, requests);
        DistinctPaths(requests) && sorted != [] &&
        HoldsAbove(keyOf, HeldBy(old(State()), t), Held(sorted[0].rank, sorted[0].path))
    {
      hide InHierarchy, HoldsAbove, StandsAbove, LexicallyBelow, SameOwn, OwnsOneMore, ReservationsExact, OrderAllows, Sorted, Ascending, Stacked, DistinctPaths;
      ghost var start := State();
      var sorted := Sorted(keyOf, requests);
      SortedSorts(keyOf, requests);
      SortedPaths(requests, sorted);
      var duplicate := HasDuplicate(sorted);
      if duplicate {
        SameOwnRefl(start, t);
        return Err(DuplicateIdentity);
      }
      ghost var states := [start];
      StackedNothing(start, t);
      SameOwnRefl(start, t);
      if sorted != [] { OrderAllowsIff(keyOf, HeldBy(start, t), Place(sorted[0])); }
      var i := 0;
      while i < |sorted|
        invariant 0 <= i <= |sorted| && |states| == i + 1 && states[0] == start
        invariant states[i] == State() && t !in waiting && ReservationsExact(State())
        invariant Stacked(states, sorted[..i], t)
        invariant i > 0 ==> OrderAllows(keyOf, HeldBy(start, t), Place(sorted[0]))
      {
        ghost var before := State();
        StackedHeld(states, sorted[..i], t);
        if i > 0 { AscendingStaysAllowed(keyOf, sorted, HeldBy(start, t), i); }
        OrderAllowsIff(keyOf, HeldBy(before, t), Place(sorted[i]));
        var e := AcquireBlocking(t, sorted[i], during(i), kernelOk(i));
        if e.Some? {
          assert sorted[..0] == [];
          UnwindInReverse(t, sorted[..i], states);
          return Err(Acquire(e.value));
        }
        StackedMore(states, sorted[..i], t, State(), sorted[i]);
        assert sorted[..i + 1] == sorted[..i] + [sorted[i]];
        states := states + [State()];
        i := i + 1;
      }
      assert sorted[..i] == sorted;
      StackedHeld(states, sorted, t);
      return Ok(sorted);
    }
  }

  lemma SameOwnRefl(s: LockState, t: nat)
    ensures SameOwn(s, s, t)
  {
  }

  lemma AwakeStays(s: LockState, s': LockState, t: nat)
    requires SameOwn(s, s', t) && t !in s.waiting
    ensures t !in s'.waiting
  {
  }

  // The state after each grant of an ascending acquisition.
  ghost predicate Stacked(states: seq<LockState>, acquired: seq<Request>, t: nat) {
    && |states| == |acquired| + 1
    && (forall i | 0 <= i < |states| :: t !in states[i].waiting)
    && forall i | 0 <= i < |acquired| :: OwnsOneMore(states[i], states[i + 1], t, acquired[i])
  }

  lemma StackedNothing(s: LockState, t: nat)
    requires t !in s.waiting
    ensures Stacked([s], [], t)
  {
  }

  lemma StackedMore(states: seq<LockState>, acquired: seq<Request>, t: nat, s: LockState, r: Request)
    requires Stacked(states, acquired, t) && t !in s.waiting && OwnsOneMore(states[|acquired|], s, t, r)
    ensures Stacked(states + [s], acquired + [r], t)
  {
    hide OwnsOneMore;
    var states', acquired' := states + [s], acquired + [r];
    forall i | 0 <= i < |acquired'| ensures OwnsOneMore(states'[i], states'[i + 1], t, acquired'[i]) {
      if i < |acquired| { assert OwnsOneMore(states[i], states[i + 1], t, acquired[i]); }
    }
  }

  lemma {:induction false} StackedHeld(states: seq<LockState>, acquired: seq<Request>, t: nat)
    requires Stacked(states, acquired, t)
    ensures HeldBy(states[|acquired|], t) == HeldBy(states[0], t) + Places(acquired)
    ensures forall p: string :: Owns(states[|acquired|], t, p) <==> Owns(states[0], t, p) || p in Paths(acquired)
    decreases |acquired|
  {
    if acquired != [] {
      var n := |acquired| - 1;
      StackedPrefix(states, acquired, t);
      StackedHeld(states[..n + 1], acquired[..n], t);
      assert OwnsOneMore(states[n], states[n + 1], t, acquired[n]);
      assert Places(acquired) == Places(acquired[..n]) + [Place(acquired[n])];
      assert acquired == acquired[..n] + [acquired[n]];
    }
  }

  lemma StackedPrefix(states: seq<LockState>, acquired: seq<Request>, t: nat)
    requires Stacked(states, acquired, t) && acquired != []
    ensures Stacked(states[..|acquired|], acquired[..|acquired| - 1], t)
  {
    hide OwnsOneMore;
    forall i | 0 <= i < |acquired| - 1
      ensures OwnsOneMore(states[..|acquired|][i], states[..|acquired|][i + 1], t, acquired[..|acquired| - 1][i])
    {
      assert OwnsOneMore(states[i], states[i + 1], t, acquired[i]);
    }
  }

  function Paths(requests: seq<Request>): set<string> {
    set r | r in requests :: r.path
  }

  ghost predicate DistinctPaths(requests: seq<Request>) {
    forall i, j | 0 <= i < j < |requests| :: requests[i].path != requests[j].path
  }

  method HasDuplicate(requests: seq<Request>) returns (found: bool)
    ensures found <==> !DistinctPaths(requests)
  {
    var seen: set<string> := {};
    for i := 0 to |requests|
      invariant forall p :: p in seen <==> exists k :: 0 <= k < i && requests[k].path == p
      invariant DistinctPaths(requests[..i])
    {
      if requests[i].path in seen {
        return true;
      }
      seen := seen + {requests[i].path};
    }
    assert requests[..|requests|] == requests;
    return false;
  }

  lemma PathsGrow(requests: seq<Request>)
    requires requests != []
    ensures Paths(requests) == Paths(requests[..|requests| - 1]) + {requests[|requests| - 1].path}
  {
    var front, last := requests[..|requests| - 1], requests[|requests| - 1];
    assert requests == front + [last];
  }

  lemma DistinctGrow(requests: seq<Request>)
    requires requests != []
    ensures var front, last := requests[..|requests| - 1], requests[|requests| - 1];
      DistinctPaths(requests) <==> DistinctPaths(front) && last.path !in Paths(front)
  {
    var n := |requests| - 1;
    var front, last := requests[..n], requests[n];
    assert forall i | 0 <= i < n :: front[i] == requests[i] && front[i] in front;
    if last.path in Paths(front) {
      var i :| 0 <= i < n && front[i].path == last.path;
      assert requests[i].path == requests[n].path;
    }
  }

  lemma CountedOnce(requests: seq<Request>)
    ensures DistinctPaths(requests) <==> |Paths(requests)| == |requests|
    decreases |requests|
  {
    if requests == [] {
      assert Paths(requests) == {};
    } else {
      var n := |requests| - 1;
      var front, last := requests[..n], requests[n];
      CountedOnce(front);
      PathsBounded(front);
      PathsGrow(requests);
      DistinctGrow(requests);
    }
  }

  lemma PathsBounded(requests: seq<Request>)
    ensures |Paths(requests)| <= |requests|
    decreases |requests|
  {
    if requests == [] {
      assert Paths(requests) == {};
    } else {
      var n := |requests| - 1;
      assert requests == requests[..n] + [requests[n]];
      PathsBounded(requests[..n]);
      assert Paths(requests) == Paths(requests[..n]) + {requests[n].path};
    }
  }

  lemma SortedPaths(requests: seq<Request>, sorted: seq<Request>)
    requires multiset(sorted) == multiset(requests)
    ensures |sorted| == |requests| && Paths(sorted) == Paths(requests)
    ensures DistinctPaths(sorted) <==> DistinctPaths(requests)
  {
    assert |multiset(sorted)| == |multiset(requests)|;
    forall r ensures r in sorted <==> r in requests {
      assert r in multiset(sorted) <==> r in multiset(requests);
    }
    CountedOnce(requests);
    CountedOnce(sorted);
  }
}
