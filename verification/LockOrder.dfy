/** The local lock hierarchy as a transition system, and why it cannot deadlock. */
module LockOrder {
  import opened TextParts
  import opened Wrappers

  datatype Policy = Reject | Queue

  // One exclusive request, by canonical identity and the rank of its class.
  datatype Request = Request(path: string, rank: nat, policy: Policy, manager: nat)

  // An entry of a thread's held-order list.
  datatype Held = Held(rank: nat, path: string)

  // The live guard of an owned identity; `reservation` is the manager holding the identity reserved.
  datatype Guard = Guard(thread: nat, rank: nat, reservation: Option<nat>)

  datatype LockState = LockState(
    held: map<nat, seq<Held>>,
    guards: map<string, Guard>,
    waiting: map<nat, Request>,
    reserved: set<(nat, string)>)

  const Idle := LockState(map[], map[], map[], {})

  function HeldBy(s: LockState, t: nat): seq<Held> {
    if t in s.held then s.held[t] else []
  }

  // ---------- The (rank, key) order ----------

  // Not after in character order.
  predicate LexLe(a: string, b: string) {
    !Precedes(b, a)
  }

  lemma LexTotal(a: string, b: string)
    ensures LexLe(a, b) || LexLe(b, a)
    ensures LexLe(a, b) && LexLe(b, a) ==> a == b
  {
    PrecedesOrders(a, b, a);
  }

  lemma LexTrans(a: string, b: string, c: string)
    requires LexLe(a, b) && LexLe(b, c)
    ensures LexLe(a, c)
  {
    PrecedesOrders(a, b, c);
    PrecedesOrders(b, c, a);
    PrecedesOrders(c, b, a);
    PrecedesOrders(c, a, b);
  }

  /** How the platform names identities: `keyOf` is the (possibly lossy) sort key of a path. */
  datatype Naming = Naming(keyOf: string -> string, rankOf: string -> nat, known: set<string>)

  // No two known identities share both class rank and sort key.
  ghost predicate PlacesDistinct(n: Naming) {
    forall a, b | a in n.known && b in n.known && n.rankOf(a) == n.rankOf(b) && n.keyOf(a) == n.keyOf(b) :: a == b
  }

  predicate PlaceLe(keyOf: string -> string, a: Held, b: Held) {
    a.rank < b.rank || (a.rank == b.rank && LexLe(keyOf(a.path), keyOf(b.path)))
  }

  lemma PlaceTrans(keyOf: string -> string, a: Held, b: Held, c: Held)
    requires PlaceLe(keyOf, a, b) && PlaceLe(keyOf, b, c)
    ensures PlaceLe(keyOf, a, c)
  {
    if a.rank == b.rank == c.rank { LexTrans(keyOf(a.path), keyOf(b.path), keyOf(c.path)); }
  }

  lemma PlaceTotal(keyOf: string -> string, a: Held, b: Held)
    ensures PlaceLe(keyOf, a, b) || PlaceLe(keyOf, b, a)
    ensures PlaceLe(keyOf, a, b) && PlaceLe(keyOf, b, a) ==> a.rank == b.rank && keyOf(a.path) == keyOf(b.path)
  {
    LexTotal(keyOf(a.path), keyOf(b.path));
  }

  function Place(r: Request): Held {
    Held(r.rank, r.path)
  }

  // No held entry lies strictly above the requested place.
  predicate OrderAllows(keyOf: string -> string, held: seq<Held>, place: Held) {
    forall i | 0 <= i < |held| :: PlaceLe(keyOf, held[i], place)
  }

  /** The entry stands above the place: a greater class rank, or the same rank and a key that comes later
      in character order. */
  ghost predicate StandsAbove(keyOf: string -> string, entry: Held, place: Held) {
    entry.rank > place.rank || (entry.rank == place.rank && LexicallyBelow(keyOf(place.path), keyOf(entry.path)))
  }

  /** Some entry of the list stands above the place. */
  ghost predicate HoldsAbove(keyOf: string -> string, held: seq<Held>, place: Held) {
    exists i :: 0 <= i < |held| && StandsAbove(keyOf, held[i], place)
  }

  lemma PlaceLeIff(keyOf: string -> string, a: Held, b: Held)
    ensures PlaceLe(keyOf, a, b) <==> !StandsAbove(keyOf, a, b)
  {
    hide LexicallyBelow, Precedes;
    PrecedesIff(keyOf(b.path), keyOf(a.path));
  }

  /** The order check refuses a place exactly when the list holds an entry above it. */
  lemma OrderAllowsIff(keyOf: string -> string, held: seq<Held>, place: Held)
    ensures OrderAllows(keyOf, held, place) <==> !HoldsAbove(keyOf, held, place)
  {
    hide PlaceLe, StandsAbove;
    forall i | 0 <= i < |held| ensures PlaceLe(keyOf, held[i], place) <==> !StandsAbove(keyOf, held[i], place) {
      PlaceLeIff(keyOf, held[i], place);
    }
  }

  // ---------- Atomic steps ----------

  datatype Outcome = Started | OrderInversion | SameProcess | ThreadAsleep

  function Begin(keyOf: string -> string, s: LockState, t: nat, r: Request): (LockState, Outcome) {
    if t in s.waiting then (s, ThreadAsleep)
    else if !OrderAllows(keyOf, HeldBy(s, t), Place(r)) then (s, OrderInversion)
    else if r.policy.Reject? && (r.manager, r.path) in s.reserved then (s, SameProcess)
    else
      var reserved := if r.policy.Reject? then s.reserved + {(r.manager, r.path)} else s.reserved;
      (s.(waiting := s.waiting[t := r], reserved := reserved), Started)
  }

  // The kernel hands a free identity to a sleeping thread, which registers the place it now holds.
  function Grant(s: LockState, t: nat): LockState {
    if t in s.waiting && s.waiting[t].path !in s.guards then
      var r := s.waiting[t];
      s.(guards := s.guards[r.path := Guard(t, r.rank, if r.policy.Reject? then Some(r.manager) else None)],
         held := s.held[t := HeldBy(s, t) + [Place(r)]],
         waiting := s.waiting - {t})
    else s
  }

  // The kernel call returns an error (or contention, for a non-blocking attempt).
  function Fail(s: LockState, t: nat): LockState {
    if t in s.waiting then
      var r := s.waiting[t];
      s.(waiting := s.waiting - {t},
         reserved := if r.policy.Reject? then s.reserved - {(r.manager, r.path)} else s.reserved)
    else s
  }

  // A non-blocking attempt; `kernelOk` is false when the kernel call fails for another reason than contention.
  function TryAcquire(keyOf: string -> string, s: LockState, t: nat, r: Request, kernelOk: bool): LockState {
    var (s', outcome) := Begin(keyOf, s, t, r);
    if outcome != Started then s
    else if !kernelOk || r.path in s.guards then Fail(s', t)
    else Grant(s', t)
  }

  // Drop the last matching entry, if any.
  function RemoveLast(held: seq<Held>, entry: Held): seq<Held> {
    if held == [] then []
    else if held[|held| - 1] == entry then held[..|held| - 1]
    else RemoveLast(held[..|held| - 1], entry) + [held[|held| - 1]]
  }

  // Thread t drops the guard it owns: unlock, unregister on t's own list, unreserve.
  function Release(s: LockState, t: nat, path: string): LockState {
    if t !in s.waiting && path in s.guards && s.guards[path].thread == t then
      var g := s.guards[path];
      s.(guards := s.guards - {path},
         held := s.held[t := RemoveLast(HeldBy(s, t), Held(g.rank, path))],
         reserved := if g.reservation.Some? then s.reserved - {(g.reservation.value, path)} else s.reserved)
    else s
  }

  // A guard acquired on a waiter thread is handed to its receiver; held-order lists stay as they are.
  function Deliver(s: LockState, path: string, to: nat): LockState {
    if path in s.guards && s.guards[path].thread !in s.waiting then
      s.(guards := s.guards[path := s.guards[path].(thread := to)])
    else s
  }

  datatype Step =
    | BeginStep(t: nat, r: Request)
    | GrantStep(t: nat)
    | FailStep(t: nat)
    | TryStep(t: nat, r: Request, kernelOk: bool)
    | ReleaseStep(t: nat, path: string)
    | DeliverStep(path: string, to: nat)

  function Next(keyOf: string -> string, s: LockState, step: Step): LockState {
    match step
    case BeginStep(t, r) => Begin(keyOf, s, t, r).0
    case GrantStep(t) => Grant(s, t)
    case FailStep(t) => Fail(s, t)
    case TryStep(t, r, kernelOk) => TryAcquire(keyOf, s, t, r, kernelOk)
    case ReleaseStep(t, path) => Release(s, t, path)
    case DeliverStep(path, to) => Deliver(s, path, to)
  }

  function Run(keyOf: string -> string, s: LockState, steps: seq<Step>): LockState
    decreases |steps|
  {
    if steps == [] then s else Run(keyOf, Next(keyOf, s, steps[0]), steps[1..])
  }

  // ---------- Reservations are conserved ----------

  predicate ReservedByWaiter(s: LockState, t: nat, m: nat, path: string) {
    t in s.waiting && s.waiting[t].policy.Reject? && s.waiting[t].manager == m && s.waiting[t].path == path
  }

  predicate ReservedByGuard(s: LockState, m: nat, path: string) {
    path in s.guards && s.guards[path].reservation == Some(m)
  }

  /** The reserved set is exactly the identities of in-flight or live rejecting requests, each held once. */
  ghost predicate ReservationsExact(s: LockState) {
    && (forall m: nat, p: string :: (m, p) in s.reserved <==>
         ReservedByGuard(s, m, p) || exists t: nat :: ReservedByWaiter(s, t, m, p))
    && (forall t: nat, m: nat, p: string | ReservedByWaiter(s, t, m, p) :: !ReservedByGuard(s, m, p))
    && forall t: nat, u: nat, m: nat, p: string | ReservedByWaiter(s, t, m, p) && ReservedByWaiter(s, u, m, p) :: t == u
  }

  lemma BeginReserves(keyOf: string -> string, s: LockState, t: nat, r: Request)
    requires ReservationsExact(s)
    ensures ReservationsExact(Begin(keyOf, s, t, r).0)
  {
    hide OrderAllows;
    var (s', outcome) := Begin(keyOf, s, t, r);
    if outcome == Started {
      forall u: nat, m: nat, p: string
        ensures ReservedByWaiter(s', u, m, p) <==>
          ReservedByWaiter(s, u, m, p) || (u == t && r.policy.Reject? && m == r.manager && p == r.path)
      {
      }
      if r.policy.Reject? { assert ReservedByWaiter(s', t, r.manager, r.path); }
    }
  }

  lemma GrantReserves(s: LockState, t: nat)
    requires ReservationsExact(s)
    ensures ReservationsExact(Grant(s, t))
  {
    var s' := Grant(s, t);
    if s' != s {
      var r := s.waiting[t];
      forall u: nat, m: nat, p: string
        ensures ReservedByWaiter(s', u, m, p) <==> ReservedByWaiter(s, u, m, p) && u != t
      {
      }
      forall m: nat, p: string ensures ReservedByGuard(s', m, p) <==>
        ReservedByGuard(s, m, p) || ReservedByWaiter(s, t, m, p)
      {
      }
    }
  }

  lemma FailReserves(s: LockState, t: nat)
    requires ReservationsExact(s)
    ensures ReservationsExact(Fail(s, t))
  {
    var s' := Fail(s, t);
    if t in s.waiting {
      forall u: nat, m: nat, p: string
        ensures ReservedByWaiter(s', u, m, p) <==> ReservedByWaiter(s, u, m, p) && u != t
      {
      }
      forall m: nat, p: string ensures (m, p) in s'.reserved <==>
        ReservedByGuard(s', m, p) || exists u: nat :: ReservedByWaiter(s', u, m, p)
      {
        if (m, p) in s'.reserved && !ReservedByGuard(s, m, p) {
          var u: nat :| ReservedByWaiter(s, u, m, p);
          assert ReservedByWaiter(s', u, m, p);
        }
        if u: nat :| ReservedByWaiter(s', u, m, p) {
          assert ReservedByWaiter(s, u, m, p) && u != t;
          assert !ReservedByWaiter(s, t, m, p);
        }
        if ReservedByGuard(s, m, p) {
          assert !ReservedByWaiter(s, t, m, p);
        }
      }
    }
  }

  lemma ReleaseReserves(s: LockState, t: nat, path: string)
    requires ReservationsExact(s)
    ensures ReservationsExact(Release(s, t, path))
  {
    var s' := Release(s, t, path);
    forall u: nat, m: nat, p: string ensures ReservedByWaiter(s', u, m, p) <==> ReservedByWaiter(s, u, m, p) {
    }
  }

  lemma DeliverReserves(s: LockState, path: string, to: nat)
    requires ReservationsExact(s)
    ensures ReservationsExact(Deliver(s, path, to))
  {
    var s' := Deliver(s, path, to);
    forall u: nat, m: nat, p: string ensures ReservedByWaiter(s', u, m, p) <==> ReservedByWaiter(s, u, m, p) {
    }
    forall m: nat, p: string ensures ReservedByGuard(s', m, p) <==> ReservedByGuard(s, m, p) {
    }
  }

  lemma NextReserves(keyOf: string -> string, s: LockState, step: Step)
    requires ReservationsExact(s)
    ensures ReservationsExact(Next(keyOf, s, step))
  {
    hide ReservationsExact, OrderAllows, Fail, Grant;
    match step {
      case BeginStep(t, r) => BeginReserves(keyOf, s, t, r);
      case GrantStep(t) => GrantReserves(s, t);
      case FailStep(t) => FailReserves(s, t);
      case TryStep(t, r, _) =>
        BeginReserves(keyOf, s, t, r);
        FailReserves(Begin(keyOf, s, t, r).0, t);
        GrantReserves(Begin(keyOf, s, t, r).0, t);
      case ReleaseStep(t, path) => ReleaseReserves(s, t, path);
      case DeliverStep(path, to) => DeliverReserves(s, path, to);
    }
  }

  /** In every interleaving, whatever the requests and deliveries. */
  lemma {:induction false} RunReserves(keyOf: string -> string, s: LockState, steps: seq<Step>)
    requires ReservationsExact(s)
    ensures ReservationsExact(Run(keyOf, s, steps))
    decreases |steps|
  {
    hide ReservationsExact, Next;
    if steps != [] {
      NextReserves(keyOf, s, steps[0]);
      RunReserves(keyOf, Next(keyOf, s, steps[0]), steps[1..]);
    }
  }

  // ---------- What the outcomes mean ----------

  /** A request of an awake thread is out of order exactly when the thread holds a place above it, is refused
      exactly when it is in order but its identity is reserved, and otherwise waits for the kernel. */
  lemma BeginOutcome(keyOf: string -> string, s: LockState, t: nat, r: Request)
    requires t !in s.waiting
    ensures var outcome, above := Begin(keyOf, s, t, r).1, HoldsAbove(keyOf, HeldBy(s, t), Held(r.rank, r.path));
      var reserved := r.policy == Reject && (r.manager, r.path) in s.reserved;
      && (outcome == OrderInversion <==> above)
      && (outcome == SameProcess <==> !above && reserved)
      && (outcome == Started <==> !above && !reserved)
  {
    hide OrderAllows, HoldsAbove;
    OrderAllowsIff(keyOf, HeldBy(s, t), Place(r));
  }

  // ---------- Lists without deliveries ----------

  /** Each thread's list holds exactly the places of the guards it owns, each once. */
  ghost predicate ListsExact(s: LockState) {
    forall t: nat, entry: Held :: multiset(HeldBy(s, t))[entry] == if OwnsAt(s, t, entry) then 1 else 0
  }

  predicate OwnsAt(s: LockState, t: nat, entry: Held) {
    entry.path in s.guards && s.guards[entry.path].thread == t && s.guards[entry.path].rank == entry.rank
  }

  /** The last matching entry is taken out, and nothing else. */
  lemma {:induction false} RemoveLastTakesOne(held: seq<Held>, entry: Held) returns (at: nat)
    requires entry in held
    ensures at < |held| && held[at] == entry && entry !in held[at + 1..]
    ensures RemoveLast(held, entry) == held[..at] + held[at + 1..]
  {
    var n := |held| - 1;
    if held[n] == entry {
      at := n;
    } else {
      assert held == held[..n] + [held[n]];
      at := RemoveLastTakesOne(held[..n], entry);
      hide RemoveLast;
      assert held[at + 1..] == held[..n][at + 1..] + [held[n]];
      assert held[..n][..at] == held[..at];
    }
  }

  lemma TakeOneOut(held: seq<Held>, at: nat)
    requires at < |held|
    ensures multiset(held[..at] + held[at + 1..]) == multiset(held) - multiset{held[at]}
  {
    assert held == held[..at] + [held[at]] + held[at + 1..];
  }

  lemma GrantListsExact(s: LockState, t: nat)
    requires ListsExact(s)
    ensures ListsExact(Grant(s, t))
  {
    var s' := Grant(s, t);
    if s' != s {
      var r := s.waiting[t];
      assert HeldBy(s', t) == HeldBy(s, t) + [Place(r)];
      forall u: nat, entry: Held ensures multiset(HeldBy(s', u))[entry] == if OwnsAt(s', u, entry) then 1 else 0 {
        assert multiset(HeldBy(s, u))[entry] == if OwnsAt(s, u, entry) then 1 else 0;
        if u != t { assert HeldBy(s', u) == HeldBy(s, u); }
      }
    }
  }

  lemma ReleaseListsExact(s: LockState, t: nat, path: string)
    requires ListsExact(s)
    ensures ListsExact(Release(s, t, path))
  {
    hide RemoveLast;
    var s' := Release(s, t, path);
    if s' != s {
      var dropped := Held(s.guards[path].rank, path);
      assert multiset(HeldBy(s, t))[dropped] == 1;
      var at := RemoveLastTakesOne(HeldBy(s, t), dropped);
      TakeOneOut(HeldBy(s, t), at);
      forall u: nat, entry: Held ensures multiset(HeldBy(s', u))[entry] == if OwnsAt(s', u, entry) then 1 else 0 {
        assert multiset(HeldBy(s, u))[entry] == if OwnsAt(s, u, entry) then 1 else 0;
        if u != t { assert HeldBy(s', u) == HeldBy(s, u); }
      }
    }
  }

  lemma SameListsExact(s: LockState, s': LockState)
    requires ListsExact(s) && s'.held == s.held && s'.guards == s.guards
    ensures ListsExact(s')
  {
    forall t: nat, entry: Held ensures multiset(HeldBy(s', t))[entry] == if OwnsAt(s', t, entry) then 1 else 0 {
      assert multiset(HeldBy(s, t))[entry] == if OwnsAt(s, t, entry) then 1 else 0;
    }
  }

  lemma NextListsExact(keyOf: string -> string, s: LockState, step: Step)
    requires ListsExact(s) && !step.DeliverStep?
    ensures ListsExact(Next(keyOf, s, step))
  {
    hide ListsExact, Grant, Release, OrderAllows;
    match step {
      case BeginStep(t, r) => SameListsExact(s, Begin(keyOf, s, t, r).0);
      case GrantStep(t) => GrantListsExact(s, t);
      case FailStep(t) => SameListsExact(s, Fail(s, t));
      case TryStep(t, r, _) =>
        var s' := Begin(keyOf, s, t, r).0;
        SameListsExact(s, s');
        SameListsExact(s, Fail(s', t));
        GrantListsExact(s', t);
      case ReleaseStep(t, path) => ReleaseListsExact(s, t, path);
      case DeliverStep(_, _) =>
    }
  }

  /** In every interleaving without deliveries, whatever is taken and dropped in whatever order. */
  lemma {:induction false} RunListsExact(keyOf: string -> string, s: LockState, steps: seq<Step>)
    requires ListsExact(s) && forall i | 0 <= i < |steps| :: !steps[i].DeliverStep?
    ensures ListsExact(Run(keyOf, s, steps))
    decreases |steps|
  {
    hide ListsExact, Next;
    if steps != [] {
      NextListsExact(keyOf, s, steps[0]);
      RunListsExact(keyOf, Next(keyOf, s, steps[0]), steps[1..]);
    }
  }

  // ---------- Held order ----------

  predicate Proper(n: Naming, path: string, rank: nat) {
    path in n.known && rank == n.rankOf(path)
  }

  /** Sleeping threads sleep above everything they hold, and guards are registered where they are owned. */
  ghost predicate Ordered(n: Naming, s: LockState) {
    && (forall t | t in s.waiting ::
         OrderAllows(n.keyOf, HeldBy(s, t), Place(s.waiting[t])) && Proper(n, s.waiting[t].path, s.waiting[t].rank))
    && forall p | p in s.guards ::
         Held(s.guards[p].rank, p) in HeldBy(s, s.guards[p].thread) && Proper(n, p, s.guards[p].rank)
  }

  /** Steps of threads that keep their guards and ask for each identity under one class. */
  predicate OwnThread(n: Naming, step: Step) {
    match step
    case BeginStep(_, r) => Proper(n, r.path, r.rank)
    case TryStep(_, r, _) => Proper(n, r.path, r.rank)
    case DeliverStep(_, _) => false
    case _ => true
  }

  lemma {:induction false} RemoveLastKeeps(held: seq<Held>, entry: Held, x: Held)
    ensures x in RemoveLast(held, entry) ==> x in held
    ensures x in held && x != entry ==> x in RemoveLast(held, entry)
  {
    if held != [] {
      RemoveLastKeeps(held[..|held| - 1], entry, x);
      assert held == held[..|held| - 1] + [held[|held| - 1]];
    }
  }

  lemma BeginOrdered(n: Naming, s: LockState, t: nat, r: Request)
    requires Ordered(n, s) && Proper(n, r.path, r.rank)
    ensures Ordered(n, Begin(n.keyOf, s, t, r).0)
  {
    hide OrderAllows;
    var s' := Begin(n.keyOf, s, t, r).0;
    forall u: nat ensures HeldBy(s', u) == HeldBy(s, u) {}
  }

  lemma GrantOrdered(n: Naming, s: LockState, t: nat)
    requires Ordered(n, s)
    ensures Ordered(n, Grant(s, t))
  {
    hide OrderAllows;
    var s' := Grant(s, t);
    if s' != s {
      var r := s.waiting[t];
      forall u: nat | u != t ensures HeldBy(s', u) == HeldBy(s, u) {}
      assert HeldBy(s', t) == HeldBy(s, t) + [Place(r)];
    }
  }

  lemma FailOrdered(n: Naming, s: LockState, t: nat)
    requires Ordered(n, s)
    ensures Ordered(n, Fail(s, t))
  {
    hide OrderAllows;
    forall u: nat ensures HeldBy(Fail(s, t), u) == HeldBy(s, u) {}
  }

  lemma ReleaseOrdered(n: Naming, s: LockState, t: nat, path: string)
    requires Ordered(n, s)
    ensures Ordered(n, Release(s, t, path))
  {
    hide OrderAllows, RemoveLast;
    var s' := Release(s, t, path);
    if s' != s {
      var entry := Held(s.guards[path].rank, path);
      forall u: nat | u != t ensures HeldBy(s', u) == HeldBy(s, u) {}
      forall p | p in s'.guards
        ensures Held(s'.guards[p].rank, p) in HeldBy(s', s'.guards[p].thread) && Proper(n, p, s'.guards[p].rank)
      {
        assert p in s.guards && s'.guards[p] == s.guards[p];
        RemoveLastKeeps(HeldBy(s, t), entry, Held(s.guards[p].rank, p));
      }
    }
  }

  lemma NextOrdered(n: Naming, s: LockState, step: Step)
    requires Ordered(n, s) && OwnThread(n, step)
    ensures Ordered(n, Next(n.keyOf, s, step))
  {
    hide Ordered, OrderAllows, Fail, Grant, Proper;
    match step {
      case BeginStep(t, r) => BeginOrdered(n, s, t, r);
      case GrantStep(t) => GrantOrdered(n, s, t);
      case FailStep(t) => FailOrdered(n, s, t);
      case TryStep(t, r, _) =>
        BeginOrdered(n, s, t, r);
        FailOrdered(n, Begin(n.keyOf, s, t, r).0, t);
        GrantOrdered(n, Begin(n.keyOf, s, t, r).0, t);
      case ReleaseStep(t, path) => ReleaseOrdered(n, s, t, path);
      case DeliverStep(_, _) =>
    }
  }

  lemma {:induction false} RunOrdered(n: Naming, s: LockState, steps: seq<Step>)
    requires Ordered(n, s) && forall i | 0 <= i < |steps| :: OwnThread(n, steps[i])
    ensures Ordered(n, Run(n.keyOf, s, steps))
    decreases |steps|
  {
    hide Ordered, Next, OwnThread;
    if steps != [] {
      NextOrdered(n, s, steps[0]);
      RunOrdered(n, Next(n.keyOf, s, steps[0]), steps[1..]);
    }
  }

  // ---------- Deadlock ----------

  /** Thread t sleeps on an identity whose guard u owns. */
  predicate Blocks(s: LockState, t: nat, u: nat) {
    t in s.waiting && s.waiting[t].path in s.guards && s.guards[s.waiting[t].path].thread == u
  }

  /** Each thread in turn sleeps on the next, and the last is the first again. */
  predicate WaitCycle(s: LockState, ts: seq<nat>) {
    && |ts| >= 2
    && ts[|ts| - 1] == ts[0]
    && forall i | 0 <= i < |ts| - 1 :: Blocks(s, ts[i], ts[i + 1])
  }

  // ---------- The discipline that excludes deadlock ----------

  /** The place is at or above every guard that thread t owns, whether or not t's held list shows it. */
  predicate AboveOwned(keyOf: string -> string, s: LockState, t: nat, place: Held) {
    forall p | p in s.guards && s.guards[p].thread == t :: PlaceLe(keyOf, Held(s.guards[p].rank, p), place)
  }

  /** Every sleeping thread sleeps at or above everything it owns, each identity under its one class. */
  ghost predicate Above(n: Naming, s: LockState) {
    && (forall t | t in s.waiting ::
         AboveOwned(n.keyOf, s, t, Place(s.waiting[t])) && Proper(n, s.waiting[t].path, s.waiting[t].rank))
    && forall p | p in s.guards :: Proper(n, p, s.guards[p].rank)
  }

  /** What a caller can check before a step: a request that will start lies at or above all that its thread
      owns, and a guard is delivered to a thread that is awake. */
  ghost predicate StepsAbove(n: Naming, s: LockState, step: Step) {
    match step
    case BeginStep(t, r) => Proper(n, r.path, r.rank) && (MayStart(n.keyOf, s, t, r) ==> AboveOwned(n.keyOf, s, t, Place(r)))
    case TryStep(_, r, _) => Proper(n, r.path, r.rank)
    case DeliverStep(_, to) => to !in s.waiting
    case _ => true
  }

  predicate MayStart(keyOf: string -> string, s: LockState, t: nat, r: Request) {
    Begin(keyOf, s, t, r).1 == Started
  }

  /** All steps of a run meet the discipline in the state they are taken in. */
  ghost predicate Disciplined(n: Naming, s: LockState, steps: seq<Step>)
    decreases |steps|
  {
    steps == [] || (StepsAbove(n, s, steps[0]) && Disciplined(n, Next(n.keyOf, s, steps[0]), steps[1..]))
  }

  lemma BeginAbove(n: Naming, s: LockState, t: nat, r: Request)
    requires Above(n, s) && StepsAbove(n, s, BeginStep(t, r))
    ensures Above(n, Begin(n.keyOf, s, t, r).0)
  {
    hide OrderAllows, PlaceLe;
    assert MayStart(n.keyOf, s, t, r) ==> AboveOwned(n.keyOf, s, t, Place(r));
  }

  lemma TryAbove(n: Naming, s: LockState, t: nat, r: Request, kernelOk: bool)
    requires Above(n, s) && Proper(n, r.path, r.rank)
    ensures Above(n, TryAcquire(n.keyOf, s, t, r, kernelOk))
  {
    hide OrderAllows, PlaceLe;
  }

  lemma GrantAbove(n: Naming, s: LockState, t: nat)
    requires Above(n, s)
    ensures Above(n, Grant(s, t)) && Above(n, Fail(s, t))
  {
    hide PlaceLe;
  }

  lemma ReleaseAbove(n: Naming, s: LockState, t: nat, path: string)
    requires Above(n, s)
    ensures Above(n, Release(s, t, path))
  {
    hide PlaceLe, RemoveLast;
  }

  lemma DeliverAbove(n: Naming, s: LockState, path: string, to: nat)
    requires Above(n, s) && to !in s.waiting
    ensures Above(n, Deliver(s, path, to))
  {
    hide PlaceLe;
  }

  lemma NextAbove(n: Naming, s: LockState, step: Step)
    requires Above(n, s) && StepsAbove(n, s, step)
    ensures Above(n, Next(n.keyOf, s, step))
  {
    hide Above, AboveOwned, OrderAllows, Fail, Grant, Release, Deliver, TryAcquire, Begin, Proper;
    match step {
      case BeginStep(t, r) => BeginAbove(n, s, t, r);
      case GrantStep(t) => GrantAbove(n, s, t);
      case FailStep(t) => GrantAbove(n, s, t);
      case TryStep(t, r, kernelOk) => TryAbove(n, s, t, r, kernelOk);
      case ReleaseStep(t, path) => ReleaseAbove(n, s, t, path);
      case DeliverStep(path, to) => DeliverAbove(n, s, path, to);
    }
  }

  lemma {:induction false} RunAbove(n: Naming, s: LockState, steps: seq<Step>)
    requires Above(n, s) && Disciplined(n, s, steps)
    ensures Above(n, Run(n.keyOf, s, steps))
    decreases |steps|
  {
    hide Above, Next, StepsAbove;
    if steps != [] {
      NextAbove(n, s, steps[0]);
      RunAbove(n, Next(n.keyOf, s, steps[0]), steps[1..]);
    }
  }

  // Along the blocking relation the awaited places never go down.
  lemma AwaitedPlacesRise(n: Naming, s: LockState, t: nat, u: nat)
    requires Above(n, s) && Blocks(s, t, u) && u in s.waiting
    ensures PlaceLe(n.keyOf, Place(s.waiting[t]), Place(s.waiting[u]))
  {
    hide PlaceLe;
    var p := s.waiting[t].path;
    assert Held(s.guards[p].rank, p) == Place(s.waiting[t]);
  }

  lemma {:induction false} AwaitedPlacesRiseAlong(n: Naming, s: LockState, ts: seq<nat>, i: nat, j: nat)
    requires Above(n, s) && WaitCycle(s, ts) && i <= j < |ts| - 1
    ensures ts[i] in s.waiting && ts[j] in s.waiting
    ensures PlaceLe(n.keyOf, Place(s.waiting[ts[i]]), Place(s.waiting[ts[j]]))
    decreases j - i
  {
    hide Above, PlaceLe;
    assert Blocks(s, ts[i], ts[i + 1]) && Blocks(s, ts[j], ts[j + 1]);
    if i < j {
      assert Blocks(s, ts[j - 1], ts[j]);
      AwaitedPlacesRiseAlong(n, s, ts, i, j - 1);
      AwaitedPlacesRise(n, s, ts[j - 1], ts[j]);
      PlaceTrans(n.keyOf, Place(s.waiting[ts[i]]), Place(s.waiting[ts[j - 1]]), Place(s.waiting[ts[j]]));
    } else {
      PlaceTotal(n.keyOf, Place(s.waiting[ts[i]]), Place(s.waiting[ts[i]]));
    }
  }

  lemma SamePlaceSamePath(n: Naming, a: Request, b: Request)
    requires PlacesDistinct(n) && Proper(n, a.path, a.rank) && Proper(n, b.path, b.rank)
    requires PlaceLe(n.keyOf, Place(a), Place(b)) && PlaceLe(n.keyOf, Place(b), Place(a))
    ensures a.path == b.path
  {
    PlaceTotal(n.keyOf, Place(a), Place(b));
  }

  /** When all sleep above what they own, the only possible wait cycle is one thread sleeping on its own guard. */
  lemma CyclesAreSelfWaits(n: Naming, s: LockState, ts: seq<nat>)
    requires Above(n, s) && PlacesDistinct(n) && WaitCycle(s, ts)
    ensures forall i | 0 <= i < |ts| :: ts[i] == ts[0]
    ensures Blocks(s, ts[0], ts[0])
  {
    hide PlaceLe, PlacesDistinct, AboveOwned;
    var last := |ts| - 2;
    AwaitedPlacesRiseAlong(n, s, ts, 0, last);
    forall i: nat | i <= last ensures ts[i] in s.waiting && s.waiting[ts[i]].path == s.waiting[ts[0]].path {
      AwaitedPlacesRiseAlong(n, s, ts, 0, i);
      AwaitedPlacesRiseAlong(n, s, ts, i, last);
      assert Blocks(s, ts[last], ts[last + 1]);
      AwaitedPlacesRise(n, s, ts[last], ts[0]);
      var first, here := s.waiting[ts[0]], s.waiting[ts[i]];
      PlaceTrans(n.keyOf, Place(here), Place(s.waiting[ts[last]]), Place(first));
      SamePlaceSamePath(n, first, here);
    }
    assert Blocks(s, ts[last], ts[last + 1]);
    forall i | 0 < i < |ts| ensures ts[i] == ts[0] {
      var k := i - 1;
      assert Blocks(s, ts[k], ts[k + 1]);
    }
    assert Blocks(s, ts[0], ts[1]);
  }

  // Every request so far rejects re-entry through the manager of its thread's process.
  ghost predicate Rejecting(managerOf: nat -> nat, s: LockState) {
    && (forall t | t in s.waiting :: s.waiting[t].policy.Reject? && s.waiting[t].manager == managerOf(t))
    && forall p | p in s.guards :: s.guards[p].reservation == Some(managerOf(s.guards[p].thread))
  }

  /** Requests reject re-entry through their process's manager, and guards are delivered within a process. */
  predicate RejectsThrough(managerOf: nat -> nat, s: LockState, step: Step) {
    match step
    case BeginStep(t, r) => r.policy.Reject? && r.manager == managerOf(t)
    case TryStep(t, r, _) => r.policy.Reject? && r.manager == managerOf(t)
    case DeliverStep(path, to) => path in s.guards ==> managerOf(to) == managerOf(s.guards[path].thread)
    case _ => true
  }

  ghost predicate RunRejects(keyOf: string -> string, managerOf: nat -> nat, s: LockState, steps: seq<Step>)
    decreases |steps|
  {
    steps == [] ||
    (RejectsThrough(managerOf, s, steps[0]) && RunRejects(keyOf, managerOf, Next(keyOf, s, steps[0]), steps[1..]))
  }

  lemma {:induction false} RunRejecting(keyOf: string -> string, managerOf: nat -> nat, s: LockState, steps: seq<Step>)
    requires Rejecting(managerOf, s) && RunRejects(keyOf, managerOf, s, steps)
    ensures Rejecting(managerOf, Run(keyOf, s, steps))
    decreases |steps|
  {
    hide Next, Rejecting, RejectsThrough;
    if steps != [] {
      NextRejecting(keyOf, managerOf, s, steps[0]);
      RunRejecting(keyOf, managerOf, Next(keyOf, s, steps[0]), steps[1..]);
    }
  }

  lemma NextRejecting(keyOf: string -> string, managerOf: nat -> nat, s: LockState, step: Step)
    requires Rejecting(managerOf, s) && RejectsThrough(managerOf, s, step)
    ensures Rejecting(managerOf, Next(keyOf, s, step))
  {
    hide OrderAllows, RemoveLast, HeldBy;
  }

  lemma NoSelfWait(managerOf: nat -> nat, s: LockState, t: nat)
    requires ReservationsExact(s) && Rejecting(managerOf, s)
    ensures !Blocks(s, t, t)
  {
    if t in s.waiting {
      assert ReservedByWaiter(s, t, managerOf(t), s.waiting[t].path);
    }
  }

  /** From the idle state, threads of any number of processes whose requests lie at or above all they own,
      delivered guards included, and reject re-entry never reach a wait cycle, however they interleave. */
  lemma DisciplineExcludesDeadlock(n: Naming, managerOf: nat -> nat, steps: seq<Step>, ts: seq<nat>)
    requires PlacesDistinct(n)
    requires Disciplined(n, Idle, steps) && RunRejects(n.keyOf, managerOf, Idle, steps)
    ensures !WaitCycle(Run(n.keyOf, Idle, steps), ts)
  {
    RunReserves(n.keyOf, Idle, steps);
    RunAbove(n, Idle, steps);
    RunRejecting(n.keyOf, managerOf, Idle, steps);
    var s := Run(n.keyOf, Idle, steps);
    hide Run, Above, ReservationsExact, Rejecting, Disciplined, RunRejects, PlacesDistinct;
    if WaitCycle(s, ts) {
      CyclesAreSelfWaits(n, s, ts);
      NoSelfWait(managerOf, s, ts[0]);
    }
  }

  /** Without the rejection policy every wait cycle is still a single thread re-entering its own lock. */
  lemma OnlySelfWaits(n: Naming, steps: seq<Step>, ts: seq<nat>)
    requires PlacesDistinct(n) && Disciplined(n, Idle, steps)
    requires WaitCycle(Run(n.keyOf, Idle, steps), ts)
    ensures forall i | 0 <= i < |ts| :: ts[i] == ts[0]
  {
    RunAbove(n, Idle, steps);
    CyclesAreSelfWaits(n, Run(n.keyOf, Idle, steps), ts);
  }

  // ---------- Threads that keep their guards ----------

  /** Steps of threads that keep their guards, ask for each identity under one class and reject re-entry. */
  ghost predicate OwnRejecting(n: Naming, managerOf: nat -> nat, steps: seq<Step>) {
    forall i | 0 <= i < |steps| :: OwnThread(n, steps[i]) && RejectsThrough(managerOf, Idle, steps[i])
  }

  // What a thread owns is on its list, so the order check already keeps its requests above it.
  lemma OrderedSteps(n: Naming, s: LockState, step: Step)
    requires Ordered(n, s) && OwnThread(n, step)
    ensures StepsAbove(n, s, step)
  {
    if step.BeginStep? && MayStart(n.keyOf, s, step.t, step.r) {
      hide PlaceLe;
      forall p | p in s.guards && s.guards[p].thread == step.t
        ensures PlaceLe(n.keyOf, Held(s.guards[p].rank, p), Place(step.r))
      {
        var entry := Held(s.guards[p].rank, p);
        var i :| 0 <= i < |HeldBy(s, step.t)| && HeldBy(s, step.t)[i] == entry;
      }
    }
  }

  lemma {:induction false} OwnIsDisciplined(n: Naming, managerOf: nat -> nat, s: LockState, steps: seq<Step>)
    requires Ordered(n, s) && OwnRejecting(n, managerOf, steps)
    ensures Disciplined(n, s, steps) && RunRejects(n.keyOf, managerOf, s, steps)
    decreases |steps|
  {
    hide Ordered, Next, StepsAbove;
    if steps != [] {
      OrderedSteps(n, s, steps[0]);
      NextOrdered(n, s, steps[0]);
      OwnIsDisciplined(n, managerOf, Next(n.keyOf, s, steps[0]), steps[1..]);
    }
  }

  /** Threads that keep their guards meet the discipline through the code's own check, so they never deadlock. */
  lemma HierarchyExcludesDeadlock(n: Naming, managerOf: nat -> nat, steps: seq<Step>, ts: seq<nat>)
    requires PlacesDistinct(n) && OwnRejecting(n, managerOf, steps)
    ensures !WaitCycle(Run(n.keyOf, Idle, steps), ts)
  {
    OwnIsDisciplined(n, managerOf, Idle, steps);
    DisciplineExcludesDeadlock(n, managerOf, steps, ts);
  }

  /** A blocking request puts its thread to sleep on itself exactly when the thread owns the identity and
      the rejection does not apply: it queues, or the guard is not reserved through the same manager. */
  lemma SelfWaitIff(n: Naming, s: LockState, t: nat, r: Request)
    requires ReservationsExact(s) && t !in s.waiting
    requires r.path in s.guards && s.guards[r.path].thread == t
    ensures Blocks(Begin(n.keyOf, s, t, r).0, t, t) <==>
      && OrderAllows(n.keyOf, HeldBy(s, t), Place(r))
      && (r.policy.Queue? || (
            s.guards[r.path].reservation != Some(r.manager) &&
            forall u: nat :: !ReservedByWaiter(s, u, r.manager, r.path)))
  {
    hide OrderAllows;
  }

  // ---------- Where the guarantee stops ----------

  /** Taking an identity twice on one thread puts the thread to sleep on itself exactly when the second
      request queues or goes through another manager than a rejecting first. */
  lemma ReentryBlocksItselfIff(keyOf: string -> string, t: nat, r: Request, again: Request)
    requires again.path == r.path && again.rank == r.rank
    ensures WaitCycle(Run(keyOf, Idle, [BeginStep(t, r), GrantStep(t), BeginStep(t, again)]), [t, t]) <==>
      again.policy.Queue? || r.policy.Queue? || again.manager != r.manager
  {
    PlaceTotal(keyOf, Place(r), Place(r));
    RunThree(keyOf, Idle, BeginStep(t, r), GrantStep(t), BeginStep(t, again));
    var s1 := Begin(keyOf, Idle, t, r).0;
    assert s1.waiting == map[t := r];
    var s2 := Grant(s1, t);
    assert s2.waiting == map[];
    assert HeldBy(s2, t) == [Place(r)];
    var s := Begin(keyOf, s2, t, again).0;
    assert WaitCycle(s, [t, t]) ==> Blocks(s, [t, t][0], [t, t][0 + 1]);
  }

  lemma RunThree(keyOf: string -> string, s: LockState, a: Step, b: Step, c: Step)
    ensures Run(keyOf, s, [a, b, c]) == Next(keyOf, Next(keyOf, Next(keyOf, s, a), b), c)
  {
    hide Next;
    assert [a, b, c][1..] == [b, c] && [b, c][1..] == [c] && [c][1..] == [];
    assert Run(keyOf, Next(keyOf, Next(keyOf, s, a), b), [c]) == Next(keyOf, Next(keyOf, Next(keyOf, s, a), b), c);
  }

  lemma RunAppend(keyOf: string -> string, s: LockState, first: seq<Step>, rest: seq<Step>)
    ensures Run(keyOf, s, first + rest) == Run(keyOf, Run(keyOf, s, first), rest)
    decreases |first|
  {
    hide Next;
    if first == [] {
      assert first + rest == rest;
    } else {
      assert (first + rest)[1..] == first[1..] + rest;
      RunAppend(keyOf, Next(keyOf, s, first[0]), first[1..], rest);
    }
  }

  lemma Acquires(keyOf: string -> string, s: LockState, t: nat, r: Request)
    requires s.waiting == map[] && t !in s.held && r.path !in s.guards
    requires r.policy.Reject? && (r.manager, r.path) !in s.reserved
    ensures Run(keyOf, s, [BeginStep(t, r), GrantStep(t)]) == LockState(
      s.held[t := [Place(r)]], s.guards[r.path := Guard(t, r.rank, Some(r.manager))], map[],
      s.reserved + {(r.manager, r.path)})
  {
    RunTwo(keyOf, s, BeginStep(t, r), GrantStep(t));
    var s1 := Begin(keyOf, s, t, r).0;
    assert s1.waiting == map[t := r];
    var s2 := Grant(s1, t);
    assert s2.waiting == map[];
    assert s2.held == s.held[t := [Place(r)]] by { assert HeldBy(s1, t) + [Place(r)] == [Place(r)]; }
  }

  lemma RunTwo(keyOf: string -> string, s: LockState, a: Step, b: Step)
    ensures Run(keyOf, s, [a, b]) == Next(keyOf, Next(keyOf, s, a), b)
  {
    hide Next;
    assert [a, b][1..] == [b] && [b][1..] == [];
    assert Run(keyOf, Next(keyOf, s, a), [b]) == Next(keyOf, Next(keyOf, s, a), b);
  }

  // The manager of another process asks for the same identity.
  function Through(r: Request, manager: nat): Request {
    r.(manager := manager)
  }

  // Threads t and u, which own a and b, ask for each other's identity through their own managers.
  function Crossing(t: nat, a: Request, u: nat, b: Request): seq<Step> {
    [BeginStep(t, Through(b, a.manager)), BeginStep(u, Through(a, b.manager))]
  }

  lemma CrossingCycles(keyOf: string -> string, s: LockState, t: nat, a: Request, u: nat, b: Request)
    requires s.waiting == map[] && t != u && a.path != b.path && a.policy.Reject? && b.policy.Reject?
    requires a.path in s.guards && s.guards[a.path].thread == t && b.path in s.guards && s.guards[b.path].thread == u
    requires s.reserved == {(a.manager, a.path), (b.manager, b.path)} && a.manager != b.manager
    ensures WaitCycle(Run(keyOf, s, Crossing(t, a, u, b)), [t, u, t]) <==>
      OrderAllows(keyOf, HeldBy(s, t), Place(b)) && OrderAllows(keyOf, HeldBy(s, u), Place(a))
  {
    hide OrderAllows;
    var first, second := Through(b, a.manager), Through(a, b.manager);
    RunTwo(keyOf, s, BeginStep(t, first), BeginStep(u, second));
    var s1 := Begin(keyOf, s, t, first).0;
    var s2 := Begin(keyOf, s1, u, second).0;
    assert HeldBy(s1, u) == HeldBy(s, u);
    assert Place(first) == Place(b) && Place(second) == Place(a);
    var ts := [t, u, t];
    assert WaitCycle(s2, ts) ==> Blocks(s2, ts[0], ts[0 + 1]) && Blocks(s2, ts[1], ts[1 + 1]);
    hide Begin;
    assert Blocks(s2, t, u) && Blocks(s2, u, t) ==> WaitCycle(s2, ts);
  }

  lemma OneHeld(keyOf: string -> string, held: seq<Held>, entry: Held, place: Held)
    requires held == [entry]
    ensures OrderAllows(keyOf, held, place) <==> PlaceLe(keyOf, entry, place)
  {
    hide PlaceLe;
    assert OrderAllows(keyOf, held, place) ==> PlaceLe(keyOf, held[0], place);
  }

  /** Two threads that keep their guards and ask for each other's identity block each other exactly when
      rank and key do not tell the identities apart. */
  lemma KeptGuardsCycleIff(keyOf: string -> string, t: nat, a: Request, u: nat, b: Request)
    requires t != u && a.path != b.path && a.policy.Reject? && b.policy.Reject? && a.manager != b.manager
    ensures WaitCycle(Run(keyOf, Idle, KeptGuards(t, a, u, b)), [t, u, t]) <==> a.rank == b.rank && keyOf(a.path) == keyOf(b.path)
  {
    hide PlaceLe;
    var first, second := [BeginStep(t, a), GrantStep(t)], [BeginStep(u, b), GrantStep(u)];
    Acquires(keyOf, Idle, t, a);
    var s1 := Run(keyOf, Idle, first);
    Acquires(keyOf, s1, u, b);
    var s2 := Run(keyOf, s1, second);
    RunAppend(keyOf, Idle, first + second, Crossing(t, a, u, b));
    RunAppend(keyOf, Idle, first, second);
    hide Run, WaitCycle;
    assert s2.reserved == {(a.manager, a.path), (b.manager, b.path)};
    CrossingCycles(keyOf, s2, t, a, u, b);
    OneHeld(keyOf, HeldBy(s2, t), Place(a), Place(b));
    OneHeld(keyOf, HeldBy(s2, u), Place(b), Place(a));
    PlacesLevel(keyOf, Place(a), Place(b));
  }

  function KeptGuards(t: nat, a: Request, u: nat, b: Request): seq<Step> {
    [BeginStep(t, a), GrantStep(t)] + [BeginStep(u, b), GrantStep(u)] + Crossing(t, a, u, b)
  }

  lemma PlacesLevel(keyOf: string -> string, a: Held, b: Held)
    ensures PlaceLe(keyOf, a, b) && PlaceLe(keyOf, b, a) <==> a.rank == b.rank && keyOf(a.path) == keyOf(b.path)
  {
    PlaceTotal(keyOf, a, b);
    if a.rank == b.rank && keyOf(a.path) == keyOf(b.path) { LexTotal(keyOf(a.path), keyOf(b.path)); }
  }

  lemma CollidingPlacesDeadlock(n: Naming, p: string, q: string) returns (managerOf: nat -> nat, steps: seq<Step>)
    requires p in n.known && q in n.known && p != q && n.rankOf(p) == n.rankOf(q) && n.keyOf(p) == n.keyOf(q)
    ensures OwnRejecting(n, managerOf, steps) && WaitCycle(Run(n.keyOf, Idle, steps), [1, 2, 1])
  {
    managerOf := (t: nat) => t;
    var a, b := Request(p, n.rankOf(p), Reject, 1), Request(q, n.rankOf(q), Reject, 2);
    steps := KeptGuards(1, a, 2, b);
    KeptGuardsCycleIff(n.keyOf, 1, a, 2, b);
    hide Run, WaitCycle;
    forall i | 0 <= i < |steps| ensures OwnThread(n, steps[i]) && RejectsThrough(managerOf, Idle, steps[i]) {
      assert steps[i] in {BeginStep(1, a), GrantStep(1), BeginStep(2, b), GrantStep(2),
                          BeginStep(1, Through(b, 1)), BeginStep(2, Through(a, 2))};
    }
  }

  /** Threads that keep their guards, name each identity under one class and reject re-entry are free of
      deadlock exactly when no two known identities share rank and sort key. */
  lemma DeadlockFreeIff(n: Naming)
    ensures PlacesDistinct(n) <==>
      forall managerOf: nat -> nat, steps, ts | OwnRejecting(n, managerOf, steps) :: !WaitCycle(Run(n.keyOf, Idle, steps), ts)
  {
    hide OwnRejecting, WaitCycle, Run;
    if PlacesDistinct(n) {
      hide PlacesDistinct;
      forall managerOf: nat -> nat, steps, ts | OwnRejecting(n, managerOf, steps)
        ensures !WaitCycle(Run(n.keyOf, Idle, steps), ts)
      {
        HierarchyExcludesDeadlock(n, managerOf, steps, ts);
      }
    } else {
      var p, q :| p in n.known && q in n.known && n.rankOf(p) == n.rankOf(q) && n.keyOf(p) == n.keyOf(q) && p != q;
      var managerOf, steps := CollidingPlacesDeadlock(n, p, q);
    }
  }

  /** A receiver of the guard a, delivered by a worker, and the owner of b that ask for each other's identity
      block each other exactly when the receiver asks below its unlisted guard. */
  lemma DeliveredGuardCyclesIff(keyOf: string -> string, worker: nat, t: nat, a: Request, u: nat, b: Request)
    requires worker != t && t != u && u != worker && a.path != b.path
    requires a.policy.Reject? && b.policy.Reject? && a.manager != b.manager
    ensures WaitCycle(Run(keyOf, Idle, DeliveredGuard(worker, t, a, u, b)), [t, u, t]) <==> PlaceLe(keyOf, Place(b), Place(a))
  {
    hide PlaceLe;
    var first, second := [BeginStep(worker, a), GrantStep(worker), DeliverStep(a.path, t)], [BeginStep(u, b), GrantStep(u)];
    HandOver(keyOf, Idle, worker, a, t);
    var s1 := Run(keyOf, Idle, first);
    Acquires(keyOf, s1, u, b);
    var s2 := Run(keyOf, s1, second);
    RunAppend(keyOf, Idle, first + second, Crossing(t, a, u, b));
    RunAppend(keyOf, Idle, first, second);
    hide Run, WaitCycle;
    assert s2.reserved == {(a.manager, a.path), (b.manager, b.path)};
    CrossingCycles(keyOf, s2, t, a, u, b);
    OneHeld(keyOf, HeldBy(s2, u), Place(b), Place(a));
  }

  function DeliveredGuard(worker: nat, t: nat, a: Request, u: nat, b: Request): seq<Step> {
    [BeginStep(worker, a), GrantStep(worker), DeliverStep(a.path, t)] + [BeginStep(u, b), GrantStep(u)] + Crossing(t, a, u, b)
  }

  lemma HandOver(keyOf: string -> string, s: LockState, worker: nat, r: Request, to: nat)
    requires s.waiting == map[] && worker !in s.held && r.path !in s.guards
    requires r.policy.Reject? && (r.manager, r.path) !in s.reserved
    ensures Run(keyOf, s, [BeginStep(worker, r), GrantStep(worker), DeliverStep(r.path, to)]) == LockState(
      s.held[worker := [Place(r)]], s.guards[r.path := Guard(to, r.rank, Some(r.manager))], map[],
      s.reserved + {(r.manager, r.path)})
  {
    RunThree(keyOf, s, BeginStep(worker, r), GrantStep(worker), DeliverStep(r.path, to));
    var s1 := Begin(keyOf, s, worker, r).0;
    assert s1.waiting == map[worker := r];
    var s2 := Grant(s1, worker);
    assert s2.waiting == map[];
    assert s2.held == s.held[worker := [Place(r)]] by { assert HeldBy(s1, worker) + [Place(r)] == [Place(r)]; }
    var s3 := Deliver(s2, r.path, to);
    assert s3.guards == s.guards[r.path := Guard(to, r.rank, Some(r.manager))];
    assert s3.held == s2.held && s3.waiting == map[] && s3.reserved == s.reserved + {(r.manager, r.path)};
  }

  /** Guards handed over from waiter threads leave no trace on their receivers' held lists. So two
      receivers in different processes that then ask for each other's identity sleep on each other for
      ever, under every naming and although every request rejects re-entry. */
  lemma DeliveredGuardsCanDeadlock(keyOf: string -> string)
    ensures var a, b := Request("a", 10, Reject, 0), Request("b", 10, Reject, 1);
      var handedOver := [BeginStep(11, a), GrantStep(11), DeliverStep("a", 1)] + [BeginStep(12, b), GrantStep(12), DeliverStep("b", 2)];
      WaitCycle(Run(keyOf, Run(keyOf, Idle, handedOver), Crossing(1, a, 2, b)), [1, 2, 1])
  {
    var a, b := Request("a", 10, Reject, 0), Request("b", 10, Reject, 1);
    var first := [BeginStep(11, a), GrantStep(11), DeliverStep("a", 1)];
    var second := [BeginStep(12, b), GrantStep(12), DeliverStep("b", 2)];
    assert a.path != b.path by { assert a.path[0] != b.path[0]; }
    RunAppend(keyOf, Idle, first, second);
    HandOver(keyOf, Idle, 11, a, 1);
    var s1 := Run(keyOf, Idle, first);
    HandOver(keyOf, s1, 12, b, 2);
    var s := Run(keyOf, s1, second);
    hide Run, WaitCycle;
    assert HeldBy(s, 1) == [] && HeldBy(s, 2) == [];
    assert s.reserved == {(a.manager, a.path), (b.manager, b.path)};
    CrossingCycles(keyOf, s, 1, a, 2, b);
  }
}
