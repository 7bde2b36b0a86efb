/** The bounded count of background waiters, kept by compare-and-swap. */
module WaiterLimiter {

  // Callers of `reserve` are numbered; `observed` is each caller's last read of the counter.
  datatype State = State(limit: nat, active: nat, permits: set<nat>, observed: map<nat, nat>, refused: set<nat>)

  // `max_waiters` raises the limit to one.
  function Built(maxWaiters: nat): State {
    State(if maxWaiters < 1 then 1 else maxWaiters, 0, {}, map[], {})
  }

  datatype Step =
    | Load(c: nat)
    | CompareExchangeWeak(c: nat, spurious: bool)
    | DropPermit(c: nat)

  // One pass of the reserve loop: refuse at the limit, else try the swap.
  function Next(s: State, step: Step): State {
    match step
    case Load(c) =>
      if c in s.permits || c in s.refused || c in s.observed then s
      else s.(observed := s.observed[c := s.active])
    case CompareExchangeWeak(c, spurious) =>
      if c !in s.observed then s
      else if s.observed[c] >= s.limit then s.(observed := s.observed - {c}, refused := s.refused + {c})
      else if s.active == s.observed[c] && !spurious then
        s.(active := s.active + 1, permits := s.permits + {c}, observed := s.observed - {c})
      else s.(observed := s.observed[c := s.active])
    case DropPermit(c) =>
      if c in s.permits && s.active > 0 then s.(active := s.active - 1, permits := s.permits - {c}) else s
  }

  function Run(s: State, steps: seq<Step>): State
    decreases |steps|
  {
    if steps == [] then s else Run(Next(s, steps[0]), steps[1..])
  }

  ghost predicate LimiterInvariant(s: State) {
    && s.limit >= 1
    && s.active == |s.permits| <= s.limit
    && (forall c | c in s.observed :: c !in s.permits && s.observed[c] <= s.limit)
    && s.refused !! s.permits && s.refused !! s.observed.Keys
  }

  lemma {:induction false} RunKeepsInvariant(s: State, steps: seq<Step>)
    requires LimiterInvariant(s)
    ensures LimiterInvariant(Run(s, steps))
    decreases |steps|
  {
    if steps != [] {
      assert LimiterInvariant(Next(s, steps[0]));
      hide Next, LimiterInvariant;
      RunKeepsInvariant(Next(s, steps[0]), steps[1..]);
    }
  }

  /** In every interleaving the counter is the number of live permits, within the limit, spurious failures
      or not; and dropping a live permit never finds the counter at zero. */
  lemma ActiveIsLivePermits(maxWaiters: nat, steps: seq<Step>)
    ensures var s := Run(Built(maxWaiters), steps);
      && s.active == |s.permits| <= s.limit
      && (s.permits != {} ==> s.active > 0)
  {
    RunKeepsInvariant(Built(maxWaiters), steps);
    hide Run;
  }

  /** A caller is only ever refused after reading a full counter, and an undisturbed caller that read free
      room gets a permit. */
  lemma RefusedOnlyWhenFull(maxWaiters: nat, steps: seq<Step>, c: nat)
    ensures var s := Run(Built(maxWaiters), steps);
      c in s.observed ==>
        && (c in Next(s, CompareExchangeWeak(c, true)).refused && c !in s.refused ==> s.observed[c] == s.limit)
        && (s.observed[c] == s.active < s.limit ==> c in Next(s, CompareExchangeWeak(c, false)).permits)
  {
    RunKeepsInvariant(Built(maxWaiters), steps);
    hide Run;
  }

  /** Dropping a live permit takes exactly that permit away and makes room for one more. */
  lemma DroppedPermitReturns(maxWaiters: nat, steps: seq<Step>, c: nat)
    requires c in Run(Built(maxWaiters), steps).permits
    ensures var s := Run(Built(maxWaiters), steps);
      Next(s, DropPermit(c)).permits == s.permits - {c} && Next(s, DropPermit(c)).active == s.active - 1
  {
    RunKeepsInvariant(Built(maxWaiters), steps);
    hide Run;
  }

  /** A swap that fails, spuriously or because another caller was faster, gives nobody a permit and leaves the
      caller trying with the value it found. */
  lemma FailedSwapRetries(s: State, c: nat, spurious: bool)
    requires c in s.observed && s.observed[c] < s.limit && (spurious || s.observed[c] != s.active)
    ensures Next(s, CompareExchangeWeak(c, spurious)) == s.(observed := s.observed[c := s.active])
  {
  }

  /** A refusal is final for its caller: it never holds a permit afterwards. */
  lemma {:induction false} RefusalIsFinal(s: State, steps: seq<Step>, c: nat)
    requires LimiterInvariant(s) && c in s.refused
    ensures c in Run(s, steps).refused && c !in Run(s, steps).permits
    decreases |steps|
  {
    if steps != [] {
      assert LimiterInvariant(Next(s, steps[0])) && c in Next(s, steps[0]).refused;
      hide Next, LimiterInvariant;
      RefusalIsFinal(Next(s, steps[0]), steps[1..], c);
    }
  }
}
