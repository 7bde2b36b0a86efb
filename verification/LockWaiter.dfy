/** The one-shot waiter: a worker thread settles an acquisition result, a receiver may wait, time out,
    poll, or drop. Every critical section of the shared mutex is one step; steps interleave freely. */
module LockWaiter {
  import opened Wrappers

  // `carried` is the waker the worker took from the shared slot and still has to wake.
  datatype Worker =
    | Acquiring
    | Holding(result: nat)
    | Publishing(carried: Option<nat>)
    | Waking(carried: Option<nat>)
    | Finished
    | Panicked

  datatype Receiver =
    | Idle
    | Running(timed: bool)
    | Asleep(timed: bool)
    | Joining(taken: nat)
    | Cancelling
    | Gone

  datatype State = State(
    worker: Worker,
    slot: Option<nat>, receiverAlive: bool, waker: Option<nat>,
    receiver: Receiver, completed: bool, hook: bool,
    // history
    produced: Option<nat>, returned: seq<nat>, dropped: seq<nat>, hookRuns: nat,
    woken: set<nat>, pending: Option<nat>)

  const Start := State(Acquiring, None, true, None, Idle, false, true, None, [], [], 0, {}, None)

  datatype Step =
    | Produce(r: nat)              // the native acquisition returns (a panic is a result as well)
    | Settle                       // publish, or release when the receiver has gone
    | NotifyAll
    | WakeWaker(panics: bool)
    | CallWait(withTimeout: bool)  // `wait` or `wait_timeout` is entered
    | Check(expired: bool)         // under the mutex: take, give up, or go to sleep
    | SpuriousWake
    | TimeOut                      // the timed condvar wait runs out
    | Poll(w: nat)
    | Join                         // the worker has ended: hand the taken result to the caller
    | SuppressHook
    | DropWaiter                   // run the cancel hook unless completed
    | DropUnderLock

  function OptionToSeq(o: Option<nat>): seq<nat> {
    if o.Some? then [o.value] else []
  }

  function Next(s: State, step: Step): State {
    match step
    case Produce(r) =>
      if s.worker.Acquiring? then s.(worker := Holding(r), produced := Some(r)) else s
    case Settle =>
      if !s.worker.Holding? then s
      else if s.receiverAlive then
        s.(slot := Some(s.worker.result), worker := Publishing(s.waker), waker := None)
      else s.(worker := Finished, dropped := s.dropped + [s.worker.result])
    case NotifyAll =>
      if !s.worker.Publishing? then s
      else s.(worker := Waking(s.worker.carried),
              receiver := if s.receiver.Asleep? then Running(s.receiver.timed) else s.receiver)
    case WakeWaker(panics) =>
      if !s.worker.Waking? then s
      else s.(worker := if panics && s.worker.carried.Some? then Panicked else Finished,
              woken := s.woken + (if s.worker.carried.Some? then {s.worker.carried.value} else {}))
    case CallWait(withTimeout) =>
      if s.receiver.Idle? && !s.completed then s.(receiver := Running(withTimeout)) else s
    case Check(expired) =>
      if !s.receiver.Running? then s
      else if s.slot.Some? then Take(s)
      else if s.receiver.timed && expired then s.(receiver := Idle)
      else s.(receiver := Asleep(s.receiver.timed))
    case SpuriousWake =>
      if s.receiver.Asleep? then s.(receiver := Running(s.receiver.timed)) else s
    case TimeOut =>
      if !(s.receiver.Asleep? && s.receiver.timed) then s
      else s.(receiver := if s.slot.None? then Idle else Running(true))
    case Poll(w) =>
      if !s.receiver.Idle? || s.completed then s
      else if s.slot.Some? then Take(s)
      else s.(waker := Some(w), pending := Some(w))
    case Join =>
      if !s.receiver.Joining? then s
      else if s.worker.Finished? then s.(receiver := Idle, returned := s.returned + [s.receiver.taken])
      else if s.worker.Panicked? then s.(receiver := Idle, dropped := s.dropped + [s.receiver.taken])
      else s
    case SuppressHook =>
      if s.receiver.Idle? then s.(hook := false) else s
    case DropWaiter =>
      if !s.receiver.Idle? then s
      else if s.completed then s.(receiver := Gone)
      else s.(receiver := Cancelling, hook := false, hookRuns := s.hookRuns + (if s.hook then 1 else 0), pending := None)
    case DropUnderLock =>
      if !s.receiver.Cancelling? then s
      else s.(receiver := Gone, receiverAlive := false, waker := None, slot := None,
              dropped := s.dropped + OptionToSeq(s.slot))
  }

  // Take the published result: the waiter is complete and its hook is gone.
  function Take(s: State): State
    requires s.slot.Some?
  {
    s.(slot := None, receiver := Joining(s.slot.value), completed := true, hook := false, pending := None)
  }

  function Run(s: State, steps: seq<Step>): State
    decreases |steps|
  {
    if steps == [] then s else Run(Next(s, steps[0]), steps[1..])
  }

  // ---------- Where the result is ----------

  function One(b: bool): nat {
    if b then 1 else 0
  }

  // How many copies of a result exist before the end of its journey.
  function InFlight(s: State): nat {
    One(s.worker.Holding?) + One(s.slot.Some?) + One(s.receiver.Joining?)
  }

  /** Whatever was produced is in exactly one place, unaltered. */
  predicate Conserved(s: State) {
    && InFlight(s) + |s.returned| + |s.dropped| == One(s.produced.Some?)
    && (s.worker.Holding? ==> s.produced == Some(s.worker.result))
    && (s.slot.Some? ==> s.produced == s.slot)
    && (s.receiver.Joining? ==> s.produced == Some(s.receiver.taken))
    && (|s.returned| == 1 ==> s.produced == Some(s.returned[0]))
    && (|s.dropped| == 1 ==> s.produced == Some(s.dropped[0]))
  }

  predicate Unsettled(w: Worker) {
    w.Acquiring? || w.Holding?
  }

  ghost predicate WaiterInvariant(s: State) {
    && Conserved(s)
    && (s.worker.Acquiring? <==> s.produced.None?)
    && (s.receiverAlive || (s.receiver.Gone? && s.slot.None? && !s.completed && s.waker.None? && s.pending.None?))
    && (s.receiver.Gone? && !s.completed ==> !s.receiverAlive)
    && (s.completed ==> s.slot.None? && !Unsettled(s.worker) && (s.receiver.Joining? || |s.returned| + |s.dropped| > 0))
    && (s.receiver.Joining? ==> s.completed)
    && (s.receiver.Cancelling? ==> s.pending.None?)
    && (s.receiver.Running? || s.receiver.Asleep? || s.receiver.Cancelling? ==> !s.completed)
    && (s.receiverAlive && !s.completed ==> (s.slot.None? <==> Unsettled(s.worker)))
    && (s.receiver.Asleep? ==> Unsettled(s.worker) || s.worker.Publishing?)
    && (s.waker.Some? ==> Unsettled(s.worker))
    && (s.completed ==> !s.hook)
    && (Unsettled(s.worker) ==> s.woken == {})
    && s.hookRuns + (if s.hook then 1 else 0) <= 1
    && (s.pending.Some? ==> !s.completed)
    && (s.pending.Some? ==>
      || (Unsettled(s.worker) && s.waker == s.pending)
      || s.worker == Publishing(s.pending)
      || s.worker == Waking(s.pending)
      || s.pending.value in s.woken)
  }

  lemma WorkerKeepsInvariant(s: State, step: Step)
    requires WaiterInvariant(s) && (step.Produce? || step.Settle? || step.NotifyAll? || step.WakeWaker?)
    ensures WaiterInvariant(Next(s, step))
  {
  }

  lemma WaitKeepsInvariant(s: State, step: Step)
    requires WaiterInvariant(s) && (step.CallWait? || step.Check? || step.SpuriousWake? || step.TimeOut?)
    ensures WaiterInvariant(Next(s, step))
  {
  }

  lemma PollKeepsInvariant(s: State, step: Step)
    requires WaiterInvariant(s) && (step.Poll? || step.SuppressHook?)
    ensures WaiterInvariant(Next(s, step))
  {
  }

  lemma JoinKeepsInvariant(s: State)
    requires WaiterInvariant(s)
    ensures WaiterInvariant(Next(s, Join))
  {
  }

  lemma DropKeepsInvariant(s: State, step: Step)
    requires WaiterInvariant(s) && (step.DropWaiter? || step.DropUnderLock?)
    ensures WaiterInvariant(Next(s, step))
  {
  }

  lemma StepKeepsInvariant(s: State, step: Step)
    requires WaiterInvariant(s)
    ensures WaiterInvariant(Next(s, step))
  {
    hide WaiterInvariant, Next;
    match step
    case Produce(_) => WorkerKeepsInvariant(s, step);
    case Settle => WorkerKeepsInvariant(s, step);
    case NotifyAll => WorkerKeepsInvariant(s, step);
    case WakeWaker(_) => WorkerKeepsInvariant(s, step);
    case CallWait(_) => WaitKeepsInvariant(s, step);
    case Check(_) => WaitKeepsInvariant(s, step);
    case SpuriousWake => WaitKeepsInvariant(s, step);
    case TimeOut => WaitKeepsInvariant(s, step);
    case Poll(_) => PollKeepsInvariant(s, step);
    case SuppressHook => PollKeepsInvariant(s, step);
    case Join => JoinKeepsInvariant(s);
    case DropWaiter => DropKeepsInvariant(s, step);
    case DropUnderLock => DropKeepsInvariant(s, step);
  }

  lemma {:induction false} RunKeepsInvariant(s: State, steps: seq<Step>)
    requires WaiterInvariant(s)
    ensures WaiterInvariant(Run(s, steps))
    decreases |steps|
  {
    hide WaiterInvariant, Next;
    if steps != [] {
      StepKeepsInvariant(s, steps[0]);
      RunKeepsInvariant(Next(s, steps[0]), steps[1..]);
    }
  }

  /** In every interleaving the result is returned or dropped at most once in all, and once the worker has
      ended and the receiver is gone, exactly once; a result returned is the one produced. */
  lemma DeliveredExactlyOnce(steps: seq<Step>)
    ensures var s := Run(Start, steps);
      && |s.returned| + |s.dropped| <= 1
      && (|s.returned| + |s.dropped| == 1 ==> s.produced.Some? && s.returned + s.dropped == [s.produced.value])
      && ((s.worker.Finished? || s.worker.Panicked?) && s.receiver.Gone? ==> |s.returned| + |s.dropped| == 1)
  {
    RunKeepsInvariant(Start, steps);
    hide Run;
  }

  /** After the receiver has dropped the slot is empty, now and after any further steps. */
  lemma SlotStaysEmptyAfterDrop(steps: seq<Step>, more: seq<Step>)
    requires !Run(Start, steps).receiverAlive
    ensures Run(Run(Start, steps), more).slot == None
  {
    RunKeepsInvariant(Start, steps);
    StaysDetached(Run(Start, steps), more);
    RunKeepsInvariant(Run(Start, steps), more);
  }

  lemma {:induction false} StaysDetached(s: State, steps: seq<Step>)
    requires !s.receiverAlive
    ensures !Run(s, steps).receiverAlive
    decreases |steps|
  {
    if steps != [] {
      assert !Next(s, steps[0]).receiverAlive;
      hide Next;
      StaysDetached(Next(s, steps[0]), steps[1..]);
    }
  }

  /** The cancel hook runs at most once, and never once the waiter is complete. */
  lemma HookAtMostOnce(steps: seq<Step>, step: Step)
    ensures var s := Run(Start, steps);
      && s.hookRuns <= 1
      && (s.completed ==> Next(s, step).hookRuns == s.hookRuns)
  {
    RunKeepsInvariant(Start, steps);
    hide Run;
  }

  /** No published result is missed: nobody sleeps past the notification, and the waker of the last
      pending poll is woken by the time the worker ends. */
  lemma NoLostWakeup(steps: seq<Step>)
    ensures var s := Run(Start, steps);
      && (s.worker.Waking? || s.worker.Finished? || s.worker.Panicked? ==> !s.receiver.Asleep?)
      && (s.pending.Some? && (s.worker.Finished? || s.worker.Panicked?) ==> s.pending.value in s.woken)
      && (s.pending.Some? && s.slot.None? ==> s.waker == s.pending)
  {
    RunKeepsInvariant(Start, steps);
    hide Run;
  }

  /** The protocol never jams: in every reachable state where the worker has ended, a running wait and an
      unfinished poll take the result in one step, and a join ends in one step: it hands the result to the
      caller if the worker finished, and drops it if the worker panicked while waking the receiver. */
  lemma EndedWorkerServesReceiver(steps: seq<Step>)
    ensures var s := Run(Start, steps);
      s.worker.Finished? || s.worker.Panicked? ==>
        && s.produced.Some?
        && (s.receiver.Running? ==> Next(s, Check(false)).receiver == Joining(s.produced.value))
        && (s.receiver.Idle? && !s.completed ==> forall w: nat :: Next(s, Poll(w)).receiver == Joining(s.produced.value))
        && (s.receiver.Joining? ==>
             && Next(s, Join).receiver.Idle?
             && Next(s, Join).returned == s.returned + (if s.worker.Finished? then [s.receiver.taken] else [])
             && Next(s, Join).dropped == s.dropped + (if s.worker.Panicked? then [s.receiver.taken] else []))
  {
    RunKeepsInvariant(Start, steps);
    hide Run;
  }

  // ---------- How a wait may end ----------

  predicate Untimed(r: Receiver) {
    r == Running(false) || r == Asleep(false)
  }

  /** A wait without a timeout ends only by taking the result: until then no step makes it return. */
  lemma {:induction false} WaitEndsWithResult(s: State, steps: seq<Step>)
    requires Untimed(s.receiver) || s.completed
    ensures Untimed(Run(s, steps).receiver) || Run(s, steps).completed
    decreases |steps|
  {
    if steps != [] {
      assert Untimed(Next(s, steps[0]).receiver) || Next(s, steps[0]).completed;
      hide Next;
      WaitEndsWithResult(Next(s, steps[0]), steps[1..]);
    }
  }

  /** A timed wait gives up only when its time has run out and no result is there, and it leaves everything else as
      it was, so that a later call waits for the same result. */
  lemma TimedWaitGivesUp(s: State, step: Step)
    requires s.receiver == Running(true) || s.receiver == Asleep(true)
    ensures Next(s, step).receiver.Idle? ==>
      (step == TimeOut || step == Check(true)) && s.slot.None? && Next(s, step) == s.(receiver := Idle)
  {
  }

  /** When its time runs out, a timed wait without a result ends, and one with a result takes it at its next check. */
  lemma TimedWaitEnds(s: State)
    requires s.receiver == Asleep(true)
    ensures s.slot.None? ==> Next(s, TimeOut).receiver.Idle?
    ensures s.slot.Some? ==> forall late: bool :: Next(Next(s, TimeOut), Check(late)).receiver == Joining(s.slot.value)
  {
  }

  // ---------- When a result is lost ----------

  predicate WakersReturn(steps: seq<Step>) {
    forall i | 0 <= i < |steps| :: steps[i] != WakeWaker(true)
  }

  /** As long as no waker panics, a result is dropped only because the receiver has gone. */
  lemma DroppedOnlyWhenGone(steps: seq<Step>)
    requires WakersReturn(steps)
    ensures var s := Run(Start, steps);
      !s.worker.Panicked? && (s.dropped != [] ==> !s.receiverAlive && !s.completed)
  {
    KeptWhileAlive(Start, steps);
  }

  ghost predicate KeptInvariant(s: State) {
    && !s.worker.Panicked?
    && (s.dropped != [] ==> !s.receiverAlive && s.receiver.Gone? && !s.completed)
    && (!s.receiverAlive ==> s.receiver.Gone? && !s.completed)
    && (s.completed ==> !s.receiver.Cancelling?)
    && (s.receiver.Running? || s.receiver.Asleep? ==> !s.completed)
  }

  lemma {:induction false} KeptWhileAlive(s: State, steps: seq<Step>)
    requires KeptInvariant(s) && WakersReturn(steps)
    ensures KeptInvariant(Run(s, steps))
    decreases |steps|
  {
    if steps != [] {
      assert steps[0] != WakeWaker(true);
      assert KeptInvariant(Next(s, steps[0]));
      hide Next, KeptInvariant;
      KeptWhileAlive(Next(s, steps[0]), steps[1..]);
    }
  }

  /** The worker can only panic while it wakes somebody. */
  lemma PanicOnlyWhileWaking(steps: seq<Step>)
    ensures Run(Start, steps).worker.Panicked? ==> Run(Start, steps).woken != {}
  {
    PanicHasWoken(Start, steps);
  }

  lemma {:induction false} PanicHasWoken(s: State, steps: seq<Step>)
    requires s.worker.Panicked? ==> s.woken != {}
    ensures Run(s, steps).worker.Panicked? ==> Run(s, steps).woken != {}
    decreases |steps|
  {
    if steps != [] {
      assert Next(s, steps[0]).worker.Panicked? ==> Next(s, steps[0]).woken != {};
      hide Next;
      PanicHasWoken(Next(s, steps[0]), steps[1..]);
    }
  }

  // ---------- The cancel hook ----------

  ghost predicate HookInvariant(s: State) {
    var dropping := s.receiver.Cancelling? || s.receiver.Gone?;
    && (s.hook <==> !s.completed && !dropping)
    && s.hookRuns == (if !s.completed && dropping then 1 else 0)
    && (s.receiver.Joining? ==> s.completed)
    && (s.receiver.Cancelling? || s.receiver.Running? || s.receiver.Asleep? ==> !s.completed)
  }

  /** Unless it is suppressed, the hook runs exactly for the waiters that are dropped before they are complete. */
  lemma HookRunsIff(steps: seq<Step>)
    requires forall i | 0 <= i < |steps| :: !steps[i].SuppressHook?
    ensures var s := Run(Start, steps);
      s.hookRuns == if !s.completed && (s.receiver.Cancelling? || s.receiver.Gone?) then 1 else 0
  {
    HookFollows(Start, steps);
  }

  lemma {:induction false} HookFollows(s: State, steps: seq<Step>)
    requires HookInvariant(s) && forall i | 0 <= i < |steps| :: !steps[i].SuppressHook?
    ensures HookInvariant(Run(s, steps))
    decreases |steps|
  {
    if steps != [] {
      assert HookInvariant(Next(s, steps[0]));
      hide Next, HookInvariant;
      HookFollows(Next(s, steps[0]), steps[1..]);
    }
  }

  /** Once suppressed by its waiter, the hook never runs. */
  lemma SuppressedHookNeverRuns(s: State, more: seq<Step>)
    requires s.receiver.Idle?
    ensures Run(Next(s, SuppressHook), more).hookRuns == s.hookRuns
  {
    HookStaysOff(Next(s, SuppressHook), more);
  }

  lemma {:induction false} HookStaysOff(s: State, steps: seq<Step>)
    requires !s.hook
    ensures Run(s, steps).hookRuns == s.hookRuns
    decreases |steps|
  {
    if steps != [] {
      assert !Next(s, steps[0]).hook && Next(s, steps[0]).hookRuns == s.hookRuns;
      hide Next;
      HookStaysOff(Next(s, steps[0]), steps[1..]);
    }
  }
}
