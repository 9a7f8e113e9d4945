/** EventLoop's queue of pending functors and its eventfd wakeup, as the atomic
    steps of the loop thread and of any number of other threads. A functor is
    known by a number; the eventfd is its counter, writes to it succeed. */
module EventLoop {
  import opened Threads

  type Functor = nat

  /** Where the loop thread is. Handling says whether the wakeup channel is still
      to be handled; Running holds the functors of the batch not yet started;
      RunningPushed is a functor between its push and its wakeup. */
  datatype Pc =
    | BeforeLoop
    | TestQuit
    | Waiting
    | Handling(wakeupActive: bool)
    | BeforeSwap
    | Running(batch: seq<Functor>)
    | RunningPushed(batch: seq<Functor>)
    | Stopped

  /** pushers and quitters are other threads between their update and their
      wakeup; early marks a functor queued by the loop thread before loop() and
      not yet swapped out; seen is the length of the enqueue history when
      epoll_wait last returned. */
  datatype State = State(
    pc: Pc, pending: seq<Functor>, calling: bool, quit: bool, eventfd: nat,
    pushers: set<Tid>, quitters: set<Tid>,
    enqueued: seq<Functor>, executed: seq<Functor>, early: bool, seen: nat)

  datatype Step =
    | Push(t: Tid, f: Functor)
    | Wakeup(t: Tid)
    | SetQuit(t: Tid)
    | WakeupForQuit(t: Tid)
    | EarlyQueue(f: Functor)
    | EnterLoop
    | Test
    | WaitReturns(wakeupActive: bool)
    | HandlerQueue(f: Functor)
    | HandleWakeup
    | LoopThreadQuit
    | EndHandling
    | Swap
    | RunFunctor
    | FunctorQueue(f: Functor)
    | FunctorWakeup
    | EndBatch

  const INIT := State(BeforeLoop, [], false, false, 0, {}, {}, [], [], false, 0)

  predicate Enabled(s: State, step: Step) {
    match step
    case Push(t, _) => t !in s.pushers
    case Wakeup(t) => t in s.pushers
    case SetQuit(t) => t !in s.quitters
    case WakeupForQuit(t) => t in s.quitters
    case EarlyQueue(_) => s.pc.BeforeLoop?
    case EnterLoop => s.pc.BeforeLoop?
    case Test => s.pc.TestQuit?
    case WaitReturns(active) => s.pc.Waiting? && (active ==> s.eventfd > 0)
    case HandlerQueue(_) => s.pc.Handling?
    case HandleWakeup => s.pc.Handling? && s.pc.wakeupActive
    case LoopThreadQuit => s.pc.Handling? || s.pc.Running?
    case EndHandling => s.pc.Handling? && !s.pc.wakeupActive
    case Swap => s.pc.BeforeSwap?
    case RunFunctor => s.pc.Running? && s.pc.batch != []
    case FunctorQueue(_) => s.pc.Running?
    case FunctorWakeup => s.pc.RunningPushed?
    case EndBatch => s.pc == Running([])
  }

  /** The locked push of queueInLoop. */
  function Pushed(s: State, f: Functor): State {
    s.(pending := s.pending + [f], enqueued := s.enqueued + [f])
  }

  /** queueInLoop on the loop thread: it goes on to a wakeup only while pending
      functors are being called. */
  function LoopThreadQueue(s: State, f: Functor): State {
    if s.calling && s.pc.Running? then Pushed(s, f).(pc := RunningPushed(s.pc.batch)) else Pushed(s, f)
  }

  function Apply(s: State, step: Step): State
    requires Enabled(s, step)
  {
    match step
    case Push(t, f) => Pushed(s, f).(pushers := s.pushers + {t})
    case Wakeup(t) => s.(eventfd := s.eventfd + 1, pushers := s.pushers - {t})
    case SetQuit(t) => s.(quit := true, quitters := s.quitters + {t})
    case WakeupForQuit(t) => s.(eventfd := s.eventfd + 1, quitters := s.quitters - {t})
    case EarlyQueue(f) => LoopThreadQueue(s, f).(early := true)
    case EnterLoop => s.(pc := TestQuit)
    case Test => s.(pc := if s.quit then Stopped else Waiting)
    case WaitReturns(active) => s.(pc := Handling(active), seen := |s.enqueued|)
    case HandlerQueue(f) => LoopThreadQueue(s, f)
    case HandleWakeup => s.(pc := Handling(false), eventfd := 0)
    case LoopThreadQuit => s.(quit := true)
    case EndHandling => s.(pc := BeforeSwap, calling := true)
    case Swap => s.(pc := Running(s.pending), pending := [], early := false)
    case RunFunctor => s.(pc := Running(s.pc.batch[1..]), executed := s.executed + [s.pc.batch[0]])
    case FunctorQueue(f) => LoopThreadQueue(s, f)
    case FunctorWakeup => s.(pc := Running(s.pc.batch), eventfd := s.eventfd + 1)
    case EndBatch => s.(pc := TestQuit, calling := false)
  }

  predicate IsRun(s: State, steps: seq<Step>)
    decreases |steps|
  {
    steps == [] || (Enabled(s, steps[0]) && IsRun(Apply(s, steps[0]), steps[1..]))
  }

  function End(s: State, steps: seq<Step>): State
    requires IsRun(s, steps)
    decreases |steps|
  {
    if steps == [] then s else End(Apply(s, steps[0]), steps[1..])
  }

  /** The loop sleeps on queued functors that nobody is going to announce. */
  predicate LostWakeup(s: State) {
    s.pc.Waiting? && s.pending != [] && s.eventfd == 0 && s.pushers == {}
  }

  predicate LostQuit(s: State) {
    s.pc.Waiting? && s.quit && s.eventfd == 0 && s.quitters == {}
  }

  function Batch(pc: Pc): seq<Functor> {
    if pc.Running? || pc.RunningPushed? then pc.batch else []
  }

  /** Every queued functor is executed, in the current batch, or pending: none is
      lost, doubled or reordered. */
  ghost predicate ExactlyOnce(s: State) {
    s.enqueued == s.executed + Batch(s.pc) + s.pending
  }

  ghost predicate Announced(s: State) {
    s.pending == [] || s.eventfd > 0 || s.pushers != {} || s.pc.RunningPushed?
  }

  /** The calling flag and the early mark follow the loop thread. */
  ghost predicate Flagged(s: State) {
    (s.calling <==> s.pc.BeforeSwap? || s.pc.Running? || s.pc.RunningPushed?) &&
    (s.early ==> s.pending != [] && !s.pc.Running? && !s.pc.RunningPushed?)
  }

  ghost predicate WakesUp(s: State) {
    (s.pc.Handling? || s.pc.BeforeSwap? || s.pc.Stopped? || s.early || Announced(s)) &&
    (s.pc.Waiting? && s.quit ==> s.eventfd > 0 || s.quitters != {})
  }

  /** What the last return of epoll_wait has seen is executed before the next wait. */
  ghost predicate Served(s: State) {
    s.seen <= |s.enqueued| &&
    (s.pc.Handling? || s.pc.BeforeSwap? || s.seen <= |s.executed| + |Batch(s.pc)|)
  }

  ghost predicate Inv(s: State) { ExactlyOnce(s) && Flagged(s) && WakesUp(s) && Served(s) }

  lemma StepExactlyOnce(s: State, step: Step)
    requires Inv(s) && Enabled(s, step)
    ensures ExactlyOnce(Apply(s, step))
  {
    var b := Batch(s.pc);
    if step.RunFunctor? {
      assert b == [b[0]] + b[1..];
      assert s.executed + [b[0]] + b[1..] == s.executed + b;
    } else if step.Swap? {
      assert s.executed + [] + s.pending == s.executed + s.pending + [];
    } else if step.Push? || step.EarlyQueue? || step.HandlerQueue? || step.FunctorQueue? {
      assert s.executed + b + (s.pending + [step.f]) == s.executed + b + s.pending + [step.f];
    }
  }

  lemma StepWakesUp(s: State, step: Step)
    requires Flagged(s) && WakesUp(s) && Enabled(s, step)
    ensures Flagged(Apply(s, step)) && WakesUp(Apply(s, step))
    ensures s.early || step.EarlyQueue? || !Apply(s, step).early
  {}

  lemma StepServed(s: State, step: Step)
    requires ExactlyOnce(s) && Flagged(s) && Served(s) && Enabled(s, step)
    ensures Served(Apply(s, step)) && s.seen <= Apply(s, step).seen
  {}

  lemma StepInv(s: State, step: Step)
    requires Inv(s) && Enabled(s, step)
    ensures Inv(Apply(s, step))
    ensures s.enqueued <= Apply(s, step).enqueued && s.executed <= Apply(s, step).executed
    ensures s.early || step.EarlyQueue? || !Apply(s, step).early
    ensures s.seen <= Apply(s, step).seen
  {
    StepExactlyOnce(s, step);
    StepWakesUp(s, step);
    StepServed(s, step);
  }

  lemma {:induction false} RunInv(s: State, steps: seq<Step>)
    requires Inv(s) && IsRun(s, steps)
    ensures var e := End(s, steps); Inv(e) && s.enqueued <= e.enqueued && s.executed <= e.executed && s.seen <= e.seen
    ensures !s.early && (forall i :: 0 <= i < |steps| ==> !steps[i].EarlyQueue?) ==> !End(s, steps).early
    decreases |steps|
  {
    if steps == [] {
    } else {
      StepInv(s, steps[0]);
      RunInv(Apply(s, steps[0]), steps[1..]);
      assert forall i :: 0 <= i < |steps| - 1 ==> steps[1..][i] == steps[i + 1];
    }
  }

  /** In every interleaving: executed functors are a prefix of the enqueue
      history, no functor is lost, and a quit is never slept through. */
  lemma ExactlyOnceFifo(steps: seq<Step>)
    requires IsRun(INIT, steps)
    ensures var e := End(INIT, steps); ExactlyOnce(e) && e.executed <= e.enqueued && !LostQuit(e)
  {
    RunInv(INIT, steps);
  }

  /** No wakeup is lost as long as the loop thread queues only from handlers and
      functors. */
  lemma NoLostWakeup(steps: seq<Step>)
    requires IsRun(INIT, steps) && NoEarlyQueue(steps)
    ensures !LostWakeup(End(INIT, steps))
  {
    RunInv(INIT, steps);
  }

  /** The pending functors are announced, about to be run, or overtaken by a quit. */
  ghost predicate Covered(s: State) {
    Announced(s) || s.pc.Handling? || s.pc.BeforeSwap? || s.pc.Stopped? || (s.quit && !s.pc.Waiting?)
  }

  lemma StepCovered(s: State, step: Step)
    requires Flagged(s) && Covered(s) && Enabled(s, step) && !step.EarlyQueue?
    ensures Flagged(Apply(s, step)) && Covered(Apply(s, step))
  {}

  predicate NoEarlyQueue(steps: seq<Step>) { forall i :: 0 <= i < |steps| ==> !steps[i].EarlyQueue? }

  lemma {:induction false} RunCovered(s: State, steps: seq<Step>)
    requires Flagged(s) && Covered(s) && IsRun(s, steps) && NoEarlyQueue(steps)
    ensures Covered(End(s, steps))
    decreases |steps|
  {
    if steps == [] {
    } else {
      StepCovered(s, steps[0]);
      RunCovered(Apply(s, steps[0]), steps[1..]);
    }
  }

  /** What a caller can check before loop(): nothing is queued, or a wakeup or a quit
      has been asked for. */
  predicate SafeToLoop(s: State) { s.pending == [] || s.eventfd > 0 || s.pushers != {} || s.quit }

  /** Functors that the loop thread queued before loop() are safe exactly under that
      condition: then no run loses a wakeup, and otherwise entering the loop does. */
  lemma EarlyQueueIsLost(s: State)
    requires s.pc.BeforeLoop? && Inv(s)
    ensures (forall steps :: IsRun(s, steps) && NoEarlyQueue(steps) ==> !LostWakeup(End(s, steps))) <==> SafeToLoop(s)
  {
    if SafeToLoop(s) {
      forall steps | IsRun(s, steps) && NoEarlyQueue(steps) ensures !LostWakeup(End(s, steps)) {
        RunCovered(s, steps);
      }
    } else {
      EnterAndTest(s);
    }
  }

  lemma EnterAndTest(s: State)
    requires s.pc.BeforeLoop?
    ensures var steps := [EnterLoop, Test];
            IsRun(s, steps) && NoEarlyQueue(steps) &&
            End(s, steps) == s.(pc := if s.quit then Stopped else Waiting)
  {
    assert [EnterLoop, Test][1..] == [Test] && [Test][1..] == [];
    var s1 := Apply(s, EnterLoop);
    assert IsRun(s1, [Test]) && End(s1, [Test]) == Apply(s1, Test) by {
      assert IsRun(Apply(s1, Test), []);
    }
  }

  lemma LostWakeupExample()
    ensures IsRun(INIT, [EarlyQueue(7), EnterLoop, Test])
    ensures LostWakeup(End(INIT, [EarlyQueue(7), EnterLoop, Test]))
  {
    var steps := [EarlyQueue(7), EnterLoop, Test];
    var s := Apply(INIT, EarlyQueue(7));
    EnterAndTest(s);
    assert steps[1..] == [EnterLoop, Test];
  }

  /** Whatever was queued before the loop wakes up has run when it sleeps again. */
  lemma RunsBeforeSleeping(s: State, steps: seq<Step>)
    requires Inv(s) && s.pc.Waiting? && IsRun(s, steps)
    requires steps != [] && steps[0].WaitReturns?
    ensures var e := End(s, steps); e.pc.Waiting? || e.pc.Stopped? ==> s.enqueued <= e.executed
  {
    var s1 := Apply(s, steps[0]);
    StepInv(s, steps[0]);
    RunInv(s1, steps[1..]);
  }

  /** The functor that a step hands to queueInLoop. */
  function Queued(step: Step): seq<Functor> {
    match step
    case Push(_, f) => [f]
    case EarlyQueue(f) => [f]
    case HandlerQueue(f) => [f]
    case FunctorQueue(f) => [f]
    case _ => []
  }

  function QueuedIn(steps: seq<Step>): seq<Functor> {
    if steps == [] then [] else Queued(steps[0]) + QueuedIn(steps[1..])
  }

  /** The enqueue history is what callers queued, whichever thread they are on. */
  lemma {:induction false} EverythingEnqueued(s: State, steps: seq<Step>)
    requires IsRun(s, steps)
    ensures End(s, steps).enqueued == s.enqueued + QueuedIn(steps)
    decreases |steps|
  {
    if steps == [] {
    } else {
      StepEnqueued(s, steps[0]);
      EverythingEnqueued(Apply(s, steps[0]), steps[1..]);
      Assoc(s.enqueued, Queued(steps[0]), QueuedIn(steps[1..]));
    }
  }

  lemma StepEnqueued(s: State, step: Step)
    requires Enabled(s, step)
    ensures Apply(s, step).enqueued == s.enqueued + Queued(step)
  {
    assert s.enqueued + [] == s.enqueued;
  }

  predicate AsksQuit(step: Step) { step.SetQuit? || step.LoopThreadQuit? }

  lemma {:induction false} QuitIff(s: State, steps: seq<Step>)
    requires IsRun(s, steps)
    ensures End(s, steps).quit <==> s.quit || exists i :: 0 <= i < |steps| && AsksQuit(steps[i])
    decreases |steps|
  {
    if steps == [] {
    } else {
      QuitIff(Apply(s, steps[0]), steps[1..]);
      assert forall i :: 0 < i < |steps| ==> steps[i] == steps[1..][i - 1];
      assert forall i :: 0 <= i < |steps[1..]| ==> steps[1..][i] == steps[i + 1];
    }
  }

  function RunCount(steps: seq<Step>): nat {
    if steps == [] then 0 else (if steps[0].RunFunctor? then 1 else 0) + RunCount(steps[1..])
  }

  lemma {:induction false} ExecutedCount(s: State, steps: seq<Step>)
    requires IsRun(s, steps)
    ensures |End(s, steps).executed| == |s.executed| + RunCount(steps)
    decreases |steps|
  {
    if steps == [] {
    } else {
      ExecutedCount(Apply(s, steps[0]), steps[1..]);
    }
  }

  /** What runs is what was queued: after any run, the functors executed are the first so
      many of those queued by any thread, and the rest is in the batch or pending. */
  lemma QueuedRunsInOrder(steps: seq<Step>)
    requires IsRun(INIT, steps)
    ensures var e := End(INIT, steps);
            QueuedIn(steps) == e.executed + Batch(e.pc) + e.pending &&
            RunCount(steps) <= |QueuedIn(steps)| && e.executed == QueuedIn(steps)[..RunCount(steps)]
  {
    ExactlyOnceFifo(steps);
    EverythingEnqueued(INIT, steps);
    ExecutedCount(INIT, steps);
    assert INIT.enqueued + QueuedIn(steps) == QueuedIn(steps);
  }

  /** The eventfd counts the wakeups since it was last read. */
  function Announcements(n: nat, steps: seq<Step>): nat
    decreases |steps|
  {
    if steps == [] then n
    else
      var wakes := steps[0].Wakeup? || steps[0].WakeupForQuit? || steps[0].FunctorWakeup?;
      Announcements(if steps[0].HandleWakeup? then 0 else if wakes then n + 1 else n, steps[1..])
  }

  lemma {:induction false} EventfdCounts(s: State, steps: seq<Step>)
    requires IsRun(s, steps)
    ensures End(s, steps).eventfd == Announcements(s.eventfd, steps)
    decreases |steps|
  {
    if steps == [] {
    } else {
      EventfdCounts(Apply(s, steps[0]), steps[1..]);
    }
  }
}
