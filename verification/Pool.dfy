/** The worker accounting of the Boost thread pool core. Every region under the
    pool's monitor is one step; tasks run outside it. Tasks are numbered in the
    order in which they are scheduled. */
module Pool {
  import opened Threads

  type Task = nat

  /** Fetching: about to call execute_task. Parked and Woken: inside its wait for
      tasks. Leaving: execute_task returned false. Dying: the task threw. */
  datatype Worker = Fetching | Parked | Woken | Running(task: Task) | Leaving | Dying

  /** A thread in wait(k). */
  datatype Waiter = Asleep(k: nat) | Awake(k: nat)

  datatype State = State(
    workers: map<Tid, Worker>, waiters: map<Tid, Waiter>,
    workerCount: int, target: int, active: int, terminateAll: bool,
    pending: seq<Task>, next: Task, started: seq<Task>, done: set<Task>)

  datatype Step =
    | Schedule(w: Tid)
    | ScheduleNobodyParked
    | Clear
    | Resize(n: nat, created: set<Tid>)
    | TerminateAll
    | Fetch(w: Tid)
    | Resume(w: Tid)
    | SpuriousWorker(w: Tid)
    | Finish(w: Tid)
    | Throw(w: Tid)
    | Destructed(w: Tid)
    | DiedUnexpectedly(w: Tid, created: set<Tid>)
    | Wait(v: Tid, k: nat)
    | ResumeWait(v: Tid)
    | SpuriousWait(v: Tid)

  const INIT := State(map[], map[], 0, 0, 0, false, [], 0, [], {})

  predicate Is(s: State, w: Tid, p: Worker) { w in s.workers && s.workers[w] == p }

  predicate IsRunning(s: State, w: Tid) { w in s.workers && s.workers[w].Running? }

  /** New threads for a pool of n: fewer if the system refuses a thread. */
  predicate Creates(s: State, n: int, created: set<Tid>) {
    created !! s.workers.Keys && |created| <= if n > s.workerCount then n - s.workerCount else 0
  }

  ghost predicate Enabled(s: State, step: Step) {
    match step
    case Schedule(w) => Is(s, w, Parked)
    case ScheduleNobodyParked => forall w :: w in s.workers ==> !s.workers[w].Parked?
    case Clear => true
    case Resize(n, created) => Creates(s, n, created) && (s.terminateAll ==> created == {})
    case TerminateAll => true
    case Fetch(w) => Is(s, w, Fetching)
    case Resume(w) => Is(s, w, Woken)
    case SpuriousWorker(w) => Is(s, w, Parked)
    case Finish(w) => IsRunning(s, w)
    case Throw(w) => IsRunning(s, w)
    case Destructed(w) => Is(s, w, Leaving)
    case DiedUnexpectedly(w, created) =>
      Is(s, w, Dying) && created !! s.workers.Keys && |created| <= 1 && (s.terminateAll ==> created == {})
    case Wait(v, _) => v !in s.waiters
    case ResumeWait(v) => v in s.waiters && s.waiters[v].Awake?
    case SpuriousWait(v) => v in s.waiters && s.waiters[v].Asleep?
  }

  function WakeWorkers(workers: map<Tid, Worker>): map<Tid, Worker> {
    map w | w in workers :: if workers[w].Parked? then Woken else workers[w]
  }

  function WakeWaiters(waiters: map<Tid, Waiter>): map<Tid, Waiter> {
    map v | v in waiters :: Awake(waiters[v].k)
  }

  function Scheduled(s: State): State {
    s.(pending := s.pending + [s.next], next := s.next + 1)
  }

  function AfterResize(s: State, n: int, created: set<Tid>): State {
    if s.terminateAll then s
    else if s.workerCount <= n then
      s.(target := n, workers := Started(s.workers, created, Fetching),
         workerCount := s.workerCount + |created|, active := s.active + |created|)
    else s.(target := n, workers := WakeWorkers(s.workers))
  }

  /** The loop inside execute_task, entered by a worker that counts as active. */
  function FetchLoop(s: State, w: Tid): State {
    if s.pending != [] then
      s.(workers := s.workers[w := Running(s.pending[0])],
         started := s.started + [s.pending[0]], pending := s.pending[1..])
    else if s.workerCount > s.target then s.(workers := s.workers[w := Leaving])
    else s.(workers := s.workers[w := Parked], active := s.active - 1, waiters := WakeWaiters(s.waiters))
  }

  function Removed(s: State, w: Tid): State {
    s.(workers := s.workers - {w}, workerCount := s.workerCount - 1, active := s.active - 1,
       waiters := WakeWaiters(s.waiters))
  }

  /** The test of wait(k). */
  predicate WaitOver(s: State, k: nat) {
    if k == 0 then s.active == 0 && s.pending == [] else s.active + |s.pending| <= k
  }

  function WaitLoop(s: State, v: Tid, k: nat): State {
    if WaitOver(s, k) then s.(waiters := s.waiters - {v}) else s.(waiters := s.waiters[v := Asleep(k)])
  }

  ghost function Apply(s: State, step: Step): State
    requires Enabled(s, step)
  {
    match step
    case Schedule(w) => Scheduled(s).(workers := s.workers[w := Woken])
    case ScheduleNobodyParked => Scheduled(s)
    case Clear => s.(pending := [], done := s.done + set t | t in s.pending)
    case Resize(n, created) => AfterResize(s, n, created)
    case TerminateAll => s.(terminateAll := true, target := 0, workers := WakeWorkers(s.workers))
    case Fetch(w) =>
      if s.workerCount > s.target then s.(workers := s.workers[w := Leaving]) else FetchLoop(s, w)
    case Resume(w) => FetchLoop(s.(active := s.active + 1), w)
    case SpuriousWorker(w) => s.(workers := s.workers[w := Woken])
    case Finish(w) => s.(workers := s.workers[w := Fetching], done := s.done + {s.workers[w].task})
    case Throw(w) => s.(workers := s.workers[w := Dying], done := s.done + {s.workers[w].task})
    case Destructed(w) => Removed(s, w)
    case DiedUnexpectedly(w, created) => AfterResize(Removed(s, w), Removed(s, w).workerCount + 1, created)
    case Wait(v, k) => WaitLoop(s, v, k)
    case ResumeWait(v) => WaitLoop(s, v, s.waiters[v].k)
    case SpuriousWait(v) => s.(waiters := s.waiters[v := Awake(s.waiters[v].k)])
  }

  ghost predicate IsRun(s: State, steps: seq<Step>)
    decreases |steps|
  {
    steps == [] || (Enabled(s, steps[0]) && IsRun(Apply(s, steps[0]), steps[1..]))
  }

  ghost function End(s: State, steps: seq<Step>): State
    requires IsRun(s, steps)
    decreases |steps|
  {
    if steps == [] then s else End(Apply(s, steps[0]), steps[1..])
  }

  predicate OutsideWait(p: Worker) { !p.Parked? && !p.Woken? }

  /** The counters agree with the threads. */
  ghost predicate Counted(s: State) {
    s.workerCount == |s.workers| && s.active == Count(s.workers, OutsideWait)
  }

  predicate Ascending(q: seq<Task>) { forall i, j :: 0 <= i < j < |q| ==> q[i] < q[j] }

  /** Tasks are started at most once, in the order of scheduling. */
  ghost predicate Ordered(s: State) {
    Ascending(s.started + s.pending) &&
    (forall i :: 0 <= i < |s.started| ==> s.started[i] < s.next) &&
    (forall i :: 0 <= i < |s.pending| ==> s.pending[i] < s.next)
  }

  /** No task is forgotten: it is finished or cleared, pending, or running. */
  ghost predicate Accounted(s: State) {
    forall t: Task :: t < s.next ==>
      t in s.done || t in s.pending || exists w :: w in s.workers && s.workers[w] == Running(t)
  }

  ghost predicate Inv(s: State) { Counted(s) && Ordered(s) && Accounted(s) }

  lemma MovedCounted(s: State, w: Tid, p: Worker)
    requires Counted(s) && w in s.workers
    ensures Count(s.workers[w := p], OutsideWait)
            == s.active - (if OutsideWait(s.workers[w]) then 1 else 0) + (if OutsideWait(p) then 1 else 0)
    ensures |s.workers[w := p]| == |s.workers|
  {
    CountMove(s.workers, w, p, OutsideWait);
    assert s.workers[w := p].Keys == s.workers.Keys;
  }

  lemma WakeWorkersCounted(workers: map<Tid, Worker>)
    ensures Count(WakeWorkers(workers), OutsideWait) == Count(workers, OutsideWait)
    ensures |WakeWorkers(workers)| == |workers|
  {
    assert At(WakeWorkers(workers), OutsideWait) == At(workers, OutsideWait);
    assert WakeWorkers(workers).Keys == workers.Keys;
  }

  lemma ResizeCounted(s: State, n: int, created: set<Tid>)
    requires Counted(s) && created !! s.workers.Keys
    ensures Counted(AfterResize(s, n, created))
  {
    if !s.terminateAll {
      if s.workerCount <= n {
        CountStart(s.workers, created, Fetching, OutsideWait);
      } else {
        WakeWorkersCounted(s.workers);
      }
    }
  }

  lemma RemovedCounted(s: State, w: Tid)
    requires Counted(s) && w in s.workers && OutsideWait(s.workers[w])
    ensures Counted(Removed(s, w))
  {
    CountEnd(s.workers, w, OutsideWait);
    assert (s.workers - {w}).Keys == s.workers.Keys - {w};
  }

  lemma FetchLoopCounted(s: State, w: Tid)
    requires s.workerCount == |s.workers| && w in s.workers
    requires s.active == Count(s.workers, OutsideWait) + (if OutsideWait(s.workers[w]) then 0 else 1)
    ensures Counted(FetchLoop(s, w))
  {
    var s0 := s.(active := Count(s.workers, OutsideWait));
    MovedCounted(s0, w, FetchLoop(s, w).workers[w]);
  }

  predicate MovesOne(step: Step) { step.Schedule? || step.SpuriousWorker? || step.Finish? || step.Throw? }

  lemma MoveCounted(s: State, step: Step)
    requires Counted(s) && Enabled(s, step) && MovesOne(step)
    ensures Counted(Apply(s, step))
  {
    MovedCounted(s, step.w, if step.Finish? then Fetching else if step.Throw? then Dying else Woken);
  }

  lemma FetchCounted(s: State, step: Step)
    requires Counted(s) && Enabled(s, step) && (step.Fetch? || step.Resume?)
    ensures Counted(Apply(s, step))
  {
    if step.Resume? {
      FetchLoopCounted(s.(active := s.active + 1), step.w);
    } else {
      FetchLoopCounted(s, step.w);
      MovedCounted(s, step.w, Leaving);
    }
  }

  lemma EndCounted(s: State, step: Step)
    requires Counted(s) && Enabled(s, step) && (step.Destructed? || step.DiedUnexpectedly?)
    ensures Counted(Apply(s, step))
  {
    RemovedCounted(s, step.w);
    if step.DiedUnexpectedly? {
      ResizeCounted(Removed(s, step.w), Removed(s, step.w).workerCount + 1, step.created);
    }
  }

  lemma PoolCounted(s: State, step: Step)
    requires Counted(s) && Enabled(s, step) && (step.Resize? || step.TerminateAll?)
    ensures Counted(Apply(s, step))
  {
    if step.Resize? { ResizeCounted(s, step.n, step.created); } else { WakeWorkersCounted(s.workers); }
  }

  predicate LeavesWorkers(step: Step) {
    step.ScheduleNobodyParked? || step.Clear? || step.Wait? || step.ResumeWait? || step.SpuriousWait?
  }

  lemma SameWorkers(s: State, step: Step)
    requires Enabled(s, step) && LeavesWorkers(step)
    ensures var s' := Apply(s, step); s'.workers == s.workers && s'.workerCount == s.workerCount && s'.active == s.active
  {}

  /** m_active_worker_count is the number of live workers outside the task wait. */
  lemma StepCounted(s: State, step: Step)
    requires Counted(s) && Enabled(s, step)
    ensures Counted(Apply(s, step))
  {
    if MovesOne(step) {
      MoveCounted(s, step);
    } else if step.Fetch? || step.Resume? {
      FetchCounted(s, step);
    } else if step.Resize? || step.TerminateAll? {
      PoolCounted(s, step);
    } else if step.Destructed? || step.DiedUnexpectedly? {
      EndCounted(s, step);
    } else {
      SameWorkers(s, step);
    }
  }

  lemma FetchLoopOrdered(s: State, w: Tid)
    requires Ordered(s)
    ensures Ordered(FetchLoop(s, w))
  {
    var s' := FetchLoop(s, w);
    if s.pending != [] { assert s'.started + s'.pending == s.started + s.pending; }
  }

  lemma ScheduledOrdered(s: State)
    requires Ordered(s)
    ensures Ordered(Scheduled(s))
  {
    assert s.started + (s.pending + [s.next]) == (s.started + s.pending) + [s.next];
  }

  lemma StepOrdered(s: State, step: Step)
    requires Ordered(s) && Enabled(s, step)
    ensures Ordered(Apply(s, step))
  {
    match step
    case Schedule(w) => ScheduledOrdered(s);
    case ScheduleNobodyParked => ScheduledOrdered(s);
    case Fetch(w) => FetchLoopOrdered(s, w);
    case Resume(w) => FetchLoopOrdered(s.(active := s.active + 1), w);
    case Clear =>
      assert s.started + [] == s.started;
      assert forall i :: 0 <= i < |s.started| ==> (s.started + s.pending)[i] == s.started[i];
    case _ =>
  }

  /** A step keeps every running task running, except for its own worker's. */
  lemma StepAccounted(s: State, step: Step)
    requires Accounted(s) && Enabled(s, step)
    ensures Accounted(Apply(s, step))
  {
    var s' := Apply(s, step);
    forall t: Task | t < s'.next
      ensures t in s'.done || t in s'.pending || exists w :: w in s'.workers && s'.workers[w] == Running(t)
    {
      if t == s.next {
        assert s'.pending[|s.pending|] == t;
      } else if t in s.pending && t !in s'.pending && t !in s'.done {
        assert s.pending == [s.pending[0]] + s.pending[1..];
        assert t == s.pending[0];
        var w := step.w;
        assert w in s'.workers && s'.workers[w] == Running(t);
      } else if t !in s.done && t !in s.pending {
        var w :| w in s.workers && s.workers[w] == Running(t);
        assert t in s'.done || (w in s'.workers && s'.workers[w] == Running(t));
      }
    }
  }

  lemma {:induction false} RunInv(s: State, steps: seq<Step>)
    requires Inv(s) && IsRun(s, steps)
    ensures Inv(End(s, steps))
    decreases |steps|
  {
    if steps == [] {
    } else {
      StepCounted(s, steps[0]);
      StepOrdered(s, steps[0]);
      StepAccounted(s, steps[0]);
      RunInv(Apply(s, steps[0]), steps[1..]);
    }
  }

  lemma InitInv()
    ensures Inv(INIT)
  {
    CountZero(INIT.workers, OutsideWait);
  }

  lemma NothingLeft(s: State)
    requires Inv(s) && WaitOver(s, 0)
    ensures forall t: Task :: t < s.next ==> t in s.done
  {
    CountZero(s.workers, OutsideWait);
    assert forall w :: w in s.workers ==> !OutsideWait(s.workers[w]);
  }

  /** When wait(0) leaves its loop, every task scheduled so far has finished or
      has been cleared. */
  lemma Quiescence(steps: seq<Step>)
    requires IsRun(INIT, steps)
    ensures var s := End(INIT, steps);
            s.active == Count(s.workers, OutsideWait) && s.workerCount == |s.workers| && Ascending(s.started) &&
            (WaitOver(s, 0) ==> forall t: Task :: t < s.next ==> t in s.done)
  {
    InitInv();
    RunInv(INIT, steps);
    var s := End(INIT, steps);
    assert forall i :: 0 <= i < |s.started| ==> (s.started + s.pending)[i] == s.started[i];
    if WaitOver(s, 0) { NothingLeft(s); }
  }

  ghost function Unfinished(s: State): set<Task> { set t | 0 <= t < s.next && t !in s.done }

  ghost function TasksOf(ws: set<Tid>, workers: map<Tid, Worker>): set<Task> {
    set w | w in ws && w in workers && workers[w].Running? :: workers[w].task
  }

  lemma {:induction false} TasksOfBound(ws: set<Tid>, workers: map<Tid, Worker>)
    ensures |TasksOf(ws, workers)| <= |ws|
    decreases |ws|
  {
    if ws == {} {
    } else {
      var w :| w in ws;
      TasksOfBound(ws - {w}, workers);
      var rest := TasksOf(ws - {w}, workers);
      var own := if w in workers && workers[w].Running? then {workers[w].task} else {};
      assert TasksOf(ws, workers) == rest + own;
    }
  }

  ghost function Queued(q: seq<Task>): set<Task> { set t | t in q }

  lemma {:induction false} QueuedBound(q: seq<Task>)
    ensures |Queued(q)| <= |q|
  {
    if q == [] {
    } else {
      QueuedBound(q[1..]);
      assert Queued(q) == {q[0]} + Queued(q[1..]);
    }
  }

  lemma UnfinishedBound(s: State)
    requires Inv(s)
    ensures |Unfinished(s)| <= s.active + |s.pending|
  {
    var busy := At(s.workers, OutsideWait);
    var running := TasksOf(busy, s.workers);
    TasksOfBound(busy, s.workers);
    QueuedBound(s.pending);
    forall t | t in Unfinished(s) ensures t in Queued(s.pending) + running {
      if t !in s.pending {
        var w :| w in s.workers && s.workers[w] == Running(t);
        assert w in busy;
      }
    }
    Subset(Unfinished(s), Queued(s.pending) + running);
  }

  /** When wait(k) leaves its loop, at most k of the tasks scheduled so far are unfinished. */
  lemma ThresholdQuiescence(steps: seq<Step>)
    requires IsRun(INIT, steps)
    ensures |Unfinished(End(INIT, steps))| <= End(INIT, steps).active + |End(INIT, steps).pending|
    ensures forall k :: WaitOver(End(INIT, steps), k) ==> |Unfinished(End(INIT, steps))| <= k
  {
    InitInv();
    RunInv(INIT, steps);
    UnfinishedBound(End(INIT, steps));
  }

  lemma Subset(a: set<Task>, b: set<Task>)
    requires a <= b
    ensures |a| <= |b|
  {
    assert b == a + (b - a);
  }

  predicate IsWoken(p: Worker) { p.Woken? }

  ghost predicate SomeParked(s: State) { exists w :: w in s.workers && s.workers[w].Parked? }

  /** While a worker is parked, every pending task has a woken worker coming for it. */
  ghost predicate Covered(s: State) { SomeParked(s) ==> |s.pending| <= Count(s.workers, IsWoken) }

  lemma FetchLoopCovered(s: State, w: Tid)
    requires Covered(s) && w in s.workers && (s.workers[w].Fetching? || s.workers[w].Woken?)
    ensures Covered(FetchLoop(s, w))
  {
    var s' := FetchLoop(s, w);
    CountMove(s.workers, w, s'.workers[w], IsWoken);
    if s.pending != [] && SomeParked(s') {
      var p :| p in s'.workers && s'.workers[p].Parked?;
      assert p in s.workers && s.workers[p].Parked?;
    }
  }

  lemma MovedCovered(s: State, w: Tid, p: Worker)
    requires Covered(s) && w in s.workers && !p.Parked? && (s.workers[w].Woken? ==> p.Woken?)
    ensures Covered(s.(workers := s.workers[w := p]))
    ensures s.workers[w].Parked? && p.Woken? ==> Covered(Scheduled(s).(workers := s.workers[w := p]))
  {
    CountMove(s.workers, w, p, IsWoken);
    var after := s.workers[w := p];
    if q :| q in after && after[q].Parked? {
      assert q in s.workers && s.workers[q].Parked?;
    }
  }

  lemma StartedCovered(s: State, created: set<Tid>)
    requires Covered(s) && created !! s.workers.Keys
    ensures Covered(s.(workers := Started(s.workers, created, Fetching)))
  {
    var after := Started(s.workers, created, Fetching);
    assert At(after, IsWoken) == At(s.workers, IsWoken);
    if q :| q in after && after[q].Parked? {
      assert q in s.workers && s.workers[q].Parked?;
    }
  }

  lemma RemovedCovered(s: State, w: Tid)
    requires Covered(s) && w in s.workers && !s.workers[w].Woken?
    ensures Covered(Removed(s, w))
  {
    CountEnd(s.workers, w, IsWoken);
    if q :| q in Removed(s, w).workers && Removed(s, w).workers[q].Parked? {
      assert q in s.workers && s.workers[q].Parked?;
    }
  }

  lemma StepCovered(s: State, step: Step)
    requires Covered(s) && Enabled(s, step)
    ensures Covered(Apply(s, step))
  {
    match step
    case Schedule(w) => MovedCovered(s, w, Woken);
    case Resize(n, created) => StartedCovered(s, created);
    case Fetch(w) => FetchLoopCovered(s, w); MovedCovered(s, w, Leaving);
    case Resume(w) => FetchLoopCovered(s.(active := s.active + 1), w);
    case SpuriousWorker(w) => MovedCovered(s, w, Woken);
    case Finish(w) => MovedCovered(s, w, Fetching);
    case Throw(w) => MovedCovered(s, w, Dying);
    case Destructed(w) => RemovedCovered(s, w);
    case DiedUnexpectedly(w, created) =>
      RemovedCovered(s, w);
      StartedCovered(Removed(s, w), created);
    case _ =>
  }

  ghost predicate SomeAsleep(s: State) { exists v :: v in s.waiters && s.waiters[v].Asleep? }

  /** A thread sleeps in wait(k) although its condition holds. */
  predicate Overdue(s: State, v: Tid) { v in s.waiters && s.waiters[v].Asleep? && WaitOver(s, s.waiters[v].k) }

  /** And no worker is running or on its way to notify it. */
  ghost predicate Stranded(s: State) {
    s.active == 0 && (exists v :: Overdue(s, v)) && forall w :: w in s.workers ==> !s.workers[w].Woken?
  }

  /** A woken worker that finds nothing to do notifies every thread in wait(0), at the
      latest when it ends. */
  lemma WokenWorkerNotifies(s: State, w: Tid)
    requires Is(s, w, Woken) && s.pending == []
    ensures var steps := if s.workerCount > s.target then [Resume(w), Destructed(w)] else [Resume(w)];
            IsRun(s, steps) && !SomeAsleep(End(s, steps))
  {
    RunSnoc(s, [], Resume(w));
    assert [] + [Resume(w)] == [Resume(w)];
    if s.workerCount > s.target {
      RunSnoc(s, [Resume(w)], Destructed(w));
      assert [Resume(w)] + [Destructed(w)] == [Resume(w), Destructed(w)];
    }
  }

  /** With no worker active, none woken and tasks pending, there is no worker at all. */
  lemma NobodyLeft(s: State)
    requires Counted(s) && Covered(s) && s.active == 0 && s.pending != []
    requires forall w :: w in s.workers ==> !s.workers[w].Woken?
    ensures s.workers == map[]
  {
    CountZero(s.workers, OutsideWait);
    CountZero(s.workers, IsWoken);
    assert !SomeParked(s);
    assert s.workers.Keys == {};
  }

  /** clear() does not notify. It strands a thread in wait exactly when the pool has no
      worker, and no other step ever does. */
  lemma OnlyClearStrands(s: State, step: Step)
    requires Counted(s) && Covered(s) && Enabled(s, step) && !Stranded(s)
    ensures Stranded(Apply(s, step)) <==> step.Clear? && s.workers == map[] && SomeAsleep(s)
  {
    if step.Clear? {
      ClearStrands(s);
    } else if step.Wait? || step.ResumeWait? || step.SpuriousWait? {
      if Stranded(Apply(s, step)) { SameOthers(s, Apply(s, step), step.v); }
    } else {
      WorkersStrandNobody(s, step);
    }
  }

  lemma WorkersStrandNobody(s: State, step: Step)
    requires Counted(s) && Enabled(s, step) && !Stranded(s)
    requires !step.Clear? && !step.Wait? && !step.ResumeWait? && !step.SpuriousWait?
    ensures !Stranded(Apply(s, step))
  {
    StepCounted(s, step);
    var s' := Apply(s, step);
    match step
    case Resize(n, created) => if Stranded(s') { ResizeStrandsNobody(s, n, created); }
    case TerminateAll => if Stranded(s') { WakingStrandsNobody(s, s'); }
    case SpuriousWorker(w) => assert s'.workers[w].Woken?;
    case Schedule(w) => assert s'.workers[w].Woken?;
    case ScheduleNobodyParked => if Stranded(s') { SameWaiters(s, s'); }
    case Fetch(w) => BusyStrandsNobody(s', w);
    case Resume(w) => BusyStrandsNobody(s', w);
    case Finish(w) => BusyStrandsNobody(s', w);
    case Throw(w) => BusyStrandsNobody(s', w);
    case Destructed(w) =>
    case DiedUnexpectedly(w, created) =>
  }

  lemma ClearStrands(s: State)
    requires Counted(s) && Covered(s) && !Stranded(s)
    ensures Stranded(Apply(s, Clear)) <==> s.workers == map[] && SomeAsleep(s)
  {
    var s' := Apply(s, Clear);
    if Stranded(s') {
      var v :| Overdue(s', v);
      assert v in s.waiters && s.waiters[v].Asleep?;
      assert !Overdue(s, v);
      NobodyLeft(s);
    } else if s.workers == map[] && SomeAsleep(s) {
      CountZero(s.workers, OutsideWait);
      var v :| v in s.waiters && s.waiters[v].Asleep?;
      assert Overdue(s', v);
    }
  }

  lemma SameWaiters(s: State, s': State)
    requires Stranded(s') && s'.workers == s.workers && s'.waiters == s.waiters && s'.active == s.active
    requires |s.pending| <= |s'.pending|
    ensures Stranded(s)
  {
    var v :| Overdue(s', v);
    assert Overdue(s, v);
  }

  lemma SameOthers(s: State, s': State, v: Tid)
    requires Stranded(s') && s'.workers == s.workers && s'.active == s.active && s'.pending == s.pending
    requires v in s'.waiters && s'.waiters[v].Asleep? ==> !WaitOver(s, s'.waiters[v].k)
    requires forall u :: u != v && u in s'.waiters ==> u in s.waiters && s.waiters[u] == s'.waiters[u]
    ensures Stranded(s)
  {
    var u :| Overdue(s', u);
    assert Overdue(s, u);
  }

  /** How a sleeper in wait(k) becomes overdue: a worker that was already active takes the
      task that was one too many, or clear() drops the tasks that were. Neither notifies. */
  lemma OverdueIff(s: State, step: Step, v: Tid)
    requires Counted(s) && Enabled(s, step) && v in s.waiters && s.waiters[v].Asleep? && !Overdue(s, v)
    ensures Overdue(Apply(s, step), v) <==>
            var k := s.waiters[v].k;
            (step.Clear? && s.active <= k) ||
            (step.Fetch? && s.workerCount <= s.target && s.pending != [] && s.active + |s.pending| == k + 1)
  {
    match step
    case Fetch(w) => CountSome(s.workers, w, OutsideWait);
    case _ =>
  }

  lemma {:induction false} RunSnoc(s: State, steps: seq<Step>, step: Step)
    requires IsRun(s, steps) && Enabled(End(s, steps), step)
    ensures IsRun(s, steps + [step]) && End(s, steps + [step]) == Apply(End(s, steps), step)
    decreases |steps|
  {
    if steps == [] {
      assert (steps + [step])[1..] == [];
      assert IsRun(Apply(s, step), []);
    } else {
      RunSnoc(Apply(s, steps[0]), steps[1..], step);
      assert (steps + [step])[1..] == steps[1..] + [step];
    }
  }

  /** One worker and two tasks: the thread in wait(1) sleeps on when the worker, done with
      the first, fetches the second. */
  lemma OverdueExample() returns (steps: seq<Step>)
    ensures IsRun(INIT, steps) && Overdue(End(INIT, steps), 9) && !Stranded(End(INIT, steps))
  {
    steps := [];
    RunSnoc(INIT, steps, Resize(1, {0}));
    steps := steps + [Resize(1, {0})];
    var s1 := End(INIT, steps);
    assert s1.workers == map[0 := Fetching] && s1.active == 1 && s1.workerCount == 1 && s1.target == 1;
    RunSnoc(INIT, steps, ScheduleNobodyParked);
    steps := steps + [ScheduleNobodyParked];
    RunSnoc(INIT, steps, ScheduleNobodyParked);
    steps := steps + [ScheduleNobodyParked];
    var s2 := End(INIT, steps);
    assert s2.pending == [0, 1];
    RunSnoc(INIT, steps, Fetch(0));
    steps := steps + [Fetch(0)];
    var s3 := End(INIT, steps);
    assert s3.pending == [1] && s3.workers[0] == Running(0);
    RunSnoc(INIT, steps, Wait(9, 1));
    steps := steps + [Wait(9, 1)];
    RunSnoc(INIT, steps, Finish(0));
    steps := steps + [Finish(0)];
    RunSnoc(INIT, steps, Fetch(0));
    steps := steps + [Fetch(0)];
  }

  lemma BusyStrandsNobody(s: State, w: Tid)
    requires Counted(s) && w in s.workers
    ensures OutsideWait(s.workers[w]) ==> s.active > 0
  {
    if OutsideWait(s.workers[w]) { CountSome(s.workers, w, OutsideWait); }
  }

  /** Waking all parked workers strands nobody who was not stranded before. */
  lemma WakingStrandsNobody(s: State, s': State)
    requires Stranded(s') && s'.workers == WakeWorkers(s.workers)
    requires s'.pending == s.pending && s'.active == s.active && s'.waiters == s.waiters
    ensures Stranded(s)
  {
    var v :| Overdue(s', v);
    assert Overdue(s, v);
    forall w | w in s.workers ensures !s.workers[w].Woken? {
      assert w in s'.workers && !s'.workers[w].Woken?;
    }
  }

  lemma ResizeStrandsNobody(s: State, n: int, created: set<Tid>)
    requires Counted(s) && created !! s.workers.Keys && Stranded(AfterResize(s, n, created))
    ensures Stranded(s)
  {
    var s' := AfterResize(s, n, created);
    ResizeCounted(s, n, created);
    if !s.terminateAll && s.workerCount <= n {
      if w :| w in created { CountSome(s'.workers, w, OutsideWait); }
      assert s'.workers == s.workers;
      SameWaiters(s, s');
    } else if !s.terminateAll {
      WakingStrandsNobody(s, s');
    }
  }

  /** clear() is called only while the pool has a worker. */
  ghost predicate ClearsWithWorkers(s: State, steps: seq<Step>)
    requires IsRun(s, steps)
    decreases |steps|
  {
    steps == [] ||
    ((steps[0].Clear? ==> s.workers != map[]) && ClearsWithWorkers(Apply(s, steps[0]), steps[1..]))
  }

  /** Then no run strands a thread in wait. */
  lemma {:induction false} NoWaiterStranded(s: State, steps: seq<Step>)
    requires Counted(s) && Covered(s) && !Stranded(s) && IsRun(s, steps) && ClearsWithWorkers(s, steps)
    ensures !Stranded(End(s, steps))
    decreases |steps|
  {
    if steps == [] {
    } else {
      StepCounted(s, steps[0]);
      StepCovered(s, steps[0]);
      OnlyClearStrands(s, steps[0]);
      NoWaiterStranded(Apply(s, steps[0]), steps[1..]);
    }
  }

  /** A task scheduled on a pool without workers, waited for and then cleared. */
  lemma StrandedExample() returns (steps: seq<Step>)
    ensures steps == [ScheduleNobodyParked, Wait(0, 0), Clear] && IsRun(INIT, steps) && Stranded(End(INIT, steps))
  {
    steps := [];
    RunSnoc(INIT, steps, ScheduleNobodyParked);
    steps := steps + [ScheduleNobodyParked];
    RunSnoc(INIT, steps, Wait(0, 0));
    steps := steps + [Wait(0, 0)];
    RunSnoc(INIT, steps, Clear);
    steps := steps + [Clear];
    assert Overdue(End(INIT, steps), 0);
  }

  function Schedules(steps: seq<Step>): nat {
    if steps == [] then 0
    else (if steps[0].Schedule? || steps[0].ScheduleNobodyParked? then 1 else 0) + Schedules(steps[1..])
  }

  /** Tasks are numbered by their schedule() calls: none is dropped on the way in. */
  lemma {:induction false} EveryScheduleCounts(s: State, steps: seq<Step>)
    requires IsRun(s, steps)
    ensures End(s, steps).next == s.next + Schedules(steps)
    decreases |steps|
  {
    if steps == [] {
    } else {
      EveryScheduleCounts(Apply(s, steps[0]), steps[1..]);
    }
  }

  /** Every schedule() call so far has its task finished, cleared, pending or running. */
  lemma EveryScheduleAccounted(steps: seq<Step>)
    requires IsRun(INIT, steps)
    ensures var s := End(INIT, steps);
            forall t: Task :: t < Schedules(steps) ==>
              t in s.done || t in s.pending || exists w :: w in s.workers && s.workers[w] == Running(t)
  {
    InitInv();
    RunInv(INIT, steps);
    EveryScheduleCounts(INIT, steps);
  }

  predicate NoneParked(s: State) { forall w :: w in s.workers ==> !s.workers[w].Parked? }

  /** terminate_all_workers wakes every parked worker and lets no more be created. */
  lemma TerminateEffect(s: State)
    ensures var s' := Apply(s, TerminateAll);
            NoneParked(s') && s'.workers.Keys == s.workers.Keys && s'.target == 0 && s'.terminateAll
    ensures forall n, created :: AfterResize(Apply(s, TerminateAll), n, created) == Apply(s, TerminateAll)
  {}

  /** resize sets the target; growing starts the new threads, shrinking wakes the parked ones. */
  lemma ResizeEffect(s: State, n: nat, created: set<Tid>)
    requires Enabled(s, Resize(n, created)) && !s.terminateAll
    ensures var s' := Apply(s, Resize(n, created));
            s'.target == n &&
            (s.workerCount <= n ==>
               s'.workers.Keys == s.workers.Keys + created && forall w :: w in created ==> s'.workers[w] == Fetching) &&
            (n < s.workerCount ==> NoneParked(s') && s'.workers.Keys == s.workers.Keys)
  {
    if s.workerCount <= n { StartedEffect(s.workers, created); }
  }

  lemma StartedEffect(workers: map<Tid, Worker>, created: set<Tid>)
    ensures var after := Started(workers, created, Fetching);
            after.Keys == workers.Keys + created && forall w :: w in created ==> after[w] == Fetching
  {}

  /** A worker that died is gone; the pool replaces it unless it is terminating or the
      system refuses a thread. */
  lemma DeathEffect(s: State, w: Tid, created: set<Tid>)
    requires Enabled(s, DiedUnexpectedly(w, created))
    ensures Apply(s, DiedUnexpectedly(w, created)).workers.Keys == (s.workers.Keys - {w}) + created
    ensures s.terminateAll ==> created == {}
  {}

  /** A worker that looks for work takes the oldest pending task if there is one, else
      leaves if the pool is too large, else parks; one that comes back from a task leaves
      first if the pool is too large. */
  lemma FetchOutcome(s: State, step: Step)
    requires Enabled(s, step) && (step.Fetch? || step.Resume?)
    ensures var s', tooMany := Apply(s, step), s.workerCount > s.target;
            (s'.workers[step.w] == Leaving <==> tooMany && (step.Fetch? || s.pending == [])) &&
            (s'.workers[step.w] == Parked <==> !tooMany && s.pending == []) &&
            (s'.workers[step.w].Running? <==> s.pending != [] && (step.Resume? || !tooMany)) &&
            (s'.workers[step.w].Running? ==>
               s'.workers[step.w].task == s.pending[0] && s'.started == s.started + [s.pending[0]])
  {}

  /** A task runs on one worker only, and only after it was started. */
  ghost predicate RunsOnce(s: State) {
    (forall w :: w in s.workers && s.workers[w].Running? ==> s.workers[w].task in s.started) &&
    (forall v, w :: v in s.workers && w in s.workers && v != w && s.workers[v].Running? && s.workers[w].Running? ==>
       s.workers[v].task != s.workers[w].task)
  }

  lemma FetchLoopRunsOnce(s: State, w: Tid)
    requires Ordered(s) && RunsOnce(s) && w in s.workers
    ensures RunsOnce(FetchLoop(s, w))
  {
    if s.pending != [] { NotStarted(s); }
  }

  lemma NotStarted(s: State)
    requires Ordered(s) && s.pending != []
    ensures s.pending[0] !in s.started
  {
    var all := s.started + s.pending;
    forall i | 0 <= i < |s.started| ensures s.started[i] != s.pending[0] {
      assert all[i] < all[|s.started|];
    }
  }

  lemma StepRunsOnce(s: State, step: Step)
    requires Ordered(s) && RunsOnce(s) && Enabled(s, step)
    ensures RunsOnce(Apply(s, step))
  {
    match step
    case Fetch(w) => FetchLoopRunsOnce(s, w);
    case Resume(w) => FetchLoopRunsOnce(s.(active := s.active + 1), w);
    case DiedUnexpectedly(w, created) => StartedRunsOnce(Removed(s, w), created);
    case Resize(n, created) => StartedRunsOnce(s, created);
    case _ =>
  }

  lemma StartedRunsOnce(s: State, created: set<Tid>)
    requires RunsOnce(s) && created !! s.workers.Keys
    ensures RunsOnce(s.(workers := Started(s.workers, created, Fetching)))
  {}

  lemma {:induction false} RunRunsOnce(s: State, steps: seq<Step>)
    requires Ordered(s) && RunsOnce(s) && IsRun(s, steps)
    ensures RunsOnce(End(s, steps))
    decreases |steps|
  {
    if steps == [] {
    } else {
      StepOrdered(s, steps[0]);
      StepRunsOnce(s, steps[0]);
      RunRunsOnce(Apply(s, steps[0]), steps[1..]);
    }
  }

  /** A worker that finished its task looks for more, one whose task threw is about to die;
      either way the task is done. */
  lemma TaskEnds(s: State, step: Step)
    requires Enabled(s, step) && (step.Finish? || step.Throw?)
    ensures var s' := Apply(s, step);
            s'.workers == s.workers[step.w := if step.Finish? then Fetching else Dying] &&
            s'.done == s.done + {s.workers[step.w].task}
  {}

  /** A thread comes out of wait(k) exactly when its condition holds, and otherwise sleeps. */
  lemma WaitReturnsIff(s: State, v: Tid, k: nat)
    ensures v !in s.waiters ==>
              (v !in Apply(s, Wait(v, k)).waiters <==> WaitOver(s, k)) &&
              (v in Apply(s, Wait(v, k)).waiters ==> Apply(s, Wait(v, k)).waiters[v] == Asleep(k))
    ensures v in s.waiters && s.waiters[v] == Awake(k) ==>
              (v !in Apply(s, ResumeWait(v)).waiters <==> WaitOver(s, k)) &&
              (v in Apply(s, ResumeWait(v)).waiters ==> Apply(s, ResumeWait(v)).waiters[v] == Asleep(k))
  {}

  /** So when wait(k) returns, of all the tasks scheduled so far at most k are unfinished. */
  lemma WaitReturnsQuiescent(steps: seq<Step>, v: Tid)
    requires IsRun(INIT, steps)
    ensures var s := End(INIT, steps);
            (forall k :: v !in s.waiters && v !in Apply(s, Wait(v, k)).waiters ==> |Unfinished(s)| <= k) &&
            (v in s.waiters && s.waiters[v].Awake? && v !in Apply(s, ResumeWait(v)).waiters ==>
               |Unfinished(s)| <= s.waiters[v].k)
  {
    var s := End(INIT, steps);
    ThresholdQuiescence(steps);
    forall k | v !in s.waiters && v !in Apply(s, Wait(v, k)).waiters ensures |Unfinished(s)| <= k {
      WaitReturnsIff(s, v, k);
    }
    if v in s.waiters && s.waiters[v].Awake? { WaitReturnsIff(s, v, s.waiters[v].k); }
  }
}
