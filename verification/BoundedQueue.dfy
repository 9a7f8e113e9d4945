/** The bounded queues with two condition variables: BoundedBlockingQueue, which
    notifies while it holds the mutex, and spdlog's mpmc_blocking_queue, which
    notifies after releasing it and adds overrunning and timed operations. */
module BoundedQueue {
  import opened Threads

  /** Where a thread is between two critical sections. A parked thread becomes
      woken by a notification or spuriously, and then re-tests its condition. */
  datatype Pc<T> =
    | Idle
    | ParkedPut(x: T)
    | WokenPut(x: T)
    | ParkedTake
    | WokenTake
    | ExpiredTake
    | NotifyTaker
    | NotifyPutter

  datatype Departure<T> = Taken(x: T) | Overrun(x: T)

  /** heldNotify: the notification happens before the mutex is released. */
  datatype State<T> = State(
    heldNotify: bool, capacity: nat, queue: seq<T>, pcs: map<Tid, Pc<T>>,
    entered: seq<T>, left: seq<Departure<T>>)

  datatype Step<T> =
    | Put(t: Tid, x: T)
    | PutNowait(t: Tid, x: T)
    | ResumePut(t: Tid)
    | Take(t: Tid)
    | ResumeTake(t: Tid)
    | Expire(t: Tid)
    | GiveUp(t: Tid)
    | NotifyOne(t: Tid, w: Tid)
    | NotifyNone(t: Tid)
    | Spurious(t: Tid)

  function PcOf<T>(s: State<T>, t: Tid): Pc<T> { if t in s.pcs then s.pcs[t] else Idle }

  predicate Full<T>(s: State<T>) { |s.queue| == s.capacity }

  ghost predicate Notifying<T(!new)>(s: State<T>) {
    exists t :: t in s.pcs && (s.pcs[t].NotifyTaker? || s.pcs[t].NotifyPutter?)
  }

  /** The mutex is free: no thread sits between its update and its notification
      while still holding it. */
  ghost predicate MutexFree<T(!new)>(s: State<T>) { s.heldNotify ==> !Notifying(s) }

  ghost predicate Enabled<T(!new)>(s: State<T>, step: Step<T>) {
    match step
    case Put(t, _) => MutexFree(s) && PcOf(s, t).Idle?
    case PutNowait(t, _) => !s.heldNotify && PcOf(s, t).Idle?
    case ResumePut(t) => MutexFree(s) && PcOf(s, t).WokenPut?
    case Take(t) => MutexFree(s) && PcOf(s, t).Idle?
    case ResumeTake(t) => MutexFree(s) && (PcOf(s, t).WokenTake? || PcOf(s, t).ExpiredTake?)
    case Expire(t) => !s.heldNotify && PcOf(s, t).ParkedTake?
    case GiveUp(t) => !s.heldNotify && PcOf(s, t).WokenTake? && s.queue == []
    case NotifyOne(t, w) =>
      (PcOf(s, t).NotifyTaker? && PcOf(s, w).ParkedTake?) || (PcOf(s, t).NotifyPutter? && PcOf(s, w).ParkedPut?)
    case NotifyNone(t) =>
      (PcOf(s, t).NotifyTaker? && Count(s.pcs, (p: Pc<T>) => p.ParkedTake?) == 0) ||
      (PcOf(s, t).NotifyPutter? && Count(s.pcs, (p: Pc<T>) => p.ParkedPut?) == 0)
    case Spurious(t) => PcOf(s, t).ParkedPut? || PcOf(s, t).ParkedTake?
  }

  function AfterPut<T>(s: State<T>, t: Tid, x: T): State<T> {
    if Full(s) then s.(pcs := s.pcs[t := ParkedPut(x)])
    else s.(queue := s.queue + [x], entered := s.entered + [x], pcs := s.pcs[t := NotifyTaker])
  }

  /** Pushing on a full ring drops its oldest item, the new one if it holds none. */
  function AfterPutNowait<T>(s: State<T>, t: Tid, x: T): State<T> {
    var q := s.queue + [x];
    if Full(s) then
      s.(queue := q[1..], entered := s.entered + [x], left := s.left + [Overrun(q[0])],
         pcs := s.pcs[t := NotifyTaker])
    else s.(queue := q, entered := s.entered + [x], pcs := s.pcs[t := NotifyTaker])
  }

  function AfterTake<T>(s: State<T>, t: Tid): State<T> {
    if s.queue == [] then
      s.(pcs := s.pcs[t := if PcOf(s, t).ExpiredTake? then Idle else ParkedTake])
    else s.(queue := s.queue[1..], left := s.left + [Taken(s.queue[0])], pcs := s.pcs[t := NotifyPutter])
  }

  function Woken<T>(p: Pc<T>): Pc<T> { if p.ParkedPut? then WokenPut(p.x) else WokenTake }

  ghost function Apply<T(!new)>(s: State<T>, step: Step<T>): State<T>
    requires Enabled(s, step)
  {
    match step
    case Put(t, x) => AfterPut(s, t, x)
    case PutNowait(t, x) => AfterPutNowait(s, t, x)
    case ResumePut(t) => AfterPut(s, t, PcOf(s, t).x)
    case Take(t) => AfterTake(s, t)
    case ResumeTake(t) => AfterTake(s, t)
    case Expire(t) => s.(pcs := s.pcs[t := ExpiredTake])
    case GiveUp(t) => s.(pcs := s.pcs[t := Idle])
    case NotifyOne(t, w) => s.(pcs := s.pcs[w := Woken(PcOf(s, w))][t := Idle])
    case NotifyNone(t) => s.(pcs := s.pcs[t := Idle])
    case Spurious(t) => s.(pcs := s.pcs[t := Woken(PcOf(s, t))])
  }

  function Init<T>(heldNotify: bool, capacity: nat): State<T> {
    State(heldNotify, capacity, [], map[], [], [])
  }

  ghost predicate IsRun<T(!new)>(s: State<T>, steps: seq<Step<T>>)
    decreases |steps|
  {
    steps == [] || (Enabled(s, steps[0]) && IsRun(Apply(s, steps[0]), steps[1..]))
  }

  ghost function End<T(!new)>(s: State<T>, steps: seq<Step<T>>): State<T>
    requires IsRun(s, steps)
    decreases |steps|
  {
    if steps == [] then s else End(Apply(s, steps[0]), steps[1..])
  }

  function Items<T>(left: seq<Departure<T>>): (r: seq<T>)
    ensures |r| == |left|
  {
    seq(|left|, i requires 0 <= i < |left| => left[i].x)
  }

  /** How many threads are at each kind of point. */
  datatype Census = Census(
    parkedTakes: nat, wokenTakes: nat, notifyTakers: nat,
    parkedPuts: nat, wokenPuts: nat, notifyPutters: nat)

  ghost function Tally<T(!new)>(pcs: map<Tid, Pc<T>>): Census {
    Census(
      Count(pcs, (p: Pc<T>) => p.ParkedTake?),
      Count(pcs, (p: Pc<T>) => p.WokenTake?),
      Count(pcs, (p: Pc<T>) => p.NotifyTaker?),
      Count(pcs, (p: Pc<T>) => p.ParkedPut?),
      Count(pcs, (p: Pc<T>) => p.WokenPut?),
      Count(pcs, (p: Pc<T>) => p.NotifyPutter?))
  }

  function One(b: bool): nat { if b then 1 else 0 }

  lemma TallyMove<T(!new)>(s: State<T>, t: Tid, p: Pc<T>)
    ensures var a, b, o := Tally(s.pcs), Tally(s.pcs[t := p]), PcOf(s, t);
            b.parkedTakes == a.parkedTakes - One(o.ParkedTake?) + One(p.ParkedTake?) &&
            b.wokenTakes == a.wokenTakes - One(o.WokenTake?) + One(p.WokenTake?) &&
            b.notifyTakers == a.notifyTakers - One(o.NotifyTaker?) + One(p.NotifyTaker?) &&
            b.parkedPuts == a.parkedPuts - One(o.ParkedPut?) + One(p.ParkedPut?) &&
            b.wokenPuts == a.wokenPuts - One(o.WokenPut?) + One(p.WokenPut?) &&
            b.notifyPutters == a.notifyPutters - One(o.NotifyPutter?) + One(p.NotifyPutter?)
  {
    CountMove(s.pcs, t, p, (p: Pc<T>) => p.ParkedTake?);
    CountMove(s.pcs, t, p, (p: Pc<T>) => p.WokenTake?);
    CountMove(s.pcs, t, p, (p: Pc<T>) => p.NotifyTaker?);
    CountMove(s.pcs, t, p, (p: Pc<T>) => p.ParkedPut?);
    CountMove(s.pcs, t, p, (p: Pc<T>) => p.WokenPut?);
    CountMove(s.pcs, t, p, (p: Pc<T>) => p.NotifyPutter?);
  }

  /** No waiter is stranded: queued items are covered by consumers already woken
      and notifications on their way, and free slots likewise by producers. */
  ghost predicate NoneStranded<T(!new)>(s: State<T>) {
    var c := Tally(s.pcs);
    (c.parkedTakes > 0 ==> |s.queue| <= c.wokenTakes + c.notifyTakers) &&
    (c.parkedPuts > 0 ==> s.capacity - |s.queue| <= c.wokenPuts + c.notifyPutters)
  }

  /** Items leave in the order in which they entered, each exactly once. */
  ghost predicate InOrder<T(!new)>(s: State<T>) {
    |s.queue| <= s.capacity && s.entered == Items(s.left) + s.queue
  }

  lemma ItemsSnoc<T(!new)>(left: seq<Departure<T>>, d: Departure<T>, rest: seq<T>)
    ensures Items(left + [d]) + rest == Items(left) + ([d.x] + rest)
  {}

  lemma StepInOrder<T(!new)>(s: State<T>, step: Step<T>)
    requires InOrder(s) && Enabled(s, step)
    ensures InOrder(Apply(s, step))
  {
    match step
    case PutNowait(_, x) =>
      var q := s.queue + [x];
      ItemsSnoc(s.left, Overrun(q[0]), q[1..]);
      assert q == [q[0]] + q[1..];
      assert s.entered + [x] == Items(s.left) + q;
    case Put(_, x) => assert s.entered + [x] == Items(s.left) + (s.queue + [x]);
    case ResumePut(t) =>
      var x := PcOf(s, t).x;
      assert s.entered + [x] == Items(s.left) + (s.queue + [x]);
    case Take(_) => TakeInOrder(s);
    case ResumeTake(_) => TakeInOrder(s);
    case _ =>
  }

  lemma TakeInOrder<T(!new)>(s: State<T>)
    requires InOrder(s)
    ensures s.queue != [] ==> s.entered == Items(s.left + [Taken(s.queue[0])]) + s.queue[1..]
  {
    if s.queue != [] {
      ItemsSnoc(s.left, Taken(s.queue[0]), s.queue[1..]);
      assert s.queue == [s.queue[0]] + s.queue[1..];
    }
  }

  /** What one thread's move does to the balance of items against wake-ups. */
  lemma MoveNoneStranded<T(!new)>(s: State<T>, t: Tid, p: Pc<T>, queue: seq<T>)
    requires InOrder(s) && NoneStranded(s) && |queue| <= s.capacity
    requires p.ParkedTake? ==> queue == []
    requires p.ParkedPut? ==> |queue| == s.capacity
    requires var o := PcOf(s, t);
             |queue| - |s.queue| <= One(p.WokenTake?) - One(o.WokenTake?) + One(p.NotifyTaker?) - One(o.NotifyTaker?) ||
             (queue == [] && s.queue == [])
    requires var o := PcOf(s, t);
             |s.queue| - |queue| <= One(p.WokenPut?) - One(o.WokenPut?) + One(p.NotifyPutter?) - One(o.NotifyPutter?) ||
             (|queue| == |s.queue| == s.capacity)
    ensures NoneStranded(s.(pcs := s.pcs[t := p], queue := queue))
  {
    TallyMove(s, t, p);
  }

  lemma NotifyNoneStranded<T(!new)>(s: State<T>, t: Tid, w: Tid)
    requires InOrder(s) && NoneStranded(s) && Enabled(s, NotifyOne(t, w))
    ensures NoneStranded(Apply(s, NotifyOne(t, w)))
  {
    var p := Woken(PcOf(s, w));
    TallyMove(s, w, p);
    TallyMove(s.(pcs := s.pcs[w := p]), t, Idle);
  }

  lemma PutNoneStranded<T(!new)>(s: State<T>, t: Tid, x: T)
    requires InOrder(s) && NoneStranded(s) && (PcOf(s, t).Idle? || PcOf(s, t).WokenPut?)
    ensures NoneStranded(AfterPut(s, t, x))
  {
    if Full(s) {
      MoveNoneStranded(s, t, ParkedPut(x), s.queue);
    } else {
      MoveNoneStranded(s, t, NotifyTaker, s.queue + [x]);
    }
  }

  lemma PutNowaitNoneStranded<T(!new)>(s: State<T>, t: Tid, x: T)
    requires InOrder(s) && NoneStranded(s) && PcOf(s, t).Idle?
    ensures NoneStranded(AfterPutNowait(s, t, x))
  {
    MoveNoneStranded(s, t, NotifyTaker, AfterPutNowait(s, t, x).queue);
  }

  lemma TakeNoneStranded<T(!new)>(s: State<T>, t: Tid)
    requires InOrder(s) && NoneStranded(s)
    requires PcOf(s, t).Idle? || PcOf(s, t).WokenTake? || PcOf(s, t).ExpiredTake?
    ensures NoneStranded(AfterTake(s, t))
  {
    if s.queue == [] {
      MoveNoneStranded(s, t, if PcOf(s, t).ExpiredTake? then Idle else ParkedTake, s.queue);
    } else {
      MoveNoneStranded(s, t, NotifyPutter, s.queue[1..]);
    }
  }

  lemma StepNoneStranded<T(!new)>(s: State<T>, step: Step<T>)
    requires InOrder(s) && NoneStranded(s) && Enabled(s, step)
    ensures NoneStranded(Apply(s, step))
  {
    match step
    case Put(t, x) => PutNoneStranded(s, t, x);
    case PutNowait(t, x) => PutNowaitNoneStranded(s, t, x);
    case ResumePut(t) => PutNoneStranded(s, t, PcOf(s, t).x);
    case Take(t) => TakeNoneStranded(s, t);
    case ResumeTake(t) => TakeNoneStranded(s, t);
    case Expire(t) => MoveNoneStranded(s, t, ExpiredTake, s.queue);
    case GiveUp(t) => MoveNoneStranded(s, t, Idle, s.queue);
    case NotifyOne(t, w) => NotifyNoneStranded(s, t, w);
    case NotifyNone(t) => TallyMove(s, t, Idle);
    case Spurious(t) => MoveNoneStranded(s, t, Woken(PcOf(s, t)), s.queue);
  }

  /** In every interleaving items leave in entry order within the capacity, and no
      waiter is stranded. */
  lemma {:induction false} EveryRun<T(!new)>(s: State<T>, steps: seq<Step<T>>)
    requires InOrder(s) && NoneStranded(s) && IsRun(s, steps)
    ensures InOrder(End(s, steps)) && NoneStranded(End(s, steps))
    ensures s.entered <= End(s, steps).entered && s.left <= End(s, steps).left
    decreases |steps|
  {
    if steps == [] {
    } else {
      StepInOrder(s, steps[0]);
      StepNoneStranded(s, steps[0]);
      EveryRun(Apply(s, steps[0]), steps[1..]);
    }
  }

  ghost predicate Quiet<T(!new)>(s: State<T>) {
    var c := Tally(s.pcs);
    c.wokenTakes == c.notifyTakers == c.wokenPuts == c.notifyPutters == 0
  }

  /** When nothing is in flight, consumers wait only on an empty queue, producers
      only on a full one, and so never both. */
  lemma NoDeadlock<T(!new)>(heldNotify: bool, capacity: nat, steps: seq<Step<T>>)
    requires capacity > 0 && IsRun(Init<T>(heldNotify, capacity), steps)
    ensures var s := End(Init<T>(heldNotify, capacity), steps); var c := Tally(s.pcs);
            Quiet(s) ==> (c.parkedTakes > 0 ==> s.queue == []) && (c.parkedPuts > 0 ==> |s.queue| == capacity)
                         && (c.parkedTakes == 0 || c.parkedPuts == 0)
  {
    var s0 := Init<T>(heldNotify, capacity);
    CountZero(s0.pcs, (p: Pc<T>) => p.ParkedTake?);
    CountZero(s0.pcs, (p: Pc<T>) => p.ParkedPut?);
    EveryRun(s0, steps);
    CapacityKept(s0, steps);
  }

  lemma {:induction false} CapacityKept<T(!new)>(s: State<T>, steps: seq<Step<T>>)
    requires IsRun(s, steps)
    ensures End(s, steps).capacity == s.capacity && End(s, steps).heldNotify == s.heldNotify
    decreases |steps|
  {
    if steps == [] {
    } else {
      CapacityKept(Apply(s, steps[0]), steps[1..]);
    }
  }

  /** The item that enters the queue in a step: a blocking put needs room, an overrunning
      one does not. */
  function Entering<T>(s: State<T>, step: Step<T>): seq<T> {
    match step
    case Put(_, x) => if Full(s) then [] else [x]
    case PutNowait(_, x) => [x]
    case ResumePut(t) => if Full(s) || !PcOf(s, t).WokenPut? then [] else [PcOf(s, t).x]
    case _ => []
  }

  /** The item that leaves: the oldest one, taken or overrun. */
  function Leaving<T>(s: State<T>, step: Step<T>): seq<Departure<T>> {
    match step
    case Take(_) => if s.queue == [] then [] else [Taken(s.queue[0])]
    case ResumeTake(_) => if s.queue == [] then [] else [Taken(s.queue[0])]
    case PutNowait(_, x) => if Full(s) then [Overrun(if s.queue == [] then x else s.queue[0])] else []
    case _ => []
  }

  ghost function EnteringIn<T(!new)>(s: State<T>, steps: seq<Step<T>>): seq<T>
    requires IsRun(s, steps)
    decreases |steps|
  {
    if steps == [] then [] else Entering(s, steps[0]) + EnteringIn(Apply(s, steps[0]), steps[1..])
  }

  ghost function LeavingIn<T(!new)>(s: State<T>, steps: seq<Step<T>>): seq<Departure<T>>
    requires IsRun(s, steps)
    decreases |steps|
  {
    if steps == [] then [] else Leaving(s, steps[0]) + LeavingIn(Apply(s, steps[0]), steps[1..])
  }

  lemma StepThroughput<T(!new)>(s: State<T>, step: Step<T>)
    requires Enabled(s, step)
    ensures Apply(s, step).entered == s.entered + Entering(s, step)
    ensures Apply(s, step).left == s.left + Leaving(s, step)
  {
    assert s.entered + [] == s.entered && s.left + [] == s.left;
  }

  /** What has entered over a run is what the steps put in, in their order. */
  lemma {:induction false} RunEntered<T(!new)>(s: State<T>, steps: seq<Step<T>>)
    requires IsRun(s, steps)
    ensures End(s, steps).entered == s.entered + EnteringIn(s, steps)
    decreases |steps|
  {
    if steps == [] {
    } else {
      var s1 := Apply(s, steps[0]);
      StepThroughput(s, steps[0]);
      RunEntered(s1, steps[1..]);
      Assoc(s.entered, Entering(s, steps[0]), EnteringIn(s1, steps[1..]));
    }
  }

  /** What has left is what they took or overran; with InOrder this fixes the queue. */
  lemma {:induction false} RunLeft<T(!new)>(s: State<T>, steps: seq<Step<T>>)
    requires IsRun(s, steps)
    ensures End(s, steps).left == s.left + LeavingIn(s, steps)
    decreases |steps|
  {
    if steps == [] {
    } else {
      var s1 := Apply(s, steps[0]);
      StepThroughput(s, steps[0]);
      RunLeft(s1, steps[1..]);
      Assoc(s.left, Leaving(s, steps[0]), LeavingIn(s1, steps[1..]));
    }
  }

  /** An overrunning put on a full queue loses its oldest item and keeps the new one. */
  lemma NowaitDropsOldest<T(!new)>(s: State<T>, t: Tid, x: T)
    requires InOrder(s) && Enabled(s, PutNowait(t, x)) && s.capacity > 0
    ensures Apply(s, PutNowait(t, x)).queue == (if Full(s) then s.queue[1..] else s.queue) + [x]
  {
    if Full(s) { assert (s.queue + [x])[1..] == s.queue[1..] + [x]; }
  }

  /** The item that a thread waits to put in. */
  function Held<T>(s: State<T>, t: Tid): seq<T> {
    var p := PcOf(s, t);
    if p.ParkedPut? || p.WokenPut? then [p.x] else []
  }

  function Puts<T>(step: Step<T>, t: Tid): seq<T> {
    if (step.Put? || step.PutNowait?) && step.t == t then [step.x] else []
  }

  function PutsIn<T>(steps: seq<Step<T>>, t: Tid): seq<T> {
    if steps == [] then [] else Puts(steps[0], t) + PutsIn(steps[1..], t)
  }

  ghost function EnteredBy<T(!new)>(s: State<T>, steps: seq<Step<T>>, t: Tid): seq<T>
    requires IsRun(s, steps)
    decreases |steps|
  {
    if steps == [] then []
    else (if steps[0].t == t then Entering(s, steps[0]) else []) + EnteredBy(Apply(s, steps[0]), steps[1..], t)
  }

  lemma StepPuts<T(!new)>(s: State<T>, step: Step<T>, t: Tid)
    requires Enabled(s, step)
    ensures Held(s, t) + Puts(step, t) == (if step.t == t then Entering(s, step) else []) + Held(Apply(s, step), t)
  {}

  /** No put is lost, doubled or reordered: what a thread puts enters in that order, except
      for the one item it may still be waiting to put. */
  lemma {:induction false} RunPuts<T(!new)>(s: State<T>, steps: seq<Step<T>>, t: Tid)
    requires IsRun(s, steps)
    ensures Held(s, t) + PutsIn(steps, t) == EnteredBy(s, steps, t) + Held(End(s, steps), t)
    decreases |steps|
  {
    if steps == [] {
    } else {
      var s1 := Apply(s, steps[0]);
      StepPuts(s, steps[0], t);
      RunPuts(s1, steps[1..], t);
      var own := if steps[0].t == t then Entering(s, steps[0]) else [];
      Regroup(Held(s, t), Puts(steps[0], t), PutsIn(steps[1..], t), own, Held(s1, t), EnteredBy(s1, steps[1..], t),
              Held(End(s, steps), t));
    }
  }

  lemma Regroup<T>(a: seq<T>, b: seq<T>, c: seq<T>, d: seq<T>, e: seq<T>, f: seq<T>, g: seq<T>)
    requires a + b == d + e && e + c == f + g
    ensures a + (b + c) == (d + f) + g
  {
    assert a + (b + c) == (a + b) + c == d + (e + c) == d + (f + g);
  }

  /** A thread inside a take. */
  predicate Taking<T>(s: State<T>, t: Tid) {
    PcOf(s, t).ParkedTake? || PcOf(s, t).WokenTake? || PcOf(s, t).ExpiredTake?
  }

  /** A timed take ends empty-handed: its time is up and it finds nothing. */
  predicate TimesOut<T>(s: State<T>, step: Step<T>) {
    step.GiveUp? || (step.ResumeTake? && PcOf(s, step.t).ExpiredTake? && s.queue == [])
  }

  ghost function TakesIn<T(!new)>(steps: seq<Step<T>>, t: Tid): nat {
    if steps == [] then 0 else One(steps[0] == Take(t)) + TakesIn(steps[1..], t)
  }

  /** How many takes of thread t got an item, or timed out. */
  ghost function EndedBy<T(!new)>(s: State<T>, steps: seq<Step<T>>, t: Tid): nat
    requires IsRun(s, steps)
    decreases |steps|
  {
    if steps == [] then 0
    else Ends(s, steps[0], t) + EndedBy(Apply(s, steps[0]), steps[1..], t)
  }

  function Ends<T>(s: State<T>, step: Step<T>, t: Tid): nat {
    One(step.t == t && (TimesOut(s, step) || ((step.Take? || step.ResumeTake?) && s.queue != [])))
  }

  lemma StepTakes<T(!new)>(s: State<T>, step: Step<T>, t: Tid)
    requires Enabled(s, step)
    ensures One(Taking(s, t)) + One(step == Take(t)) == Ends(s, step, t) + One(Taking(Apply(s, step), t))
  {}

  /** A take ends only with an item or, if timed, by running out of time. */
  lemma {:induction false} RunTakes<T(!new)>(s: State<T>, steps: seq<Step<T>>, t: Tid)
    requires IsRun(s, steps)
    ensures One(Taking(s, t)) + TakesIn(steps, t) == EndedBy(s, steps, t) + One(Taking(End(s, steps), t))
    decreases |steps|
  {
    if steps == [] {
    } else {
      StepTakes(s, steps[0], t);
      RunTakes(Apply(s, steps[0]), steps[1..], t);
    }
  }
}
