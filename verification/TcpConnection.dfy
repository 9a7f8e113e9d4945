/** The sending side of TcpConnection: the output buffer, the interest of the channel,
    and shutdown deferred until the buffer is drained. Each operation is a function on
    the connection's contents; the class carries the source's fields and methods. */
module TcpConnection {
  import opened Integers

  datatype State = Disconnected | Connecting | Connected | Disconnecting

  /** The outcome of write(2): how much the kernel took, or why it took nothing.
      Broken stands for EPIPE and ECONNRESET. */
  datatype WriteResult = Wrote(n: nat) | WouldBlock | Broken | OtherError

  /** The functors that the connection queues into its loop. */
  datatype Task =
    | SendTask(msg: seq<Byte>)
    | ShutdownTask
    | ForceCloseTask
    | WriteCompleteTask
    | HighWaterMarkTask(size: nat)

  datatype Event =
    | Establish
    | Send(msg: seq<Byte>, inLoop: bool, result: WriteResult)
    | Shutdown(inLoop: bool)
    | ForceClose
    | Writable(result: WriteResult)
    | PeerClosed
    | Destroy
    | RunTask(result: WriteResult)

  datatype Config = Config(highWaterMark: nat, hasWriteComplete: bool, hasHighWaterMark: bool)

  /** reading and writing are the channel's interest; shut says that the write side of
      the socket is shut down, closed that the connection was torn down; wire holds the
      bytes that the kernel took, accepted the messages that were not dropped. */
  datatype Conn = Conn(
    config: Config, state: State, reading: bool, writing: bool, output: seq<Byte>, queued: seq<Task>,
    shut: bool, closed: bool, wire: seq<Byte>, accepted: seq<seq<Byte>>)

  function Concat(msgs: seq<seq<Byte>>): seq<Byte> {
    if msgs == [] then [] else Concat(msgs[..|msgs| - 1]) + msgs[|msgs| - 1]
  }

  /** What the kernel may answer to a write of data; after the write side is shut
      down it takes nothing and reports a broken connection. */
  predicate KernelMay(result: WriteResult, data: seq<Byte>, shut: bool) {
    (result.Wrote? ==> result.n <= |data|) &&
    (shut ==> result.Broken? || (result == Wrote(0) && data == []))
  }

  /** How much the kernel took. */
  function TakenBy(result: WriteResult): nat { if result.Wrote? then result.n else 0 }

  predicate Idle(c: Conn) { !c.writing && c.output == [] }

  /** The queue after a write that leaves this many bytes: a complete write and a
      buffer that reaches the high water mark each queue their callback. */
  function AfterWrite(config: Config, q: seq<Task>, wrote: bool, remaining: nat): seq<Task> {
    if remaining == 0 then (if wrote && config.hasWriteComplete then q + [WriteCompleteTask] else q)
    else if 0 < config.highWaterMark <= remaining && config.hasHighWaterMark then q + [HighWaterMarkTask(remaining)]
    else q
  }

  /** sendInLoop: a message is taken whole by an idle connection and otherwise dropped. */
  function Sent(c: Conn, data: seq<Byte>, result: WriteResult): Conn
    requires result.Wrote? ==> result.n <= |data|
  {
    if !Idle(c) || result.Broken? then c
    else
      var n := TakenBy(result);
      c.(wire := c.wire + data[..n], output := data[n..], writing := n < |data|, accepted := c.accepted + [data],
         queued := AfterWrite(c.config, c.queued, result.Wrote?, |data| - n))
  }

  /** shutdownInLoop. */
  function ShutDown(c: Conn): Conn { if c.writing then c else c.(state := Disconnected, shut := true) }

  /** handleWrite. */
  function Drained(c: Conn, result: WriteResult): Conn
    requires c.writing && result.Wrote? ==> result.n <= |c.output|
  {
    if !c.writing || TakenBy(result) == 0 then c
    else
      var d := c.(wire := c.wire + c.output[..result.n], output := c.output[result.n..]);
      if d.output != [] then d
      else
        var e := d.(writing := false, queued := AfterWrite(c.config, c.queued, true, 0));
        if c.state == Disconnecting then ShutDown(e) else e
  }

  function Closed(c: Conn): Conn { c.(state := Disconnected, reading := false, writing := false, closed := true) }

  predicate Live(c: Conn) { c.state == Connected || c.state == Disconnecting }

  /** The functor at the head of the queue. */
  function AfterTask(c: Conn, result: WriteResult): Conn
    requires c.queued != [] && (c.queued[0].SendTask? && result.Wrote? ==> result.n <= |c.queued[0].msg|)
  {
    var d := c.(queued := c.queued[1..]);
    match c.queued[0]
    case SendTask(msg) => Sent(d, msg, result)
    case ShutdownTask => ShutDown(d)
    case ForceCloseTask => if Live(d) then Closed(d) else d
    case _ => d
  }

  /** Whether an event can happen now, given how the kernel may answer. */
  predicate Possible(c: Conn, event: Event) {
    match event
    case Establish => c.state == Connecting
    case Send(msg, _, result) => KernelMay(result, msg, c.shut)
    case Writable(result) => c.writing ==> KernelMay(result, c.output, c.shut)
    case RunTask(result) => c.queued != [] && (c.queued[0].SendTask? ==> KernelMay(result, c.queued[0].msg, c.shut))
    case _ => true
  }

  function After(c: Conn, event: Event): Conn
    requires Possible(c, event)
  {
    match event
    case Establish => c.(state := Connected, reading := true)
    case Send(msg, inLoop, result) =>
      if c.state != Connected then c
      else if inLoop then Sent(c, msg, result)
      else c.(queued := c.queued + [SendTask(msg)])
    case Shutdown(inLoop) =>
      if c.state != Connected then c
      else if inLoop then ShutDown(c.(state := Disconnecting))
      else c.(state := Disconnecting, queued := c.queued + [ShutdownTask])
    case ForceClose => if Live(c) then c.(state := Disconnecting, queued := c.queued + [ForceCloseTask]) else c
    case Writable(result) => Drained(c, result)
    case PeerClosed => Closed(c)
    case Destroy => if c.state == Connected then Closed(c) else c
    case RunTask(result) => AfterTask(c, result)
  }

  /** Any sequence of events; those that cannot happen when their turn comes are skipped. */
  function Next(c: Conn, event: Event): Conn { if Possible(c, event) then After(c, event) else c }

  function AfterAll(c: Conn, events: seq<Event>): Conn
    decreases |events|
  {
    if events == [] then c else AfterAll(Next(c, events[0]), events[1..])
  }

  /** Until the connection is torn down, write interest is on exactly when output waits
      and read interest exactly once it is established; wire and output together are the
      accepted messages in order; and the write side is shut only with all of them on
      the wire; and while it is disconnecting, a write or a functor that ends the output is
      still to come. */
  ghost predicate Ok(c: Conn) {
    c.wire + c.output == Concat(c.accepted) &&
    (c.writing ==> c.output != []) && (!c.closed && c.output != [] ==> c.writing) &&
    (c.shut || c.closed ==> c.state == Disconnected) &&
    (c.state == Disconnected && !c.closed ==> c.shut && c.output == []) &&
    (c.reading <==> c.state != Connecting && !c.closed) &&
    (c.state == Disconnecting ==> c.writing || EndsOutput(c.queued)) &&
    (c.state == Connecting ==> c.queued == [] && c.output == [])
  }

  predicate EndsOutput(q: seq<Task>) { ShutdownTask in q || ForceCloseTask in q }

  lemma Accept(wire: seq<Byte>, waiting: seq<Byte>, accepted: seq<seq<Byte>>, data: seq<Byte>, n: nat)
    requires waiting == [] && wire + waiting == Concat(accepted) && n <= |data|
    ensures (wire + data[..n]) + data[n..] == Concat(accepted + [data])
  {
    assert (accepted + [data])[..|accepted|] == accepted;
    assert data == data[..n] + data[n..];
    assert wire + waiting == wire;
  }

  lemma SentWhole(c: Conn, data: seq<Byte>, result: WriteResult)
    requires Idle(c) && !result.Broken? && (result.Wrote? ==> result.n <= |data|)
    ensures var d := Sent(c, data, result);
            d.wire + d.output == c.wire + data && d.accepted == c.accepted + [data] && (d.writing <==> d.output != [])
  {
    var n := TakenBy(result);
    assert (c.wire + data[..n]) + data[n..] == c.wire + (data[..n] + data[n..]);
    assert data[..n] + data[n..] == data;
  }

  lemma SentOk(c: Conn, data: seq<Byte>, result: WriteResult)
    requires Ok(c) && c.state != Connecting && KernelMay(result, data, c.shut)
    ensures Ok(Sent(c, data, result)) && c.wire <= Sent(c, data, result).wire
  {
    if Idle(c) && !result.Broken? {
      var n := TakenBy(result);
      Accept(c.wire, c.output, c.accepted, data, n);
      WriteEnds(c.config, c.queued, result.Wrote?, |data| - n);
      Remaining(data, n);
      Grown(c.wire, data[..n]);
    }
  }

  lemma WriteEnds(config: Config, q: seq<Task>, wrote: bool, remaining: nat)
    ensures EndsOutput(q) ==> EndsOutput(AfterWrite(config, q, wrote, remaining))
  {}

  lemma Remaining(data: seq<Byte>, n: nat)
    requires n <= |data|
    ensures data[n..] != [] <==> n < |data|
  {}

  lemma Grown(wire: seq<Byte>, more: seq<Byte>)
    ensures wire <= wire + more
  {}

  lemma DrainedOk(c: Conn, result: WriteResult)
    requires Ok(c) && (c.writing ==> KernelMay(result, c.output, c.shut))
    ensures Ok(Drained(c, result)) && c.wire <= Drained(c, result).wire
  {
    if c.writing && TakenBy(result) > 0 {
      assert c.output == c.output[..result.n] + c.output[result.n..];
      assert (c.wire + c.output[..result.n]) + c.output[result.n..] == c.wire + c.output;
    }
  }

  lemma StepOk(c: Conn, event: Event)
    requires Ok(c) && Possible(c, event)
    ensures Ok(After(c, event)) && c.wire <= After(c, event).wire && (c.shut ==> After(c, event).shut)
  {
    match event
    case Send(msg, inLoop, result) => if c.state == Connected { SentOk(c, msg, result); }
    case Writable(result) => DrainedOk(c, result);
    case RunTask(result) => TaskOk(c, result);
    case _ =>
  }

  lemma TaskOk(c: Conn, result: WriteResult)
    requires Ok(c) && Possible(c, RunTask(result))
    ensures Ok(AfterTask(c, result)) && c.wire <= AfterTask(c, result).wire && (c.shut ==> AfterTask(c, result).shut)
  {
    var t, d := c.queued[0], c.(queued := c.queued[1..]);
    assert c.queued == [t] + d.queued;
    if t.SendTask? {
      assert Ok(d);
      SentOk(d, t.msg, result);
    }
  }

  /** Every run keeps the invariant, and what is on the wire stays there. */
  lemma {:induction false} RunOk(c: Conn, events: seq<Event>)
    requires Ok(c)
    ensures Ok(AfterAll(c, events)) && c.wire <= AfterAll(c, events).wire && (c.shut ==> AfterAll(c, events).shut)
    decreases |events|
  {
    if events == [] {
    } else {
      if Possible(c, events[0]) { StepOk(c, events[0]); }
      RunOk(Next(c, events[0]), events[1..]);
    }
  }

  /** The message that reaches sendInLoop in this event, if any. */
  function Reaching(c: Conn, event: Event): seq<seq<Byte>> {
    if !Possible(c, event) then []
    else match event
      case Send(msg, inLoop, _) => if c.state == Connected && inLoop then [msg] else []
      case RunTask(_) => if c.queued[0].SendTask? then [c.queued[0].msg] else []
      case _ => []
  }

  function ResultOf(event: Event): WriteResult {
    match event case Send(_, _, result) => result case RunTask(result) => result case _ => WouldBlock
  }

  /** It is accepted exactly if the connection is idle and not broken. */
  function Accepting(c: Conn, event: Event): seq<seq<Byte>> {
    if Idle(c) && !ResultOf(event).Broken? then Reaching(c, event) else []
  }

  function ReachedIn(c: Conn, events: seq<Event>): seq<seq<Byte>>
    decreases |events|
  {
    if events == [] then [] else Reaching(c, events[0]) + ReachedIn(Next(c, events[0]), events[1..])
  }

  function AcceptedIn(c: Conn, events: seq<Event>): seq<seq<Byte>>
    decreases |events|
  {
    if events == [] then [] else Accepting(c, events[0]) + AcceptedIn(Next(c, events[0]), events[1..])
  }

  /** a is b with some elements left out. */
  ghost predicate Subsequence<T>(a: seq<T>, b: seq<T>) {
    a == [] || (b != [] && ((a[0] == b[0] && Subsequence(a[1..], b[1..])) || Subsequence(a, b[1..])))
  }

  lemma {:induction false} SubsequenceCons<T>(x: seq<T>, a: seq<T>, b: seq<T>)
    requires |x| <= 1 && Subsequence(a, b)
    ensures Subsequence(x + a, x + b) && Subsequence(a, x + b)
  {
    if x == [] {
      assert x + a == a && x + b == b;
    } else {
      assert (x + a)[1..] == a && (x + b)[1..] == b;
    }
  }

  lemma StepAccepts(c: Conn, event: Event)
    requires Possible(c, event)
    ensures After(c, event).accepted == c.accepted + Accepting(c, event)
  {
    assert c.accepted + [] == c.accepted;
  }

  /** The accepted messages are those that reached an idle, unbroken connection. */
  lemma {:induction false} RunAccepts(c: Conn, events: seq<Event>)
    ensures AfterAll(c, events).accepted == c.accepted + AcceptedIn(c, events)
    decreases |events|
  {
    if events == [] {
    } else {
      var d := Next(c, events[0]);
      if Possible(c, events[0]) { StepAccepts(c, events[0]); }
      assert d.accepted == c.accepted + Accepting(c, events[0]);
      RunAccepts(d, events[1..]);
      Regroup(c.accepted, Accepting(c, events[0]), AcceptedIn(d, events[1..]),
              c.accepted, Accepting(c, events[0]), Accepting(c, events[0]), AcceptedIn(d, events[1..]));
    }
  }

  /** They are some of the messages that reached it, in that order. */
  lemma {:induction false} AcceptedInOrder(c: Conn, events: seq<Event>)
    ensures Subsequence(AcceptedIn(c, events), ReachedIn(c, events))
    decreases |events|
  {
    if events == [] {
    } else {
      var d := Next(c, events[0]);
      AcceptedInOrder(d, events[1..]);
      SubsequenceCons(Reaching(c, events[0]), AcceptedIn(d, events[1..]), ReachedIn(d, events[1..]));
      assert [] + AcceptedIn(d, events[1..]) == AcceptedIn(d, events[1..]);
    }
  }

  /** The messages of the send functors in a queue. */
  function TaskMessages(q: seq<Task>): seq<seq<Byte>> {
    if q == [] then [] else (if q[0].SendTask? then [q[0].msg] else []) + TaskMessages(q[1..])
  }

  /** What another thread's send() queues, and what a functor brings to sendInLoop. */
  function Queueing(c: Conn, event: Event): seq<seq<Byte>> {
    if event.Send? && Possible(c, event) && c.state == Connected && !event.inLoop then [event.msg] else []
  }

  function QueuedIn(c: Conn, events: seq<Event>): seq<seq<Byte>>
    decreases |events|
  {
    if events == [] then [] else Queueing(c, events[0]) + QueuedIn(Next(c, events[0]), events[1..])
  }

  function ByTaskIn(c: Conn, events: seq<Event>): seq<seq<Byte>>
    decreases |events|
  {
    if events == [] then []
    else (if events[0].RunTask? then Reaching(c, events[0]) else []) + ByTaskIn(Next(c, events[0]), events[1..])
  }

  lemma {:induction false} TaskMessagesSnoc(q: seq<Task>, t: Task)
    ensures TaskMessages(q + [t]) == TaskMessages(q) + if t.SendTask? then [t.msg] else []
  {
    if q == [] {
      assert (q + [t])[1..] == [];
    } else {
      TaskMessagesSnoc(q[1..], t);
      assert (q + [t])[1..] == q[1..] + [t];
    }
  }

  lemma WriteQueue(config: Config, q: seq<Task>, wrote: bool, remaining: nat)
    ensures TaskMessages(AfterWrite(config, q, wrote, remaining)) == TaskMessages(q)
  {
    TaskMessagesSnoc(q, WriteCompleteTask);
    TaskMessagesSnoc(q, HighWaterMarkTask(remaining));
  }

  lemma SentQueue(c: Conn, data: seq<Byte>, result: WriteResult)
    requires result.Wrote? ==> result.n <= |data|
    ensures TaskMessages(Sent(c, data, result).queued) == TaskMessages(c.queued)
  {
    WriteQueue(c.config, c.queued, result.Wrote?, |data| - TakenBy(result));
  }

  /** One event takes at most the head of the queue and adds at its end. */
  lemma StepQueue(c: Conn, event: Event)
    requires Possible(c, event)
    ensures TaskMessages(c.queued) + Queueing(c, event) ==
            (if event.RunTask? then Reaching(c, event) else []) + TaskMessages(After(c, event).queued)
  {
    var q := TaskMessages(c.queued);
    assert q + [] == q && [] + q == q;
    match event
    case Send(msg, inLoop, result) =>
      TaskMessagesSnoc(c.queued, SendTask(msg));
      SentQueue(c, msg, result);
    case Shutdown(_) => TaskMessagesSnoc(c.queued, ShutdownTask);
    case ForceClose => TaskMessagesSnoc(c.queued, ForceCloseTask);
    case Writable(result) => WriteQueue(c.config, c.queued, true, 0);
    case RunTask(result) => TaskQueue(c, result);
    case _ =>
  }

  lemma TaskQueue(c: Conn, result: WriteResult)
    requires Possible(c, RunTask(result))
    ensures TaskMessages(c.queued) == Reaching(c, RunTask(result)) + TaskMessages(AfterTask(c, result).queued)
  {
    var d := c.(queued := c.queued[1..]);
    if c.queued[0].SendTask? { SentQueue(d, c.queued[0].msg, result); }
  }

  /** Messages sent by other threads reach the connection once each and in order: those
      queued before and during a run are those that reached it followed by those still
      queued. */
  lemma {:induction false} RunQueue(c: Conn, events: seq<Event>)
    ensures TaskMessages(c.queued) + QueuedIn(c, events) ==
            ByTaskIn(c, events) + TaskMessages(AfterAll(c, events).queued)
    decreases |events|
  {
    if events == [] {
    } else {
      var e, d := events[0], Next(c, events[0]);
      if Possible(c, e) { StepQueue(c, e); }
      RunQueue(d, events[1..]);
      var byTask := if e.RunTask? then Reaching(c, e) else [];
      assert TaskMessages(c.queued) + Queueing(c, e) == byTask + TaskMessages(d.queued);
      Regroup(TaskMessages(c.queued), Queueing(c, e), QueuedIn(d, events[1..]), byTask, TaskMessages(d.queued),
              ByTaskIn(d, events[1..]), TaskMessages(AfterAll(c, events).queued));
    }
  }

  lemma Regroup<T>(a: seq<T>, b: seq<T>, c: seq<T>, d: seq<T>, e: seq<T>, f: seq<T>, g: seq<T>)
    requires a + b == d + e && e + c == f + g
    ensures a + (b + c) == (d + f) + g
  {
    assert a + (b + c) == (a + b) + c == d + (e + c) == d + (f + g);
  }

  /** The events that tear a connection down. */
  predicate Closes(c: Conn, event: Event) {
    Possible(c, event) &&
    (event.PeerClosed? || (event.Destroy? && c.state == Connected) ||
     (event.RunTask? && c.queued[0].ForceCloseTask? && Live(c)))
  }

  lemma StepCloses(c: Conn, event: Event)
    requires Possible(c, event)
    ensures After(c, event).closed <==> c.closed || Closes(c, event)
  {}

  /** A run tears the connection down only through the peer, destroy or forceClose(). */
  lemma {:induction false} RunStaysOpen(c: Conn, events: seq<Event>)
    requires ForceCloseTask !in c.queued
    requires forall e :: e in events ==> !e.PeerClosed? && !e.Destroy? && !e.ForceClose?
    ensures AfterAll(c, events).closed == c.closed
    decreases |events|
  {
    if events == [] {
    } else {
      assert events[0] in events;
      StaysUnforced(c, events[0]);
      RunStaysOpen(Next(c, events[0]), events[1..]);
    }
  }

  lemma StaysUnforced(c: Conn, event: Event)
    requires ForceCloseTask !in c.queued && !event.PeerClosed? && !event.Destroy? && !event.ForceClose?
    ensures ForceCloseTask !in Next(c, event).queued && Next(c, event).closed == c.closed
  {
    if Possible(c, event) { StepCloses(c, event); }
  }

  /** Once disconnected, only the peer can still tear the connection down. */
  lemma {:induction false} RunStaysDisconnected(c: Conn, events: seq<Event>)
    requires c.state == Disconnected && forall e :: e in events ==> !e.PeerClosed?
    ensures AfterAll(c, events).state == Disconnected && AfterAll(c, events).closed == c.closed
    decreases |events|
  {
    if events == [] {
    } else {
      assert events[0] in events;
      RunStaysDisconnected(Next(c, events[0]), events[1..]);
    }
  }

  /** A connection that has left the connected state does not come back to it. */
  lemma {:induction false} RunNeverReconnects(c: Conn, events: seq<Event>)
    requires c.state == Disconnecting || c.state == Disconnected
    ensures AfterAll(c, events).state == Disconnecting || AfterAll(c, events).state == Disconnected
    decreases |events|
  {
    if events == [] {
    } else {
      RunNeverReconnects(Next(c, events[0]), events[1..]);
    }
  }

  /** shutdown() takes effect: along every run after it the connection is not connected
      again, and once it is idle with no shutdown or close functor queued, the write side is
      shut with everything on the wire, or the connection is torn down. */
  lemma ShutdownTakesEffect(c: Conn, inLoop: bool, events: seq<Event>)
    requires Ok(c) && c.state == Connected
    ensures var d := AfterAll(After(c, Shutdown(inLoop)), events);
            (d.state == Disconnecting || d.state == Disconnected) &&
            (Idle(d) && !EndsOutput(d.queued) ==> d.closed || (d.shut && d.wire == Concat(d.accepted)))
  {
    var c1 := After(c, Shutdown(inLoop));
    StepOk(c, Shutdown(inLoop));
    RunNeverReconnects(c1, events);
    RunOk(c1, events);
    var d := AfterAll(c1, events);
    if Idle(d) { assert d.wire + d.output == d.wire; }
  }

  /** The write that an event makes. */
  predicate Writes(c: Conn, event: Event) {
    Possible(c, event) &&
    ((event.Writable? && c.writing) || (Reaching(c, event) != [] && Idle(c)))
  }

  function Answer(event: Event): WriteResult
    requires event.Writable? || event.Send? || event.RunTask?
  {
    event.result
  }

  /** The wire grows by exactly what the kernel took of that write. */
  lemma StepTakes(c: Conn, event: Event)
    requires Possible(c, event)
    ensures |After(c, event).wire| == |c.wire| + if Writes(c, event) then TakenBy(Answer(event)) else 0
  {}

  function Added(before: seq<Task>, after: seq<Task>): seq<Task> {
    if |after| < |before| then [] else after[|before|..]
  }

  /** The functors that an event adds to the queue. */
  function NewTasks(c: Conn, event: Event): seq<Task>
    requires Possible(c, event)
  {
    Added(if event.RunTask? then c.queued[1..] else c.queued, After(c, event).queued)
  }

  lemma WriteAdds(config: Config, q: seq<Task>, wrote: bool, remaining: nat)
    ensures Added(q, AfterWrite(config, q, wrote, remaining)) ==
            if remaining == 0 && wrote && config.hasWriteComplete then [WriteCompleteTask]
            else if remaining > 0 && 0 < config.highWaterMark <= remaining && config.hasHighWaterMark
            then [HighWaterMarkTask(remaining)] else []
  {}

  /** What the callbacks of a change from c to d should be. */
  predicate CallsBack(c: Conn, d: Conn, added: seq<Task>, complete: bool) {
    (HighWaterMarkTask(|d.output|) in added <==>
       c.config.hasHighWaterMark && |c.output| < c.config.highWaterMark <= |d.output|) &&
    (WriteCompleteTask in added <==> c.config.hasWriteComplete && complete && d.output == [])
  }

  lemma SentCallsBack(c: Conn, data: seq<Byte>, result: WriteResult)
    requires result.Wrote? ==> result.n <= |data|
    ensures var d := Sent(c, data, result); CallsBack(c, d, Added(c.queued, d.queued), Idle(c) && result.Wrote?)
  {
    WriteAdds(c.config, c.queued, result.Wrote?, |data| - TakenBy(result));
    assert Added(c.queued, c.queued) == [];
  }

  lemma DrainedCallsBack(c: Conn, result: WriteResult)
    requires Ok(c) && (c.writing && result.Wrote? ==> result.n <= |c.output|)
    ensures var d := Drained(c, result); CallsBack(c, d, Added(c.queued, d.queued), c.writing && result.Wrote?)
  {
    WriteAdds(c.config, c.queued, true, 0);
    assert Added(c.queued, c.queued) == [];
  }

  /** The high water mark callback is queued exactly when the waiting output reaches the
      mark, and the write complete callback exactly when a write leaves nothing waiting. */
  lemma CallbacksIff(c: Conn, event: Event)
    requires Ok(c) && Possible(c, event)
    ensures CallsBack(c, After(c, event), NewTasks(c, event), Writes(c, event) && Answer(event).Wrote?)
  {
    match event
    case Send(_, _, _) => SendCallsBack(c, event);
    case Writable(result) => DrainedCallsBack(c, result);
    case RunTask(result) => TaskCallsBack(c, result);
    case Shutdown(_) => Silent(c, After(c, event), ShutdownTask);
    case ForceClose => Silent(c, After(c, event), ForceCloseTask);
    case _ => Silent(c, After(c, event), ShutdownTask);
  }

  /** A change that leaves the output alone and queues at most some other functor. */
  lemma Silent(c: Conn, d: Conn, t: Task)
    requires d.output == c.output && (d.queued == c.queued || d.queued == c.queued + [t])
    requires !t.WriteCompleteTask? && !t.HighWaterMarkTask?
    ensures CallsBack(c, d, Added(c.queued, d.queued), false)
  {
    assert Added(c.queued, c.queued) == [] && Added(c.queued, c.queued + [t]) == [t];
  }

  lemma SendCallsBack(c: Conn, event: Event)
    requires event.Send? && Possible(c, event)
    ensures CallsBack(c, After(c, event), NewTasks(c, event), Writes(c, event) && event.result.Wrote?)
  {
    if c.state == Connected && event.inLoop {
      SentCallsBack(c, event.msg, event.result);
    } else {
      Silent(c, After(c, event), SendTask(event.msg));
    }
  }

  lemma TaskCallsBack(c: Conn, result: WriteResult)
    requires Possible(c, RunTask(result))
    ensures CallsBack(c, AfterTask(c, result), Added(c.queued[1..], AfterTask(c, result).queued),
                      Writes(c, RunTask(result)) && result.Wrote?)
  {
    var d := c.(queued := c.queued[1..]);
    assert Added(d.queued, d.queued) == [];
    if c.queued[0].SendTask? { SentCallsBack(d, c.queued[0].msg, result); }
  }

  /** A functor that may turn a disconnecting connection into a disconnected one before
      forceCloseInLoop gets its turn. */
  predicate Forestalls(t: Task) { t.ShutdownTask? || (t.SendTask? && t.msg != []) }

  /** forceCloseInLoop is queued with nothing to forestall it ahead. */
  predicate Unhindered(q: seq<Task>) {
    q != [] && (q[0].ForceCloseTask? || (!Forestalls(q[0]) && Unhindered(q[1..])))
  }

  /** No functor in the queue forestalls one that is added at its end, up to the first
      forceCloseInLoop. */
  predicate Harmless(q: seq<Task>) {
    q == [] || q[0].ForceCloseTask? || (!Forestalls(q[0]) && Harmless(q[1..]))
  }

  /** The connection is bound to be torn down. */
  predicate Doomed(c: Conn) { c.state == Disconnecting && !c.closed && Idle(c) && Unhindered(c.queued) }

  lemma {:induction false} UnhinderedAppend(q: seq<Task>, r: seq<Task>)
    requires Unhindered(q)
    ensures Unhindered(q + r)
  {
    assert (q + r)[0] == q[0] && (q + r)[1..] == q[1..] + r;
    if q[0].ForceCloseTask? {
    } else {
      UnhinderedAppend(q[1..], r);
    }
  }

  lemma {:induction false} HarmlessIff(q: seq<Task>)
    ensures Unhindered(q + [ForceCloseTask]) <==> Harmless(q)
  {
    var r := q + [ForceCloseTask];
    if q == [] {
    } else {
      HarmlessIff(q[1..]);
      assert r[0] == q[0] && r[1..] == q[1..] + [ForceCloseTask];
    }
  }

  /** Nothing but the teardown itself gets a connection out of that state. */
  lemma StepDoomed(c: Conn, event: Event)
    requires Ok(c) && Doomed(c) && Possible(c, event)
    ensures After(c, event).closed || Doomed(After(c, event))
  {
    match event
    case ForceClose => UnhinderedAppend(c.queued, [ForceCloseTask]);
    case RunTask(result) =>
      var rest := c.queued[1..];
      if c.queued[0].SendTask? && rest != [] && Unhindered(rest) {
        UnhinderedAppend(rest, [WriteCompleteTask]);
      }
    case _ =>
  }

  lemma {:induction false} RunDoomed(c: Conn, events: seq<Event>)
    requires Ok(c) && (c.closed || Doomed(c))
    ensures AfterAll(c, events).closed || Doomed(AfterAll(c, events))
    decreases |events|
  {
    if events == [] {
    } else {
      if Possible(c, events[0]) {
        StepOk(c, events[0]);
        StepCloses(c, events[0]);
        if !c.closed { StepDoomed(c, events[0]); }
      }
      RunDoomed(Next(c, events[0]), events[1..]);
    }
  }

  /** Running the functors up to forceCloseInLoop tears a doomed connection down. */
  lemma {:induction false} DoomedCloses(c: Conn) returns (events: seq<Event>)
    requires Ok(c) && Doomed(c)
    ensures AfterAll(c, events).closed && |events| <= |c.queued|
    decreases |c.queued|
  {
    var d := Next(c, RunTask(WouldBlock));
    StepOk(c, RunTask(WouldBlock));
    StepDoomed(c, RunTask(WouldBlock));
    if d.closed {
      events := [RunTask(WouldBlock)];
      assert events[1..] == [];
    } else {
      var more := DoomedCloses(d);
      events := [RunTask(WouldBlock)] + more;
      assert events[1..] == more;
    }
  }

  /** Disconnected but not torn down: forceClose() can do nothing any more. */
  predicate Adrift(c: Conn) { c.state == Disconnected && !c.closed }

  /** Functors of an idle connection, and the write that follows a waiting message, that
      leave the connection adrift. */
  function Escape(q: seq<Task>): seq<Event> {
    if q == [] || q[0].ShutdownTask? then [RunTask(WouldBlock)]
    else if Forestalls(q[0]) then [RunTask(WouldBlock), Writable(Wrote(|q[0].msg|))]
    else [RunTask(WouldBlock)] + Escape(q[1..])
  }

  /** Draining the buffer of a disconnecting connection shuts it down. */
  lemma DrainEscapes(c: Conn)
    requires Ok(c) && c.state == Disconnecting && !c.closed && c.writing
    ensures Adrift(AfterAll(c, [Writable(Wrote(|c.output|))]))
  {
    var e := Writable(Wrote(|c.output|));
    assert [e][1..] == [];
    assert c.output[|c.output|..] == [];
    assert AfterAll(c, [e]) == AfterAll(Next(c, e), []);
  }

  lemma ForestalledEscapes(c: Conn)
    requires Ok(c) && c.state == Disconnecting && !c.closed && Idle(c) && c.queued != [] && Forestalls(c.queued[0])
    ensures Adrift(AfterAll(c, Escape(c.queued)))
  {
    var run := RunTask(WouldBlock);
    var d := Next(c, run);
    StepOk(c, run);
    if c.queued[0].ShutdownTask? {
      assert [run][1..] == [];
      assert AfterAll(c, [run]) == AfterAll(d, []);
    } else {
      DrainEscapes(d);
      var write := Writable(Wrote(|d.output|));
      assert [run, write][1..] == [write];
      assert AfterAll(c, [run, write]) == AfterAll(d, [write]);
    }
  }

  lemma {:induction false} IdleEscapes(c: Conn)
    requires Ok(c) && c.state == Disconnecting && !c.closed && Idle(c)
    requires ForceCloseTask in c.queued && !Unhindered(c.queued)
    ensures Adrift(AfterAll(c, Escape(c.queued)))
    decreases |c.queued|
  {
    if Forestalls(c.queued[0]) {
      ForestalledEscapes(c);
    } else {
      var d := Next(c, RunTask(WouldBlock));
      PassedOver(c);
      IdleEscapes(d);
      assert Escape(c.queued)[1..] == Escape(d.queued);
    }
  }

  /** A functor that cannot forestall the close changes nothing but the queue. */
  lemma PassedOver(c: Conn)
    requires Ok(c) && c.state == Disconnecting && !c.closed && Idle(c)
    requires c.queued != [] && !Forestalls(c.queued[0]) && c.queued[0] != ForceCloseTask
    ensures var d := Next(c, RunTask(WouldBlock));
            Ok(d) && d.state == Disconnecting && !d.closed && Idle(d) && d.queued == c.queued[1..]
    ensures ForceCloseTask in c.queued ==> ForceCloseTask in c.queued[1..]
  {
    StepOk(c, RunTask(WouldBlock));
    PassedQueue(c);
    assert c.queued == [c.queued[0]] + c.queued[1..];
  }

  lemma PassedQueue(c: Conn)
    requires c.state == Disconnecting && !c.closed && !c.shut && Idle(c)
    requires c.queued != [] && !Forestalls(c.queued[0]) && c.queued[0] != ForceCloseTask
    ensures var d := Next(c, RunTask(WouldBlock));
            d.state == Disconnecting && !d.closed && Idle(d) && d.queued == c.queued[1..]
  {
    if c.queued[0].SendTask? { EmptySend(c.(queued := c.queued[1..])); }
  }

  lemma EmptySend(c: Conn)
    requires Idle(c)
    ensures Sent(c, [], WouldBlock) == c.(accepted := c.accepted + [[]])
  {
    assert c.wire + [] == c.wire;
  }

  /** No run leaves the connection adrift. */
  ghost predicate NeverAdrift(c: Conn) { forall events :: !Adrift(AfterAll(c, events)) }

  /** forceClose() is sure to tear the connection down exactly if the connection is live and
      idle and nothing queued can forestall it: otherwise some run leaves it adrift. */
  lemma ForceCloseIff(c: Conn)
    requires Ok(c) && !c.closed
    ensures NeverAdrift(After(c, ForceClose)) <==> Live(c) && Idle(c) && Harmless(c.queued)
  {
    var d := After(c, ForceClose);
    StepOk(c, ForceClose);
    HarmlessIff(c.queued);
    if Live(c) && Idle(c) && Harmless(c.queued) {
      forall events ensures !Adrift(AfterAll(d, events)) {
        RunDoomed(d, events);
        RunOk(d, events);
      }
    } else if !Live(c) {
      NotLiveEscapes(c);
    } else if c.writing {
      DrainEscapes(d);
    } else {
      assert d.queued[|c.queued|] == ForceCloseTask;
      IdleEscapes(d);
    }
  }

  lemma NotLiveEscapes(c: Conn)
    requires Ok(c) && !c.closed && !Live(c)
    ensures !NeverAdrift(c)
  {
    if c.state == Disconnected {
      assert Adrift(AfterAll(c, []));
    } else {
      var events := [Establish, Shutdown(true)];
      var d := Next(c, Establish);
      assert events[1..] == [Shutdown(true)] && [Shutdown(true)][1..] == [];
      assert AfterAll(d, [Shutdown(true)]) == AfterAll(Next(d, Shutdown(true)), []);
      assert Adrift(AfterAll(c, events));
    }
  }

  /** remove() at the end of destoryConnection asserts that the channel has no events left:
      that holds exactly for a connection that is connected, not yet established, or torn
      down and not written to since. */
  lemma RemovalIff(c: Conn)
    requires Ok(c)
    ensures var d := After(c, Destroy);
            (!d.reading && !d.writing) <==> c.state == Connected || c.state == Connecting || (c.closed && !c.writing)
  {}

  class TcpConnection {
    const config: Config
    var state: State
    var reading: bool
    var writing: bool
    var outputBuffer: seq<Byte>
    var queued: seq<Task>
    var shut: bool
    ghost var closed: bool
    ghost var wire: seq<Byte>
    ghost var accepted: seq<seq<Byte>>

    ghost function V(): Conn
      reads this
    {
      Conn(config, state, reading, writing, outputBuffer, queued, shut, closed, wire, accepted)
    }

    ghost predicate Valid()
      reads this
    {
      Ok(V())
    }

    constructor (c: Config)
      ensures Valid() && V() == Conn(c, Connecting, false, false, [], [], false, false, [], [])
    {
      config := c;
      state, reading, writing, outputBuffer, queued, shut := Connecting, false, false, [], [], false;
      closed, wire, accepted := false, [], [];
    }

    method EstablishConnection()
      requires state == Connecting
      modifies this`state, this`reading
      ensures V() == After(old(V()), Establish)
    {
      state := Connected;
      reading := true;
    }

    /** Buffers what the kernel did not take and asks to be told when it takes more. */
    method KeepRest(data: seq<Byte>, nWrote: nat)
      requires nWrote < |data| && outputBuffer == []
      modifies this`writing, this`outputBuffer, this`queued
      ensures outputBuffer == data[nWrote..] && writing
      ensures queued == AfterWrite(config, old(queued), true, |data| - nWrote)
    {
      var remaining, oldLen := |data| - nWrote, |outputBuffer|;
      if oldLen < config.highWaterMark && oldLen + remaining >= config.highWaterMark && config.hasHighWaterMark {
        queued := queued + [HighWaterMarkTask(oldLen + remaining)];
      }
      outputBuffer := outputBuffer + data[nWrote..];
      if !writing { writing := true; }
    }

    /** Tries to write; reports how much was taken and whether the connection is broken. */
    method TryWrite(data: seq<Byte>, result: WriteResult) returns (nWrote: nat, faultError: bool)
      requires result.Wrote? ==> result.n <= |data|
      modifies this`queued, this`wire
      ensures nWrote == TakenBy(result) && faultError == result.Broken?
      ensures wire == old(wire) + data[..nWrote] && (!result.Wrote? ==> unchanged(this))
      ensures queued == if nWrote == |data| then AfterWrite(config, old(queued), result.Wrote?, 0) else old(queued)
    {
      nWrote, faultError := 0, false;
      if result.Wrote? {
        nWrote := result.n;
        wire := wire + data[..nWrote];
        if |data| - nWrote == 0 && config.hasWriteComplete { queued := queued + [WriteCompleteTask]; }
      } else {
        faultError := result.Broken?;
        assert data[..0] == [];
      }
    }

    /** A message on an idle connection. */
    method SendIdle(data: seq<Byte>, result: WriteResult)
      requires Idle(V()) && (result.Wrote? ==> result.n <= |data|)
      modifies this`writing, this`outputBuffer, this`queued, this`wire, this`accepted
      ensures V() == Sent(old(V()), data, result)
    {
      var nWrote, faultError := TryWrite(data, result);
      if !faultError {
        if |data| - nWrote > 0 { KeepRest(data, nWrote); } else { assert data[nWrote..] == []; }
        accepted := accepted + [data];
      }
    }

    /** Writes directly when nothing is waiting and buffers what the kernel did not
        take; a message that finds output waiting is dropped. */
    method SendInLoop(data: seq<Byte>, result: WriteResult)
      requires result.Wrote? ==> result.n <= |data|
      modifies this`writing, this`outputBuffer, this`queued, this`wire, this`accepted
      ensures V() == Sent(old(V()), data, result)
      ensures old(writing) || old(outputBuffer) != [] || result.Broken? ==> unchanged(this)
      ensures old(Idle(V())) && !result.Broken? ==>
                accepted == old(accepted) + [data] && wire + outputBuffer == old(wire) + data && (writing <==> outputBuffer != [])
    {
      if !writing && outputBuffer == [] {
        if !result.Broken? { SentWhole(V(), data, result); }
        SendIdle(data, result);
      }
    }

    /** Shuts the write side down unless output is still waiting. */
    method ShutdownInLoop()
      modifies this`state, this`shut
      ensures V() == ShutDown(old(V()))
      ensures old(Valid()) && state == Disconnected && !closed ==> wire == Concat(accepted)
    {
      if !writing {
        state := Disconnected;
        shut := true;
      }
      if outputBuffer == [] { assert wire + outputBuffer == wire; }
    }

    method HandleWrite(result: WriteResult)
      requires writing && result.Wrote? ==> result.n <= |outputBuffer|
      modifies this`state, this`shut, this`writing, this`outputBuffer, this`queued, this`wire
      ensures V() == Drained(old(V()), result)
      ensures wire + outputBuffer == old(wire + outputBuffer)
      ensures old(writing) && outputBuffer == [] && old(outputBuffer) != [] ==>
                !writing && (old(state) == Disconnecting ==> shut && state == Disconnected)
    {
      if writing {
        if result.Wrote? && result.n > 0 {
          assert outputBuffer == outputBuffer[..result.n] + outputBuffer[result.n..];
          wire := wire + outputBuffer[..result.n];
          outputBuffer := outputBuffer[result.n..];
          if outputBuffer == [] {
            writing := false;
            if config.hasWriteComplete { queued := queued + [WriteCompleteTask]; }
            if state == Disconnecting { ShutdownInLoop(); }
          }
        }
      }
    }

    /** disableAll() drops both interests. */
    method HandleClose()
      modifies this`state, this`reading, this`writing, this`closed
      ensures V() == Closed(old(V()))
    {
      state := Disconnected;
      reading, writing := false, false;
      closed := true;
    }

    method ForceCloseInLoop()
      modifies this`state, this`reading, this`writing, this`closed
      ensures V() == if Live(old(V())) then Closed(old(V())) else old(V())
    {
      if state == Connected || state == Disconnecting { HandleClose(); }
    }

    method DoSend(msg: seq<Byte>, inLoop: bool, result: WriteResult)
      requires KernelMay(result, msg, shut)
      modifies this`writing, this`outputBuffer, this`queued, this`wire, this`accepted
      ensures V() == After(old(V()), Send(msg, inLoop, result))
    {
      if state == Connected {
        if inLoop { SendInLoop(msg, result); } else { queued := queued + [SendTask(msg)]; }
      }
    }

    method DoShutdown(inLoop: bool)
      modifies this`state, this`shut, this`queued
      ensures V() == After(old(V()), Shutdown(inLoop))
      ensures old(state) == Connected && inLoop && !writing ==> shut && state == Disconnected && queued == old(queued)
      ensures old(state) == Connected && inLoop && writing ==> state == Disconnecting && shut == old(shut)
      ensures old(state) == Connected && !inLoop ==> state == Disconnecting && queued == old(queued) + [ShutdownTask]
    {
      if state == Connected {
        state := Disconnecting;
        if inLoop { ShutdownInLoop(); } else { queued := queued + [ShutdownTask]; }
      }
    }

    /** Queues forceCloseInLoop; the connection is then bound to be torn down exactly if it
        was live and idle with nothing queued that can forestall it. */
    method DoForceClose()
      modifies this`state, this`queued
      ensures V() == After(old(V()), ForceClose)
      ensures old(Valid()) && !closed ==> (Doomed(V()) <==> old(Live(V()) && Idle(V()) && Harmless(queued)))
    {
      HarmlessIff(queued);
      if state == Connected || state == Disconnecting {
        state := Disconnecting;
        queued := queued + [ForceCloseTask];
      }
    }

    /** Followed by remove(), whose assertion RemovalIff is about. */
    method DestroyConnection()
      modifies this`state, this`reading, this`writing, this`closed
      ensures V() == After(old(V()), Destroy)
    {
      if state == Connected { HandleClose(); }
    }

    /** The loop runs the oldest queued functor. */
    method RunQueued(result: WriteResult)
      requires Possible(V(), RunTask(result))
      modifies this`state, this`reading, this`writing, this`outputBuffer, this`queued, this`shut, this`closed, this`wire, this`accepted
      ensures V() == AfterTask(old(V()), result)
    {
      var task := queued[0];
      queued := queued[1..];
      match task
      case SendTask(msg) => SendInLoop(msg, result);
      case ShutdownTask => ShutdownInLoop();
      case ForceCloseTask => ForceCloseInLoop();
      case WriteCompleteTask =>
      case HighWaterMarkTask(_) =>
    }

    /** One event: which message it gets accepted, and whether it tears the connection down. */
    method Step(event: Event)
      requires Valid() && Possible(V(), event)
      modifies this`state, this`reading, this`writing, this`outputBuffer, this`queued, this`shut, this`closed, this`wire, this`accepted
      ensures Valid() && V() == After(old(V()), event) && old(wire) <= wire && (old(shut) ==> shut)
      ensures accepted == old(accepted) + Accepting(old(V()), event)
      ensures closed <==> old(closed) || Closes(old(V()), event)
      ensures old(Doomed(V())) ==> closed || Doomed(V())
    {
      StepOk(V(), event);
      StepAccepts(V(), event);
      StepCloses(V(), event);
      if Doomed(V()) { StepDoomed(V(), event); }
      match event
      case Establish => EstablishConnection();
      case Send(msg, inLoop, result) => DoSend(msg, inLoop, result);
      case Shutdown(inLoop) => DoShutdown(inLoop);
      case ForceClose => DoForceClose();
      case Writable(result) => HandleWrite(result);
      case PeerClosed => HandleClose();
      case Destroy => DestroyConnection();
      case RunTask(result) => RunQueued(result);
    }

    /** Any sequence of events that the kernel and the callers allow. */
    method RunEvents(events: seq<Event>)
      requires Valid()
      modifies this`state, this`reading, this`writing, this`outputBuffer, this`queued, this`shut, this`closed, this`wire, this`accepted
      ensures Valid() && V() == AfterAll(old(V()), events) && old(wire) <= wire && (old(shut) ==> shut)
      ensures accepted == old(accepted) + AcceptedIn(old(V()), events)
      ensures Subsequence(AcceptedIn(old(V()), events), ReachedIn(old(V()), events))
      ensures old(ForceCloseTask !in queued) && (forall e :: e in events ==> !e.PeerClosed? && !e.Destroy? && !e.ForceClose?) ==>
                closed == old(closed)
      ensures old(closed || Doomed(V())) ==> closed || Doomed(V())
      ensures old(state) == Disconnected && (forall e :: e in events ==> !e.PeerClosed?) ==> closed == old(closed)
    {
      var i := 0;
      assert events[0..] == events;
      while i < |events|
        invariant 0 <= i <= |events| && Valid() && AfterAll(V(), events[i..]) == AfterAll(old(V()), events)
      {
        assert events[i..][1..] == events[i + 1..];
        if CanHappen(events[i]) { Step(events[i]); }
        i := i + 1;
      }
      RunFacts(old(V()), events);
    }

    /** Whether an event can happen now. */
    predicate CanHappen(event: Event)
      reads this
      ensures CanHappen(event) == Possible(V(), event)
    {
      match event
      case Establish => state == Connecting
      case Send(msg, _, result) => KernelMay(result, msg, shut)
      case Writable(result) => writing ==> KernelMay(result, outputBuffer, shut)
      case RunTask(result) => queued != [] && (queued[0].SendTask? ==> KernelMay(result, queued[0].msg, shut))
      case _ => true
    }
  }

  lemma RunFacts(c: Conn, events: seq<Event>)
    requires Ok(c)
    ensures var d := AfterAll(c, events);
            Ok(d) && c.wire <= d.wire && (c.shut ==> d.shut) && d.accepted == c.accepted + AcceptedIn(c, events) &&
            Subsequence(AcceptedIn(c, events), ReachedIn(c, events)) &&
            (ForceCloseTask !in c.queued && (forall e :: e in events ==> !e.PeerClosed? && !e.Destroy? && !e.ForceClose?) ==>
               d.closed == c.closed) &&
            (c.closed || Doomed(c) ==> d.closed || Doomed(d)) &&
            (c.state == Disconnected && (forall e :: e in events ==> !e.PeerClosed?) ==> d.closed == c.closed)
  {
    RunOk(c, events);
    RunAccepts(c, events);
    AcceptedInOrder(c, events);
    if ForceCloseTask !in c.queued && forall e :: e in events ==> !e.PeerClosed? && !e.Destroy? && !e.ForceClose? {
      RunStaysOpen(c, events);
    }
    if c.closed || Doomed(c) { RunDoomed(c, events); }
    if c.state == Disconnected && forall e :: e in events ==> !e.PeerClosed? { RunStaysDisconnected(c, events); }
  }

  /** A connection right after establishConnection. */
  method Connect() returns (c: TcpConnection)
    ensures fresh(c) && c.Valid() && c.V() == Conn(c.config, Connected, true, false, [], [], false, false, [], [])
    ensures c.config == Config(0, false, false)
  {
    c := new TcpConnection(Config(0, false, false));
    c.Step(Establish);
  }

  /** A send while output waits: the second message is lost. */
  method DroppedSendExample(first: seq<Byte>, second: seq<Byte>) returns (c: TcpConnection)
    requires first != []
    ensures c.Valid() && c.state == Connected && !c.closed
    ensures c.accepted == [first] && c.wire + c.outputBuffer == first
  {
    c := Connect();
    c.Step(Send(first, true, WouldBlock));
    assert c.writing;
    c.Step(Send(second, true, Wrote(|second|)));
  }

  /** forceClose() after a shutdown that found nothing to write: the connection stays open. */
  method VoidForceCloseExample() returns (c: TcpConnection)
    ensures c.Valid() && Adrift(c.V()) && c.shut && c.queued == []
  {
    c := Connect();
    c.Step(Shutdown(true));
    c.Step(ForceClose);
  }

  /** forceClose() while output waits: the write that drains it comes before the functor. */
  method ForestalledByWriteExample(msg: seq<Byte>) returns (c: TcpConnection)
    requires msg != []
    ensures c.Valid() && Adrift(c.V()) && c.shut && c.queued == []
  {
    c := Waiting(msg);
    c.Step(ForceClose);
    assert msg[|msg|..] == [];
    c.Step(Writable(Wrote(|msg|)));
    c.Step(RunTask(WouldBlock));
  }

  /** A connection with output waiting. */
  method Waiting(msg: seq<Byte>) returns (c: TcpConnection)
    requires msg != []
    ensures fresh(c) && c.Valid() && c.V() == Conn(Config(0, false, false), Connected, true, true, msg, [], false, false, [], [msg])
  {
    c := Connect();
    assert msg[0..] == msg;
    c.Step(Send(msg, true, WouldBlock));
  }

  /** forceClose() after another thread's shutdown(): its functor comes first. */
  method ForestalledByShutdownExample() returns (c: TcpConnection)
    ensures c.Valid() && Adrift(c.V()) && c.shut && c.queued == []
  {
    c := Connect();
    c.Step(Shutdown(false));
    c.Step(ForceClose);
    c.Step(RunTask(WouldBlock));
    c.Step(RunTask(WouldBlock));
  }

  /** Destroying a connection that was shut down: read interest is still on when remove()
      is called. */
  method IllegalRemovalExample() returns (c: TcpConnection)
    ensures c.Valid() && c.reading
  {
    c := Connect();
    c.Step(Shutdown(true));
    c.Step(Destroy);
  }
}
