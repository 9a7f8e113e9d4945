/** TimerQueue: an ordered set of timers behind a one-shot alarm. Times are
    integer microseconds on one clock; a timer is known by its serial number. */
module TimerQueue {
  type Id = nat

  datatype Timer = Timer(expiration: int, interval: nat, repeat: bool)

  datatype Entry = Entry(when: int, id: Id)

  /** Disarmed, set at `setAt` to expire at `due`, or expired and not yet read. */
  datatype Alarm = Disarmed | Armed(due: int, setAt: int) | Fired

  datatype Run = Run(id: Id, expiration: int, at: int)

  /** What a callback asks of the queue; `now` is the time of the call. */
  datatype Action = Add(when: int, interval: nat, repeat: bool, now: int) | Cancel(id: Id)

  /** What the loop delivers to the queue. */
  datatype Event =
    | Request(action: Action)
    | AlarmExpires
    | AlarmReadable(now: int, script: map<Id, seq<Action>>, resetAt: int)

  /** Every expiration that an event asks for is after the epoch, as is the time of the
      reset that restarts timers. */
  predicate AfterEpoch(action: Action) { action.Add? ==> action.when > 0 }

  predicate AllAfterEpoch(actions: seq<Action>) { forall a :: a in actions ==> AfterEpoch(a) }

  predicate EventAfterEpoch(event: Event) {
    match event
    case Request(action) => AfterEpoch(action)
    case AlarmExpires => true
    case AlarmReadable(now, script, _) => now > 0 && ScriptAfterEpoch(script)
  }

  function ActionsOf(script: map<Id, seq<Action>>, id: Id): seq<Action> { if id in script then script[id] else [] }

  predicate Before(a: Entry, b: Entry) { a.when < b.when || (a.when == b.when && a.id < b.id) }

  predicate Sorted(list: seq<Entry>) { forall i, j :: 0 <= i < j < |list| ==> Before(list[i], list[j]) }

  /** Every key is the current expiration of its timer. */
  predicate Keyed(list: seq<Entry>, timers: map<Id, Timer>) {
    forall e :: e in list ==> e.id in timers && timers[e.id].expiration == e.when
  }

  function Ids(list: seq<Entry>): set<Id> { set e | e in list :: e.id }

  function Inserted(list: seq<Entry>, e: Entry): seq<Entry> {
    if list == [] || Before(e, list[0]) then [e] + list else [list[0]] + Inserted(list[1..], e)
  }

  lemma {:induction false} InsertedMembers(list: seq<Entry>, e: Entry)
    ensures forall x :: x in Inserted(list, e) <==> x == e || x in list
    ensures Inserted(list, e) != []
  {
    if list == [] || Before(e, list[0]) {
    } else {
      InsertedMembers(list[1..], e);
      assert list == [list[0]] + list[1..];
    }
  }

  lemma {:induction false} InsertedSorted(list: seq<Entry>, e: Entry)
    requires Sorted(list) && e !in list
    ensures Sorted(Inserted(list, e))
    ensures Inserted(list, e) != [] && Inserted(list, e)[0] == if list == [] || Before(e, list[0]) then e else list[0]
  {
    var r := Inserted(list, e);
    if list == [] || Before(e, list[0]) {
    } else {
      InsertedSorted(list[1..], e);
      InsertedMembers(list[1..], e);
      forall j | 0 < j < |r| ensures Before(r[0], r[j]) {
        assert r[j] in Inserted(list[1..], e);
      }
    }
  }

  /** The number of entries before (now, null): those with an earlier key. */
  function LowerBound(list: seq<Entry>, now: int): (k: nat)
    ensures k <= |list|
    ensures forall i :: 0 <= i < k ==> list[i].when < now
    ensures k < |list| ==> list[k].when >= now
  {
    if list == [] || list[0].when >= now then 0 else 1 + LowerBound(list[1..], now)
  }

  /** The entries that getExpired takes: it steps past at most one equal to now. */
  function ExpiredCount(list: seq<Entry>, now: int): (k: nat)
    ensures k <= |list|
    ensures forall i :: 0 <= i < k ==> list[i].when <= now
  {
    var k := LowerBound(list, now);
    if k < |list| && list[k].when == now then k + 1 else k
  }

  /** The assertion of getExpired holds just when at most one timer is due exactly
      at now. */
  lemma ExpiredAssertion(list: seq<Entry>, now: int)
    requires Sorted(list)
    ensures var k := ExpiredCount(list, now);
            (k == |list| || list[k].when > now) <==>
              forall i, j :: 0 <= i < j < |list| ==> !(list[i].when == now && list[j].when == now)
  {
    var b, k := LowerBound(list, now), ExpiredCount(list, now);
    if k < |list| && list[k].when <= now {
      assert list[b].when == now && list[k].when == now && b < k;
    } else {
      forall i, j | 0 <= i < j < |list| ensures !(list[i].when == now && list[j].when == now) {
        if k < j { assert Before(list[k], list[j]); }
      }
    }
  }

  /** Two timers due exactly at now: the second is left behind and the assertion fails. */
  lemma TwoDueExample(now: int)
    ensures var list := [Entry(now, 1), Entry(now, 2)];
            Sorted(list) && ExpiredCount(list, now) == 1 && list[1].when == now
  {
    assert LowerBound([Entry(now, 1), Entry(now, 2)], now) == 0;
  }

  /** The relative alarm time: at least 100 microseconds ahead. */
  function HowMuchTimeFromNow(when: int, now: int): (r: (nat, nat))
    ensures r.0 * 1_000_000_000 + r.1 == 1000 * (if when - now < 100 then 100 else when - now)
    ensures r.1 < 1_000_000_000
  {
    var us := if when - now < 100 then 100 else when - now;
    (us / 1_000_000, us % 1_000_000 * 1000)
  }

  function Max(a: int, b: int): int { if a < b then b else a }

  /** Every expiration is after the epoch, so none counts as invalid. */
  ghost predicate AllPositive(list: seq<Entry>) { forall e :: e in list ==> e.when > 0 }

  /** The alarm goes off no later than the earliest expiration or, if that was
      already too close when it was set, 100 microseconds after setting it. */
  ghost predicate NeverLate(list: seq<Entry>, alarm: Alarm) {
    list == [] || alarm.Fired? ||
    (alarm.Armed? && alarm.due <= Max(list[0].when, alarm.setAt + 100))
  }

  /** Re-arming the alarm exactly for a new earliest timer keeps it from being late. */
  lemma AddNotLate(list: seq<Entry>, alarm: Alarm, e: Entry, now: int)
    requires Sorted(list) && e !in list
    ensures NeverLate(list, alarm) ==>
              NeverLate(Inserted(list, e),
                        if list == [] || e.when < list[0].when then Armed(Max(e.when, now + 100), now) else alarm)
  {
    InsertedSorted(list, e);
  }

  /** Neither does a list from which entries were taken out become late. */
  lemma FewerNotLate(list: seq<Entry>, fewer: seq<Entry>, alarm: Alarm)
    requires forall x :: x in fewer ==> x in list
    requires fewer == [] || (list != [] && fewer[0].when >= list[0].when)
    ensures NeverLate(list, alarm) ==> NeverLate(fewer, alarm)
    ensures AllPositive(list) ==> AllPositive(fewer)
  {}

  function Runs(expired: seq<Entry>, at: int): (r: seq<Run>)
    ensures |r| == |expired|
  {
    seq(|expired|, i requires 0 <= i < |expired| => Run(expired[i].id, expired[i].when, at))
  }

  /** How often a timer's callback has started. */
  function Starts(log: seq<Run>, id: Id): nat {
    if log == [] then 0 else Starts(log[..|log| - 1], id) + if log[|log| - 1].id == id then 1 else 0
  }

  lemma StartsSnoc(log: seq<Run>, r: Run, at: nat, id: Id)
    requires at <= |log|
    ensures Starts((log + [r])[at..], id) == Starts(log[at..], id) + if r.id == id then 1 else 0
  {
    assert (log + [r])[at..] == log[at..] + [r];
    assert (log[at..] + [r])[..|log[at..]|] == log[at..];
  }

  /** When a timer was first cancelled: the length of the log, and whether it was still
      to run in the current batch. */
  datatype Mark = Mark(at: nat, due: bool)

  /** The contents of a queue: the ordered list, the batch of handleRead whose
      reset is still to come and how much of it has run, the log of callbacks
      started, and the timers cancelled so far. */
  datatype Contents = Contents(
    timers: map<Id, Timer>, nextId: Id, list: seq<Entry>, batch: seq<Entry>, ran: nat,
    log: seq<Run>, cancelled: set<Id>, canceling: set<Id>, marks: map<Id, Mark>)

  /** The list and the unfinished batch hold distinct timers, keyed by their
      expirations. */
  ghost predicate Structure(c: Contents) {
    Sorted(c.list) && Keyed(c.list, c.timers) &&
    Sorted(c.batch) && Keyed(c.batch, c.timers) && Ids(c.batch) !! Ids(c.list) && c.ran <= |c.batch| &&
    (forall id :: id in c.timers ==> id < c.nextId) &&
    (forall id :: id in c.cancelled ==> id < c.nextId)
  }

  /** No callback starts early and no one-shot timer runs twice or is scheduled
      after it ran. */
  ghost predicate Punctual(c: Contents) {
    c.ran <= |c.batch| &&
    (forall r :: r in c.log ==> r.id in c.timers && r.expiration <= r.at) &&
    (forall i, j :: 0 <= i < j < |c.log| && c.log[i].id == c.log[j].id ==> c.timers[c.log[i].id].repeat) &&
    (forall r :: r in c.log && !c.timers[r.id].repeat ==> r.id !in Ids(c.list) && r.id !in Ids(c.batch[c.ran..]))
  }

  /** A cancelled timer is not in the list and will not be put back. */
  ghost predicate StaysCancelled(c: Contents) {
    (forall id :: id in c.canceling && id in Ids(c.batch) ==> id in c.cancelled) &&
    forall id :: id in c.cancelled ==> id !in Ids(c.list) && (id in Ids(c.batch) ==> id in c.canceling)
  }

  /** After its cancellation a timer starts once more if it was still due in the
      current batch, and otherwise never. */
  ghost predicate Silenced(c: Contents) {
    c.ran <= |c.batch| && c.cancelled == c.marks.Keys && forall id :: id in c.marks ==> SilencedAt(c, id)
  }

  ghost predicate SilencedAt(c: Contents, id: Id)
    requires id in c.marks && c.ran <= |c.batch|
  {
    var mark, waiting := c.marks[id], id in Ids(c.batch[c.ran..]);
    mark.at <= |c.log| && (waiting ==> mark.due) &&
    Starts(c.log[mark.at..], id) == if mark.due && !waiting then 1 else 0
  }

  /** No timer is forgotten: unless it was cancelled, a repeating timer, and a one-shot
      timer that has not run, is in the list or still to come in the batch. */
  ghost predicate Remembered(c: Contents) {
    c.ran <= |c.batch| &&
    forall id :: id in c.timers && id !in c.cancelled ==>
      id in Ids(c.list) ||
      (if c.timers[id].repeat then id in Ids(c.batch) else HasRun(c.log, id) || id in Ids(c.batch[c.ran..]))
  }

  ghost predicate HasRun(log: seq<Run>, id: Id) { exists r :: r in log && r.id == id }

  ghost predicate Good(c: Contents) {
    Structure(c) && Punctual(c) && StaysCancelled(c) && Silenced(c) && Remembered(c)
  }

  lemma TakeRemembers(c: Contents, k: nat)
    requires Remembered(c) && c.batch == [] && k <= |c.list|
    ensures Remembered(c.(list := c.list[k..], batch := c.list[..k], ran := 0, canceling := {}))
  {
    IdsSplit(c.list, k);
    assert c.list[..k][0..] == c.list[..k] && c.batch[c.ran..] == [];
  }

  lemma RunRemembers(c: Contents, at: int)
    requires Structure(c) && Remembered(c) && c.ran < |c.batch|
    ensures Remembered(c.(ran := c.ran + 1, log := c.log + Runs([c.batch[c.ran]], at)))
  {
    var e := c.batch[c.ran];
    var r := Run(e.id, e.when, at);
    NextOfBatch(c);
    var log := c.log + Runs([e], at);
    assert Runs([e], at) == [r] && log[|c.log|] == r;
    assert forall x :: x in c.log ==> x in log;
  }

  lemma DropRemembers(c: Contents)
    requires Remembered(c) && StaysCancelled(c) && c.batch != [] && c.ran == |c.batch| && !Restarts(c, c.batch[0].id)
    ensures Remembered(c.(batch := c.batch[1..], ran := c.ran - 1))
  {
    IdsSplit(c.batch, 1);
    assert c.batch[0] in c.batch && c.batch[0].id in Ids(c.batch);
    assert Ids(c.batch[..1]) == {c.batch[0].id};
    assert c.batch[1..][c.ran - 1..] == [] && c.batch[c.ran..] == [];
  }

  lemma RearmRemembers(c: Contents, now: int)
    requires Remembered(c) && c.batch != [] && c.ran == |c.batch| && c.batch[0].id in c.timers
    ensures Remembered(Rearmed(c, now))
  {
    RearmIds(c, now);
    IdsSplit(c.batch, 1);
    assert Ids(c.batch[..1]) == {c.batch[0].id};
    assert c.batch[1..][c.ran - 1..] == [] && c.batch[c.ran..] == [];
  }

  /** Timers stay, and only their expirations change. */
  ghost predicate SameKinds(a: map<Id, Timer>, b: map<Id, Timer>) {
    forall id :: id in a ==> id in b && b[id].interval == a[id].interval && b[id].repeat == a[id].repeat
  }

  /** What callbacks and loop events leave alone: cancellations and their marks stay. */
  ghost predicate Kept(a: Contents, b: Contents) {
    a.cancelled <= b.cancelled && (forall id :: id in a.marks ==> id in b.marks && b.marks[id] == a.marks[id]) &&
    SameKinds(a.timers, b.timers)
  }

  /** Callbacks may also add timers, but change none. */
  ghost predicate TimersKept(a: map<Id, Timer>, b: map<Id, Timer>) {
    forall id :: id in a ==> id in b && b[id] == a[id]
  }

  /** The timers that actions, the callbacks of a batch and events ask for, in order. */
  function AddsOf(actions: seq<Action>): seq<Timer> {
    if actions == [] then []
    else
      var a := actions[|actions| - 1];
      AddsOf(actions[..|actions| - 1]) + if a.Add? then [Timer(a.when, a.interval, a.repeat)] else []
  }

  function BatchAdds(expired: seq<Entry>, script: map<Id, seq<Action>>): seq<Timer> {
    if expired == [] then []
    else BatchAdds(expired[..|expired| - 1], script) + AddsOf(ActionsOf(script, expired[|expired| - 1].id))
  }

  /** Exactly these timers have been inserted since the next id was `from`; reset may have
      moved their expirations since. */
  ghost predicate AddedBy(from: Id, b: Contents, adds: seq<Timer>) {
    b.nextId == from + |adds| && forall k :: 0 <= k < |adds| ==> AddedAt(b, from + k, adds[k])
  }

  predicate AddedAt(b: Contents, id: Id, t: Timer) {
    id in b.timers && b.timers[id].interval == t.interval && b.timers[id].repeat == t.repeat
  }

  lemma AddsNext(actions: seq<Action>, i: nat)
    requires i < |actions|
    ensures AddsOf(actions[..i + 1]) == AddsOf(actions[..i]) + AddsOf([actions[i]])
  {
    assert actions[..i + 1][..i] == actions[..i] && [actions[i]][..0] == [];
  }

  lemma AddedNext(from: Id, b: Contents, c: Contents, adds: seq<Timer>, more: seq<Timer>)
    requires AddedBy(from, b, adds) && AddedBy(b.nextId, c, more) && SameKinds(b.timers, c.timers)
    ensures AddedBy(from, c, adds + more)
  {
    forall k | 0 <= k < |adds + more| ensures AddedAt(c, from + k, (adds + more)[k]) {
      if k < |adds| {
        assert AddedAt(b, from + k, adds[k]);
      } else {
        assert AddedAt(c, b.nextId + (k - |adds|), more[k - |adds|]);
      }
    }
  }

  /** The timers cancelled between a and b are exactly the inserted ones that the actions
      cancel, and each is marked as of now. */
  ghost predicate CancelledBy(a: Contents, b: Contents, actions: seq<Action>) {
    (forall id :: Cancel(id) in actions && id in a.timers ==> id in b.marks) &&
    (forall id :: id in b.marks && id !in a.marks ==>
       Cancel(id) in actions && b.ran <= |b.batch| && b.marks[id] == Mark(|b.log|, id in Ids(b.batch[b.ran..])))
  }

  lemma CancelledNext(a: Contents, b: Contents, c: Contents, actions: seq<Action>, i: nat)
    requires i < |actions| && CancelledBy(a, b, actions[..i]) && Kept(b, c) && TimersKept(a.timers, b.timers)
    requires c.ran == b.ran <= |b.batch| && c.batch == b.batch && c.log == b.log && Silenced(c)
    requires actions[i].Cancel? && actions[i].id in b.timers ==> c.marks == Marked(b, actions[i].id)
    requires actions[i].Add? || actions[i].id !in b.timers ==> c.marks == b.marks
    ensures CancelledBy(a, c, actions[..i + 1])
  {
    assert actions[..i + 1] == actions[..i] + [actions[i]];
  }

  /** The timers cancelled by the first n callbacks of a batch: each was cancelled by the
      callback that its mark points to, and was then due exactly if it comes later in
      the batch. */
  ghost predicate BatchCancelled(a: Contents, b: Contents, expired: seq<Entry>, script: map<Id, seq<Action>>, n: nat)
    requires n <= |expired|
  {
    (forall k, id :: 0 <= k < n && Cancel(id) in ActionsOf(script, expired[k].id) && id in a.timers ==> id in b.marks) &&
    (forall id :: id in b.marks && id !in a.marks ==> CancelledIn(b.marks[id], id, |a.log|, expired, script, n))
  }

  predicate CancelledIn(mark: Mark, id: Id, start: nat, expired: seq<Entry>, script: map<Id, seq<Action>>, n: nat)
    requires n <= |expired|
  {
    start < mark.at <= start + n && Cancel(id) in ActionsOf(script, expired[mark.at - start - 1].id) &&
    mark.due == (id in Ids(expired[mark.at - start..]))
  }

  lemma BatchNext(a: Contents, b: Contents, c: Contents, expired: seq<Entry>, script: map<Id, seq<Action>>, n: nat)
    requires n < |expired| && BatchCancelled(a, b, expired, script, n) && TimersKept(a.timers, b.timers) && Kept(b, c)
    requires CancelledBy(b, c, ActionsOf(script, expired[n].id))
    requires |c.log| == |a.log| + n + 1 && c.batch == expired && c.ran == n + 1
    ensures BatchCancelled(a, c, expired, script, n + 1)
  {
    forall id | id in c.marks && id !in a.marks
      ensures CancelledIn(c.marks[id], id, |a.log|, expired, script, n + 1)
    {
      if id in b.marks { assert CancelledIn(b.marks[id], id, |a.log|, expired, script, n); }
    }
  }

  /** What n callbacks of a batch have done. */
  ghost predicate Progress(a: Contents, b: Contents, expired: seq<Entry>, script: map<Id, seq<Action>>, now: int, n: nat)
    requires n <= |expired|
  {
    Kept(a, b) && TimersKept(a.timers, b.timers) && b.log == a.log + Runs(expired[..n], now) &&
    BatchCancelled(a, b, expired, script, n) && AddedBy(a.nextId, b, BatchAdds(expired[..n], script))
  }

  lemma ProgressNext(a: Contents, b: Contents, c: Contents, expired: seq<Entry>, script: map<Id, seq<Action>>, now: int, n: nat)
    requires n < |expired| && Progress(a, b, expired, script, now, n) && Kept(b, c) && TimersKept(b.timers, c.timers)
    requires CancelledBy(b, c, ActionsOf(script, expired[n].id))
    requires c.log == b.log + Runs([expired[n]], now) && c.batch == expired && c.ran == n + 1
    requires AddedBy(b.nextId, c, AddsOf(ActionsOf(script, expired[n].id)))
    ensures Progress(a, c, expired, script, now, n + 1)
  {
    assert expired[..n + 1][..n] == expired[..n];
    AddedNext(a.nextId, b, c, BatchAdds(expired[..n], script), AddsOf(ActionsOf(script, expired[n].id)));
    assert Runs(expired[..n + 1], now) == Runs(expired[..n], now) + Runs([expired[n]], now);
    BatchNext(a, b, c, expired, script, n);
  }

  predicate ScriptAfterEpoch(script: map<Id, seq<Action>>) { forall id :: id in script ==> AllAfterEpoch(script[id]) }

  function Marked(c: Contents, id: Id): map<Id, Mark>
    requires c.ran <= |c.batch|
  {
    if id in c.marks then c.marks else c.marks[id := Mark(|c.log|, id in Ids(c.batch[c.ran..]))]
  }

  /** The contents after a cancellation that leaves this list. */
  function Struck(c: Contents, id: Id, list: seq<Entry>, canceling: set<Id>): Contents
    requires c.ran <= |c.batch|
  {
    c.(list := list, cancelled := c.cancelled + {id}, canceling := canceling, marks := Marked(c, id))
  }

  lemma CancelSilences(c: Contents, id: Id, list: seq<Entry>, canceling: set<Id>)
    requires Silenced(c)
    ensures Silenced(Struck(c, id, list, canceling))
  {
    assert c.log[|c.log|..] == [];
  }

  lemma TakeSilences(c: Contents, k: nat)
    requires StaysCancelled(c) && Silenced(c) && c.batch == [] && k <= |c.list|
    ensures Silenced(c.(list := c.list[k..], batch := c.list[..k], ran := 0, canceling := {}))
  {
    var d := c.(list := c.list[k..], batch := c.list[..k], ran := 0, canceling := {});
    IdsSplit(c.list, k);
    assert d.batch[0..] == c.list[..k] && c.batch[c.ran..] == [];
    forall id | id in d.marks ensures SilencedAt(d, id) {
      assert SilencedAt(c, id) && id in c.cancelled;
    }
  }

  lemma RunSilences(c: Contents, at: int)
    requires Structure(c) && Silenced(c) && c.ran < |c.batch|
    ensures Silenced(c.(ran := c.ran + 1, log := c.log + Runs([c.batch[c.ran]], at)))
  {
    var e := c.batch[c.ran];
    var r := Run(e.id, e.when, at);
    var d := c.(ran := c.ran + 1, log := c.log + [r]);
    assert Runs([e], at) == [r];
    NextOfBatch(c);
    forall id | id in d.marks ensures SilencedAt(d, id) {
      assert SilencedAt(c, id);
      StartsSnoc(c.log, r, c.marks[id].at, id);
    }
  }

  ghost function Added(c: Contents, timer: Timer): Contents {
    c.(timers := c.timers[c.nextId := timer], nextId := c.nextId + 1,
       list := Inserted(c.list, Entry(timer.expiration, c.nextId)))
  }

  /** A new timer enters the list. */
  lemma AddKeeps(c: Contents, timer: Timer)
    requires Good(c)
    ensures Entry(timer.expiration, c.nextId) !in c.list
    ensures Good(Added(c, timer))
  {
    var e := Entry(timer.expiration, c.nextId);
    var list := Inserted(c.list, e);
    InsertedSorted(c.list, e);
    InsertedMembers(c.list, e);
    assert Ids(list) == Ids(c.list) + {c.nextId};
    assert forall x :: x in c.batch[c.ran..] ==> x in c.batch;
  }

  /** A timer's key finds it in the list if it is there. */
  lemma KeyOf(c: Contents, id: Id)
    requires Structure(c) && id in c.timers
    ensures forall e :: e in c.list && e.id == id ==> e == Entry(c.timers[id].expiration, id)
    ensures Entry(c.timers[id].expiration, id) in c.list ==> id !in Ids(c.batch)
  {
    var e := Entry(c.timers[id].expiration, id);
    assert e in c.list ==> e.id in Ids(c.list);
  }

  /** Fewer entries in the list keep everything; those cancelled must be gone. */
  lemma CancelKeeps(c: Contents, id: Id, list: seq<Entry>, canceling: set<Id>)
    requires Good(c) && id in c.timers && Sorted(list) && c.canceling <= canceling <= c.canceling + {id}
    requires forall e :: e in list <==> e in c.list && e.id != id
    requires id !in Ids(c.batch) || id in canceling
    ensures Good(Struck(c, id, list, canceling)) && Kept(c, Struck(c, id, list, canceling))
  {
    assert Ids(list) == Ids(c.list) - {id};
    CancelSilences(c, id, list, canceling);
  }

  /** The same from what the steps of a cancellation leave. */
  lemma StruckKeeps(c: Contents, id: Id, list: seq<Entry>, canceling: set<Id>, calling: bool)
    requires Good(c) && id in c.timers && Sorted(list) && (c.batch != [] ==> calling)
    requires var e := Entry(c.timers[id].expiration, id);
             (forall x :: x in list <==> x in c.list && x != e) &&
             canceling == c.canceling + if e !in c.list && calling then {id} else {}
    ensures Good(Struck(c, id, list, canceling)) && Kept(c, Struck(c, id, list, canceling))
    ensures forall e :: e in list <==> e in c.list && e.id != id
  {
    KeyOf(c, id);
    assert c.batch == [] ==> Ids(c.batch) == {};
    CancelKeeps(c, id, list, canceling);
  }

  /** A cancellation that comes before its timer has been inserted finds nothing. */
  lemma MissKeeps(c: Contents, id: Id, canceling: set<Id>)
    requires Good(c) && id !in c.timers && c.canceling <= canceling <= c.canceling + {id}
    ensures Good(c.(canceling := canceling))
  {
    assert forall e :: e in c.batch ==> e.id in c.timers;
  }

  lemma IdsSplit(list: seq<Entry>, k: nat)
    requires k <= |list|
    ensures Ids(list) == Ids(list[..k]) + Ids(list[k..])
  {
    assert list == list[..k] + list[k..];
    assert forall e :: e in list <==> e in list[..k] || e in list[k..];
  }

  /** Sorted and keyed entries belong to different timers. */
  lemma DistinctIds(list: seq<Entry>, timers: map<Id, Timer>, k: nat)
    requires Sorted(list) && Keyed(list, timers) && k <= |list|
    ensures Ids(list[..k]) !! Ids(list[k..])
  {
    forall e, f | e in list[..k] && f in list[k..] ensures e.id != f.id {
      var i :| 0 <= i < k && list[i] == e;
      var j :| 0 <= j < |list[k..]| && list[k..][j] == f;
      assert Before(list[i], list[k + j]);
      assert e in list && f in list;
    }
  }

  /** handleRead takes the first k entries as its batch. */
  lemma TakeKeeps(c: Contents, k: nat)
    requires Good(c) && c.batch == [] && k <= |c.list|
    ensures Good(c.(list := c.list[k..], batch := c.list[..k], ran := 0, canceling := {}))
  {
    IdsSplit(c.list, k);
    DistinctIds(c.list, c.timers, k);
    assert c.list[..k][0..] == c.list[..k];
    TakeSilences(c, k);
    TakeRemembers(c, k);
  }

  /** The next callback of the batch starts. */
  lemma RunKeeps(c: Contents, at: int)
    requires Good(c) && c.ran < |c.batch| && c.batch[c.ran].when <= at
    ensures Good(c.(ran := c.ran + 1, log := c.log + Runs([c.batch[c.ran]], at)))
  {
    var e, rest := c.batch[c.ran], c.batch[c.ran..];
    NextOfBatch(c);
    RunSilences(c, at);
    RunRemembers(c, at);
    var log := c.log + Runs([e], at);
    assert forall r :: r in log ==> r in c.log || r == Run(e.id, e.when, at);
    forall i, j | 0 <= i < j < |log| && log[i].id == log[j].id ensures c.timers[log[i].id].repeat {
      if j == |c.log| { assert log[i] in c.log; }
    }
  }

  lemma NextOfBatch(c: Contents)
    requires Structure(c) && c.ran < |c.batch|
    ensures var e := c.batch[c.ran];
            e.id in c.timers && e.id in Ids(c.batch[c.ran..]) && e.id !in Ids(c.list) &&
            e.id !in Ids(c.batch[c.ran + 1..]) && Ids(c.batch[c.ran..]) == {e.id} + Ids(c.batch[c.ran + 1..])
  {
    var e, rest := c.batch[c.ran], c.batch[c.ran..];
    assert rest[1..] == c.batch[c.ran + 1..] && rest[0] == e && e in rest && e in c.batch;
    IdsSplit(rest, 1);
    IdsSplit(c.batch, c.ran);
    assert Keyed(rest, c.timers) by { assert forall x :: x in rest ==> x in c.batch; }
    DistinctIds(rest, c.timers, 1);
    assert e in rest[..1] && e.id in Ids(rest[..1]);
  }

  /** reset leaves a timer that does not restart out of the list. */
  lemma DropKeeps(c: Contents)
    requires Good(c) && c.batch != [] && c.ran == |c.batch| && !Restarts(c, c.batch[0].id)
    ensures Good(c.(batch := c.batch[1..], ran := c.ran - 1))
  {
    IdsSplit(c.batch, 1);
    assert c.batch[1..][c.ran - 1..] == [] == c.batch[c.ran..];
    DropRemembers(c);
  }

  ghost function Rearmed(c: Contents, now: int): Contents
    requires c.batch != [] && c.batch[0].id in c.timers && c.ran > 0
  {
    var id := c.batch[0].id;
    var when := now + c.timers[id].interval;
    c.(timers := c.timers[id := c.timers[id].(expiration := when)],
       list := Inserted(c.list, Entry(when, id)), batch := c.batch[1..], ran := c.ran - 1)
  }

  /** reset restarts a repeating timer and puts it back. */
  lemma RearmKeeps(c: Contents, now: int)
    requires Good(c) && c.batch != [] && c.ran == |c.batch|
    requires c.batch[0].id in c.timers && c.timers[c.batch[0].id].repeat && c.batch[0].id !in c.canceling
    ensures Entry(now + c.timers[c.batch[0].id].interval, c.batch[0].id) !in c.list
    ensures Good(Rearmed(c, now))
  {
    var e, d := c.batch[0], Rearmed(c, now);
    NextOfBatch(c.(ran := 0));
    assert c.batch[0..] == c.batch && e in c.batch;
    RearmIds(c, now);
    RearmStructure(c, now);
    RearmRemembers(c, now);
    assert d.batch[d.ran..] == [] == c.batch[c.ran..];
    assert Punctual(d);
    assert StaysCancelled(d);
  }

  lemma RearmIds(c: Contents, now: int)
    requires c.batch != [] && c.batch[0].id in c.timers && c.ran > 0
    ensures Ids(Rearmed(c, now).list) == Ids(c.list) + {c.batch[0].id}
  {
    var e := Entry(now + c.timers[c.batch[0].id].interval, c.batch[0].id);
    InsertedMembers(c.list, e);
  }

  lemma RearmStructure(c: Contents, now: int)
    requires Structure(c) && c.batch != [] && c.ran == |c.batch|
    requires c.batch[0].id in c.timers && c.batch[0].id !in Ids(c.list) && c.batch[0].id !in Ids(c.batch[1..])
    requires Ids(c.batch[1..]) <= Ids(c.batch)
    ensures Entry(now + c.timers[c.batch[0].id].interval, c.batch[0].id) !in c.list
    ensures Structure(Rearmed(c, now))
  {
    var id := c.batch[0].id;
    var e := Entry(now + c.timers[id].interval, id);
    assert e in c.list ==> id in Ids(c.list);
    InsertedSorted(c.list, e);
    InsertedMembers(c.list, e);
    RearmIds(c, now);
    forall x | x in c.list ensures x.id != id { assert x.id in Ids(c.list); }
    forall x | x in c.batch[1..] ensures x.id != id && x in c.batch { assert x.id in Ids(c.batch[1..]); }
  }

  predicate Restarts(c: Contents, id: Id) { id in c.timers && c.timers[id].repeat && id !in c.canceling }

  ghost function ResetStep(c: Contents, now: int): Contents
    requires c.batch != [] && c.ran > 0
  {
    if Restarts(c, c.batch[0].id) then Rearmed(c, now) else c.(batch := c.batch[1..], ran := c.ran - 1)
  }

  lemma ResetStepKeeps(c: Contents, now: int)
    requires Good(c) && c.batch != [] && c.ran == |c.batch|
    ensures Good(ResetStep(c, now))
    ensures Restarts(c, c.batch[0].id) ==> Restarted(c, c.batch[0], now) !in c.list
  {
    if Restarts(c, c.batch[0].id) { RearmKeeps(c, now); } else { DropKeeps(c); }
  }

  /** The contents after reset has gone through the batch. */
  ghost function ResetAll(c: Contents, now: int): Contents
    requires c.ran == |c.batch|
    decreases |c.batch|
  {
    if c.batch == [] then c else ResetAll(ResetStep(c, now), now)
  }

  lemma {:induction false} ResetAllKeeps(c: Contents, now: int)
    requires Good(c) && c.ran == |c.batch|
    ensures var d := ResetAll(c, now);
            d.batch == [] && d.ran == 0 && Good(d) &&
            d.log == c.log && d.cancelled == c.cancelled && d.canceling == c.canceling && d.marks == c.marks
    decreases |c.batch|
  {
    if c.batch == [] {
    } else {
      ResetStepKeeps(c, now);
      ResetAllKeeps(ResetStep(c, now), now);
    }
  }

  lemma {:induction false} ResetAllKinds(c: Contents, now: int)
    requires c.ran == |c.batch|
    ensures SameKinds(c.timers, ResetAll(c, now).timers) && ResetAll(c, now).nextId == c.nextId
    decreases |c.batch|
  {
    if c.batch == [] {
    } else {
      ResetAllKinds(ResetStep(c, now), now);
    }
  }

  /** The first timer's restart changes nothing for the others. */
  lemma OthersUnchanged(c: Contents, now: int, x: Entry)
    requires Structure(c) && c.batch != [] && c.ran == |c.batch| && x in c.batch[1..]
    ensures var d := ResetStep(c, now);
            x.id in c.timers && Restarts(d, x.id) == Restarts(c, x.id) && Restarted(d, x, now) == Restarted(c, x, now)
  {
    NextOfBatch(c.(ran := 0));
    assert c.batch[0..] == c.batch && x in c.batch && x.id in Ids(c.batch[1..]);
  }

  /** e is the new entry of a timer of the batch that restarts. */
  ghost predicate Comes(c: Contents, e: Entry, now: int) {
    exists x :: x in c.batch && Restarts(c, x.id) && e == Restarted(c, x, now)
  }

  lemma ComesLater(c: Contents, e: Entry, now: int)
    requires Structure(c) && c.batch != [] && c.ran == |c.batch|
    ensures Comes(c, e, now) <==>
              (Restarts(c, c.batch[0].id) && e == Restarted(c, c.batch[0], now)) || Comes(ResetStep(c, now), e, now)
  {
    var c1, e0 := ResetStep(c, now), c.batch[0];
    assert c.batch == [e0] + c.batch[1..];
    forall x | x in c.batch[1..]
      ensures Restarts(c1, x.id) == Restarts(c, x.id) &&
              (Restarts(c, x.id) ==> Restarted(c1, x, now) == Restarted(c, x, now))
    {
      OthersUnchanged(c, now, x);
    }
  }

  /** Exactly the repeating timers of the batch that were not cancelled are back,
      each one interval later; the rest of the list stays. */
  lemma ResetAllEffect(c: Contents, now: int)
    requires Good(c) && c.ran == |c.batch|
    ensures forall e :: e in ResetAll(c, now).list <==> e in c.list || Comes(c, e, now)
  {
    forall e ensures e in ResetAll(c, now).list <==> e in c.list || Comes(c, e, now) {
      ResetEffectAt(c, now, e);
    }
  }

  lemma {:induction false} ResetEffectAt(c: Contents, now: int, e: Entry)
    requires Good(c) && c.ran == |c.batch|
    ensures e in ResetAll(c, now).list <==> e in c.list || Comes(c, e, now)
    decreases |c.batch|
  {
    if c.batch == [] {
    } else {
      ResetStepKeeps(c, now);
      ResetEffectAt(ResetStep(c, now), now, e);
      StepEffectAt(c, now, e);
    }
  }

  lemma StepEffectAt(c: Contents, now: int, e: Entry)
    requires Structure(c) && c.batch != [] && c.ran == |c.batch|
    ensures e in ResetStep(c, now).list || Comes(ResetStep(c, now), e, now) <==> e in c.list || Comes(c, e, now)
  {
    var e0 := c.batch[0];
    if Restarts(c, e0.id) { InsertedMembers(c.list, Restarted(c, e0, now)); }
    ComesLater(c, e, now);
  }

  /** Which timers of the batch are in the list after reset. */
  lemma BackInList(c: Contents, d: Contents, now: int)
    requires Good(d) && d.ran == |d.batch| && Keyed(d.batch, c.timers)
    requires TimersKept(c.timers, d.timers)
    ensures forall e :: e in d.batch ==>
              (e.id in Ids(ResetAll(d, now).list) <==> c.timers[e.id].repeat && e.id !in d.cancelled)
  {
    ResetAllEffect(d, now);
    var list := ResetAll(d, now).list;
    forall e | e in d.batch ensures e.id in Ids(list) <==> c.timers[e.id].repeat && e.id !in d.cancelled {
      assert e.id in Ids(d.batch);
      if Restarts(d, e.id) { assert Restarted(d, e, now) in list; }
    }
  }

  ghost function Restarted(c: Contents, x: Entry, now: int): Entry
    requires x.id in c.timers
  {
    Entry(now + c.timers[x.id].interval, x.id)
  }

  /** What handleRead does to the contents: each expired timer has run once, in order;
      it is in the list again exactly if it repeats and was not cancelled; and what the
      callbacks cancelled is marked. */
  ghost predicate Served(a: Contents, b: Contents, now: int, script: map<Id, seq<Action>>) {
    var n := ExpiredCount(a.list, now);
    var expired := a.list[..n];
    b.log == a.log + Runs(expired, now) && Kept(a, b) && BatchCancelled(a, b, expired, script, n) &&
    AddedBy(a.nextId, b, BatchAdds(expired, script)) &&
    forall e :: e in expired ==> (e.id in Ids(b.list) <==> e.id in a.timers && a.timers[e.id].repeat && e.id !in b.cancelled)
  }

  /** What one event does to the contents. */
  ghost predicate Delivered(a: Contents, b: Contents, event: Event) {
    match event
    case Request(Add(when, interval, repeat, _)) =>
      b == Added(a, Timer(when, interval, repeat)) && a.nextId in b.timers &&
      b.timers[a.nextId] == Timer(when, interval, repeat)
    case Request(Cancel(id)) =>
      a.ran <= |a.batch| && b.timers == a.timers && b.log == a.log &&
      (if id in a.timers then b.marks == Marked(a, id) && forall e :: e in b.list <==> e in a.list && e.id != id
       else b.marks == a.marks && b.list == a.list)
    case AlarmExpires => b == a
    case AlarmReadable(now, script, _) => Served(a, b, now, script)
  }

  /** Every event took one state to the next. */
  ghost predicate Traced(states: seq<Contents>, events: seq<Event>) {
    |states| == |events| + 1 && forall i :: 0 <= i < |events| ==> Delivered(states[i], states[i + 1], events[i])
  }

  lemma TracedNext(states: seq<Contents>, events: seq<Event>, i: nat, c: Contents)
    requires i < |events| && Traced(states, events[..i]) && Delivered(states[i], c, events[i])
    ensures Traced(states + [c], events[..i + 1])
  {
    var longer := states + [c];
    forall j | 0 <= j < i + 1 ensures Delivered(longer[j], longer[j + 1], events[..i + 1][j]) {
      if j < i { assert Delivered(states[j], states[j + 1], events[..i][j]); }
    }
  }

  /** Between events: a timer that is not cancelled and repeats or has not run is in the
      list, and a cancelled one has started since exactly if it was still due then. */
  ghost predicate AtRest(c: Contents) {
    (forall id :: id in c.timers && id !in c.cancelled && (c.timers[id].repeat || !HasRun(c.log, id)) ==>
       id in Ids(c.list)) &&
    (forall id :: id in c.cancelled ==>
       id in c.marks && c.marks[id].at <= |c.log| &&
       Starts(c.log[c.marks[id].at..], id) == if c.marks[id].due then 1 else 0)
  }

  lemma Rests(c: Contents)
    requires Good(c) && c.batch == []
    ensures AtRest(c)
  {
    assert c.batch[c.ran..] == [] && Ids(c.batch) == {};
    forall id | id in c.cancelled
      ensures id in c.marks && c.marks[id].at <= |c.log| &&
              Starts(c.log[c.marks[id].at..], id) == if c.marks[id].due then 1 else 0
    {
      assert SilencedAt(c, id);
    }
  }

  lemma ServedAfter(c: Contents, d: Contents, now: int, script: map<Id, seq<Action>>)
    requires Structure(c) && Good(d) && d.ran == |d.batch| && d.batch == c.list[..ExpiredCount(c.list, now)]
    requires Progress(c, d, d.batch, script, now, |d.batch|)
    ensures Served(c, ResetAll(d, now), now, script)
  {
    assert forall e :: e in d.batch ==> e in c.list;
    assert d.batch[..|d.batch|] == d.batch;
    BackInList(c, d, now);
    ResetAllKeeps(d, now);
    ResetAllKinds(d, now);
    AddedNext(c.nextId, d, ResetAll(d, now), BatchAdds(d.batch, script), []);
    assert BatchAdds(d.batch, script) + [] == BatchAdds(d.batch, script);
  }

  class TimerQueue {
    var timers: map<Id, Timer>
    var nextId: Id
    var timerList: seq<Entry>
    var cancelingTimers: set<Id>
    var callingExpiredTimers: bool
    var earliestChanged: bool
    var alarm: Alarm
    ghost var batch: seq<Entry>
    ghost var ran: nat
    ghost var log: seq<Run>
    ghost var cancelled: set<Id>
    ghost var marks: map<Id, Mark>
    /** Every expiration so far was after the epoch, so none counts as invalid. */
    ghost var positive: bool

    ghost function C(): Contents
      reads this
    {
      Contents(timers, nextId, timerList, batch, ran, log, cancelled, cancelingTimers, marks)
    }

    ghost predicate Valid()
      reads this
    {
      Good(C()) && (batch != [] ==> callingExpiredTimers) &&
      (positive ==> AllPositive(timerList))
    }

    /** Between two events of the loop. */
    ghost predicate Quiet()
      reads this
    {
      Valid() && batch == [] && !callingExpiredTimers && (positive ==> NeverLate(timerList, alarm))
    }

    constructor ()
      ensures Quiet() && timerList == [] && log == [] && cancelled == {} && positive && nextId == 0 && timers == map[]
    {
      timers, nextId, timerList, cancelingTimers := map[], 0, [], {};
      callingExpiredTimers, earliestChanged, alarm := false, false, Disarmed;
      batch, ran, log, cancelled, marks, positive := [], 0, [], {}, map[], true;
    }

    method ResetAlarm(when: int, now: int)
      modifies this`alarm
      ensures alarm == Armed(Max(when, now + 100), now)
    {
      var (sec, nsec) := HowMuchTimeFromNow(when, now);
      alarm := Armed(now + sec * 1_000_000 + nsec / 1000, now);
    }

    method Insert(id: Id)
      requires id in timers && Entry(timers[id].expiration, id) !in timerList
      modifies this`timerList, this`earliestChanged
      ensures timerList == Inserted(old(timerList), Entry(timers[id].expiration, id))
      ensures earliestChanged <==> old(timerList) == [] || timers[id].expiration < old(timerList)[0].when
    {
      earliestChanged := false;
      var when := timers[id].expiration;
      if timerList == [] || when < timerList[0].when {
        earliestChanged := true;
      }
      timerList := Inserted(timerList, Entry(when, id));
    }

    /** The steps of adding a timer, whatever else holds. */
    method Enter(when: int, interval: nat, repeat: bool, now: int) returns (id: Id)
      requires Entry(when, nextId) !in timerList
      modifies this`timers, this`nextId, this`timerList, this`earliestChanged, this`alarm, this`positive
      ensures id == old(nextId) && C() == Added(old(C()), Timer(when, interval, repeat))
      ensures alarm == if old(timerList) == [] || when < old(timerList)[0].when then Armed(Max(when, now + 100), now)
                       else old(alarm)
      ensures positive == (old(positive) && when > 0)
    {
      id := nextId;
      timers := timers[id := Timer(when, interval, repeat)];
      nextId := nextId + 1;
      positive := positive && when > 0;
      Insert(id);
      if earliestChanged { ResetAlarm(when, now); }
    }

    method AddTimerInLoop(when: int, interval: nat, repeat: bool, now: int) returns (id: Id)
      requires Valid()
      modifies this`timers, this`nextId, this`timerList, this`earliestChanged, this`alarm, this`positive
      ensures Valid() && (old(Quiet()) ==> Quiet())
      ensures id == old(nextId) && id !in old(timers) && C() == Added(old(C()), Timer(when, interval, repeat))
      ensures positive == (old(positive) && when > 0)
      ensures Kept(old(C()), C()) && TimersKept(old(timers), timers)
      ensures id in timers && timers[id] == Timer(when, interval, repeat) && id in Ids(timerList)
    {
      AddKeeps(C(), Timer(when, interval, repeat));
      AddNotLate(timerList, alarm, Entry(when, nextId), now);
      InsertedMembers(timerList, Entry(when, nextId));
      id := Enter(when, interval, repeat, now);
    }

    method Erase(e: Entry)
      requires Sorted(timerList) && e in timerList
      modifies this`timerList
      ensures Sorted(timerList) && forall x :: x in timerList <==> x in old(timerList) && x != e
      ensures timerList == [] || timerList[0].when >= old(timerList)[0].when
    {
      var i :| 0 <= i < |timerList| && timerList[i] == e;
      Erased(timerList, i);
      timerList := timerList[..i] + timerList[i + 1..];
    }

    /** The steps of a cancellation, whatever else holds. */
    method Strike(id: Id)
      requires Sorted(timerList)
      modifies this`timerList, this`cancelingTimers
      ensures id in timers ==>
                var e := Entry(timers[id].expiration, id);
                Sorted(timerList) && (forall x :: x in timerList <==> x in old(timerList) && x != e) &&
                (timerList == [] || (old(timerList) != [] && timerList[0].when >= old(timerList)[0].when)) &&
                cancelingTimers == old(cancelingTimers) + if e !in old(timerList) && callingExpiredTimers then {id} else {}
      ensures id !in timers ==>
                timerList == old(timerList) && cancelingTimers == old(cancelingTimers) + if callingExpiredTimers then {id} else {}
    {
      if id in timers && Entry(timers[id].expiration, id) in timerList {
        Erase(Entry(timers[id].expiration, id));
      } else if callingExpiredTimers {
        cancelingTimers := cancelingTimers + {id};
      }
    }

    /** Another thread may hold the id of a timer whose insertion is still queued: such a
        cancellation has no effect, and the timer will be inserted and run. */
    method CancelTimerInLoop(id: Id)
      requires Valid()
      modifies this`timerList, this`cancelingTimers, this`cancelled, this`marks
      ensures Valid() && (old(Quiet()) ==> Quiet())
      ensures cancelled == old(cancelled) + if id in timers then {id} else {}
      ensures marks == if id in timers then Marked(old(C()), id) else old(marks)
      ensures if id in timers then forall e :: e in timerList <==> e in old(timerList) && e.id != id
              else timerList == old(timerList)
      ensures Kept(old(C()), C())
    {
      if id in timers { CancelInserted(id); } else {
        MissKeeps(C(), id, cancelingTimers + if callingExpiredTimers then {id} else {});
        Strike(id);
      }
    }

    method CancelInserted(id: Id)
      requires Valid() && id in timers
      modifies this`timerList, this`cancelingTimers, this`cancelled, this`marks
      ensures Valid() && (old(Quiet()) ==> Quiet())
      ensures cancelled == old(cancelled) + {id} && marks == Marked(old(C()), id)
      ensures forall e :: e in timerList <==> e in old(timerList) && e.id != id
      ensures Kept(old(C()), C())
    {
      StrikeOut(id);
      StruckKeeps(old(C()), id, timerList, cancelingTimers, callingExpiredTimers);
      FewerNotLate(old(timerList), timerList, alarm);
    }

    /** The steps of a cancellation with their record. */
    method StrikeOut(id: Id)
      requires id in timers && Sorted(timerList) && ran <= |batch|
      modifies this`timerList, this`cancelingTimers, this`cancelled, this`marks
      ensures C() == Struck(old(C()), id, timerList, cancelingTimers)
      ensures var e := Entry(timers[id].expiration, id);
              Sorted(timerList) && (forall x :: x in timerList <==> x in old(timerList) && x != e) &&
              (timerList == [] || (old(timerList) != [] && timerList[0].when >= old(timerList)[0].when)) &&
              cancelingTimers == old(cancelingTimers) + if e !in old(timerList) && callingExpiredTimers then {id} else {}
    {
      ghost var c := C();
      Strike(id);
      cancelled, marks := cancelled + {id}, Marked(c, id);
    }

    method GetExpired(now: int) returns (expired: seq<Entry>)
      modifies this`timerList
      ensures expired == old(timerList)[..ExpiredCount(old(timerList), now)]
      ensures timerList == old(timerList)[ExpiredCount(old(timerList), now)..]
    {
      var lastExpired := LowerBound(timerList, now);
      if lastExpired != |timerList| && timerList[lastExpired].when == now {
        lastExpired := lastExpired + 1;
      }
      expired := timerList[..lastExpired];
      timerList := timerList[lastExpired..];
    }

    /** One request. */
    method Carry(action: Action)
      requires Valid()
      modifies this`timers, this`nextId, this`timerList, this`earliestChanged, this`alarm, this`positive,
               this`cancelingTimers, this`cancelled, this`marks
      ensures Valid() && (old(Quiet()) ==> Quiet()) && positive == (old(positive) && AfterEpoch(action))
      ensures Kept(old(C()), C()) && TimersKept(old(timers), timers)
      ensures action.Cancel? && action.id in old(timers) ==> marks == Marked(old(C()), action.id)
      ensures action.Add? || action.id !in old(timers) ==> marks == old(marks)
      ensures action.Cancel? ==>
                timers == old(timers) &&
                if action.id in timers then forall e :: e in timerList <==> e in old(timerList) && e.id != action.id
                else timerList == old(timerList)
      ensures action.Add? ==>
                C() == Added(old(C()), Timer(action.when, action.interval, action.repeat)) && old(nextId) in timers &&
                timers[old(nextId)] == Timer(action.when, action.interval, action.repeat)
      ensures AddedBy(old(nextId), C(), AddsOf([action]))
    {
      assert [action][..0] == [];
      match action
      case Add(when, interval, repeat, now) => var _ := AddTimerInLoop(when, interval, repeat, now);
      case Cancel(id) => CancelTimerInLoop(id);
    }

    /** The requests that one callback makes. */
    method RunCallback(actions: seq<Action>)
      requires Valid() && callingExpiredTimers
      modifies this`timers, this`nextId, this`timerList, this`earliestChanged, this`alarm, this`positive,
               this`cancelingTimers, this`cancelled, this`marks
      ensures Valid() && (old(positive) && AllAfterEpoch(actions) ==> positive)
      ensures Kept(old(C()), C()) && TimersKept(old(timers), timers)
      ensures CancelledBy(old(C()), C(), actions) && AddedBy(old(nextId), C(), AddsOf(actions))
    {
      for i := 0 to |actions|
        invariant AddedBy(old(nextId), C(), AddsOf(actions[..i]))
        invariant Valid() && Kept(old(C()), C()) && TimersKept(old(timers), timers)
        invariant old(positive) && AllAfterEpoch(actions) ==> positive
        invariant CancelledBy(old(C()), C(), actions[..i])
      {
        ghost var c := C();
        Carry(actions[i]);
        CancelledNext(old(C()), c, C(), actions, i);
        AddsNext(actions, i);
        AddedNext(old(nextId), c, C(), AddsOf(actions[..i]), AddsOf([actions[i]]));
      }
      assert actions[..|actions|] == actions;
    }

    /** One round of reset's loop. */
    method ResetOne(e: Entry, now: int)
      requires batch != [] && ran > 0 && e == batch[0] && e.id in timers
      requires Restarts(C(), e.id) ==> Restarted(C(), e, now) !in timerList
      modifies this`timers, this`timerList, this`earliestChanged, this`batch, this`ran, this`positive
      ensures C() == ResetStep(old(C()), now)
      ensures positive && (old(positive) ==> AllPositive(old(timerList))) ==> AllPositive(timerList)
      ensures old(positive) && now > 0 ==> positive
    {
      if timers[e.id].repeat && e.id !in cancelingTimers {
        var when := now + timers[e.id].interval;
        timers := timers[e.id := timers[e.id].(expiration := when)];
        positive := positive && when > 0;
        InsertedMembers(timerList, Entry(when, e.id));
        Insert(e.id);
      }
      batch, ran := batch[1..], ran - 1;
    }

    /** The loop of reset over the batch. */
    method ResetBatch(expired: seq<Entry>, now: int)
      requires Good(C()) && batch == expired && ran == |expired|
      requires positive ==> AllPositive(timerList)
      modifies this`timers, this`timerList, this`earliestChanged, this`batch, this`ran, this`positive
      ensures C() == ResetAll(old(C()), now)
      ensures (positive ==> AllPositive(timerList)) && (old(positive) && now > 0 ==> positive)
    {
      var i := 0;
      while i < |expired|
        invariant old(positive) && now > 0 ==> positive
        invariant i <= |expired| && batch == expired[i..] && ran == |batch| && Good(C())
        invariant ResetAll(C(), now) == ResetAll(old(C()), now)
        invariant positive ==> AllPositive(timerList)
      {
        assert expired[i] in batch;
        ResetStepKeeps(C(), now);
        ResetOne(expired[i], now);
        i := i + 1;
      }
    }

    /** Puts the repeating timers of the batch back, except those cancelled, and
        sets the alarm for the earliest timer. */
    method Reset(expired: seq<Entry>, now: int, resetAt: int)
      requires Good(C()) && batch == expired && ran == |expired| && !callingExpiredTimers
      requires positive ==> AllPositive(timerList)
      modifies this`timers, this`timerList, this`earliestChanged, this`batch, this`ran, this`positive, this`alarm
      ensures C() == ResetAll(old(C()), now) && Quiet() && (old(positive) && now > 0 ==> positive)
      ensures alarm == if timerList != [] && timerList[0].when > 0 then Armed(Max(timerList[0].when, resetAt + 100), resetAt)
                       else old(alarm)
    {
      ResetAllKeeps(C(), now);
      ResetBatch(expired, now);
      if timerList != [] {
        assert timerList[0] in timerList;
        var nextExpired := timers[timerList[0].id].expiration;
        if nextExpired > 0 { ResetAlarm(nextExpired, resetAt); }
      }
    }

    /** Starts the next callback of the batch and carries out its requests. */
    method RunOne(e: Entry, now: int, actions: seq<Action>)
      requires Valid() && callingExpiredTimers && ran < |batch| && batch[ran] == e && e.when <= now
      modifies this`timers, this`nextId, this`timerList, this`earliestChanged, this`alarm, this`positive,
               this`cancelingTimers, this`cancelled, this`marks, this`log, this`ran
      ensures Valid() && ran == old(ran) + 1 && log == old(log) + Runs([e], now)
      ensures Kept(old(C()), C()) && TimersKept(old(timers), timers)
      ensures CancelledBy(old(C()), C(), actions) && (old(positive) && AllAfterEpoch(actions) ==> positive)
      ensures AddedBy(old(nextId), C(), AddsOf(actions))
    {
      Start(e, now);
      RunCallback(actions);
    }

    /** The callback starts: it counts as run. */
    ghost method Start(e: Entry, now: int)
      requires Valid() && callingExpiredTimers && ran < |batch| && batch[ran] == e && e.when <= now
      modifies this`log, this`ran
      ensures Valid() && ran == old(ran) + 1 && log == old(log) + Runs([e], now)
    {
      ghost var c := C();
      RunKeeps(c, now);
      log, ran := log + Runs([e], now), ran + 1;
      assert C() == c.(log := log, ran := ran);
    }

    /** One round of the loop over the batch. */
    method RunNext(ghost a: Contents, expired: seq<Entry>, now: int, script: map<Id, seq<Action>>, i: nat)
      requires Valid() && callingExpiredTimers && batch == expired && ran == i < |expired| && expired[i].when <= now
      requires Progress(a, C(), expired, script, now, i)
      modifies this`timers, this`nextId, this`timerList, this`earliestChanged, this`alarm, this`positive,
               this`cancelingTimers, this`cancelled, this`marks, this`log, this`ran
      ensures Valid() && ran == i + 1 && Progress(a, C(), expired, script, now, i + 1)
      ensures old(positive) && ScriptAfterEpoch(script) ==> positive
    {
      RunOne(expired[i], now, ActionsOf(script, expired[i].id));
      ProgressNext(a, old(C()), C(), expired, script, now, i);
    }

    /** Calls the batch's callbacks in the order of the list. */
    method RunBatch(expired: seq<Entry>, now: int, script: map<Id, seq<Action>>)
      requires Valid() && callingExpiredTimers && batch == expired && ran == 0
      requires forall i :: 0 <= i < |expired| ==> expired[i].when <= now
      modifies this`timers, this`nextId, this`timerList, this`earliestChanged, this`alarm, this`positive,
               this`cancelingTimers, this`cancelled, this`marks, this`log, this`ran
      ensures Valid() && ran == |expired| && Progress(old(C()), C(), expired, script, now, |expired|)
      ensures old(positive) && ScriptAfterEpoch(script) ==> positive
    {
      var i := 0;
      assert Runs(expired[..0], now) == [];
      while i < |expired|
        invariant i <= |expired| && ran == i && Valid() && Progress(old(C()), C(), expired, script, now, i)
        invariant old(positive) && ScriptAfterEpoch(script) ==> positive
      {
        RunNext(old(C()), expired, now, script, i);
        i := i + 1;
      }
    }

    /** The steps that begin a batch, whatever else holds. */
    method TakeBatch(now: int) returns (expired: seq<Entry>)
      modifies this`timerList, this`cancelingTimers, this`callingExpiredTimers, this`batch, this`ran
      ensures expired == old(timerList)[..ExpiredCount(old(timerList), now)]
      ensures C() == old(C()).(list := old(timerList)[|expired|..], batch := expired, ran := 0, canceling := {})
      ensures callingExpiredTimers
    {
      expired := GetExpired(now);
      cancelingTimers := {};
      callingExpiredTimers := true;
      batch, ran := expired, 0;
    }

    /** Takes the expired timers out of the list as the batch to run. */
    method BeginBatch(now: int) returns (expired: seq<Entry>)
      requires Valid() && batch == []
      modifies this`timerList, this`cancelingTimers, this`callingExpiredTimers, this`batch, this`ran
      ensures Valid() && callingExpiredTimers && batch == expired && ran == 0
      ensures expired == old(timerList)[..ExpiredCount(old(timerList), now)]
      ensures timers == old(timers) && log == old(log) && marks == old(marks) && cancelled == old(cancelled)
    {
      TakeKeeps(C(), ExpiredCount(timerList, now));
      expired := TakeBatch(now);
    }

    /** Takes the expired timers and runs them. */
    method RunExpired(now: int, script: map<Id, seq<Action>>) returns (expired: seq<Entry>)
      requires Valid() && batch == []
      modifies this`timers, this`nextId, this`timerList, this`earliestChanged, this`alarm, this`positive,
               this`cancelingTimers, this`callingExpiredTimers, this`cancelled, this`marks, this`log, this`batch, this`ran
      ensures Valid() && callingExpiredTimers && batch == expired && ran == |expired|
      ensures expired == old(timerList)[..ExpiredCount(old(timerList), now)]
      ensures Progress(old(C()), C(), expired, script, now, |expired|)
      ensures old(positive) && ScriptAfterEpoch(script) ==> positive
    {
      expired := BeginBatch(now);
      RunBatch(expired, now, script);
    }

    /** The alarm went off: run what has expired, then schedule what comes next. An
        earlier handler of the same round may have set the alarm anew; then the read
        finds nothing, and the rest goes on as usual.
        `script` gives each callback's requests, `resetAt` the time of the final
        reset. */
    method HandleRead(now: int, script: map<Id, seq<Action>>, resetAt: int)
      requires Quiet()
      modifies this
      ensures Quiet() && (old(positive) && now > 0 && ScriptAfterEpoch(script) ==> positive)
      ensures Served(old(C()), C(), now, script)
      ensures timerList == [] || timerList[0].when > 0 ==> NeverLate(timerList, alarm)
    {
      if alarm.Fired? { alarm := Disarmed; }
      ghost var c := C();
      var expired := RunExpired(now, script);
      callingExpiredTimers := false;
      ghost var d := C();
      ServedAfter(c, d, now, script);
      Reset(expired, now, resetAt);
    }

    /** One loop event. */
    method Deliver(event: Event)
      requires Quiet()
      modifies this
      ensures Quiet() && (old(positive) && EventAfterEpoch(event) ==> positive)
      ensures old(log) <= log && Kept(old(C()), C())
      ensures Delivered(old(C()), C(), event)
      ensures event.AlarmExpires? ==> alarm == if old(alarm).Armed? then Fired else old(alarm)
    {
      match event
      case Request(action) => Carry(action);
      case AlarmExpires => if alarm.Armed? { alarm := Fired; }
      case AlarmReadable(now, script, resetAt) => HandleRead(now, script, resetAt);
    }

    /** Any sequence of loop events, from outside or from within callbacks; `states` are the
        contents between them. */
    method RunEvents(events: seq<Event>) returns (ghost states: seq<Contents>)
      requires Quiet()
      modifies this
      ensures Quiet()
      ensures Traced(states, events) && states[0] == old(C()) && states[|events|] == C()
      ensures old(log) <= log && Kept(old(C()), C()) && AtRest(C())
      ensures old(positive) && (forall e :: e in events ==> EventAfterEpoch(e)) ==> positive && NeverLate(timerList, alarm)
    {
      states := [C()];
      for i := 0 to |events|
        invariant Quiet() && old(log) <= log && Kept(old(C()), C())
        invariant Traced(states, events[..i]) && states[0] == old(C()) && states[i] == C()
        invariant old(positive) && (forall e :: e in events ==> EventAfterEpoch(e)) ==> positive
      {
        assert events[i] in events;
        Deliver(events[i]);
        TracedNext(states, events, i, C());
        states := states + [C()];
      }
      assert events[..|events|] == events;
      Rests(C());
    }
  }

  lemma Erased(list: seq<Entry>, i: nat)
    requires Sorted(list) && i < |list|
    ensures var r := list[..i] + list[i + 1..];
            Sorted(r) && (forall e :: e in r <==> e in list && e != list[i]) &&
            (r == [] || r[0].when >= list[0].when)
  {
    var r := list[..i] + list[i + 1..];
    forall e | e in list && e != list[i] ensures e in r {
      var j :| 0 <= j < |list| && list[j] == e;
      if j < i { assert r[j] == e; } else { assert r[j - 1] == e; }
    }
    forall e | e in r ensures e in list && e != list[i] {
      var j :| 0 <= j < |r| && r[j] == e;
      if j < i { assert Before(list[j], list[i]); } else { assert Before(list[i], list[j + 1]); }
    }
    if r != [] && i == 0 { assert Before(list[0], list[1]); }
  }

  /** A timer cancelled before its insertion is inserted all the same. */
  method EarlyCancelExample(when: int, now: int) returns (q: TimerQueue)
    ensures q.Quiet() && 0 in Ids(q.timerList) && 0 !in q.cancelled
  {
    q := new TimerQueue();
    q.CancelTimerInLoop(0);
    var id := q.AddTimerInLoop(when, 0, false, now);
    assert q.timerList == [Entry(when, 0)] && Entry(when, 0) in q.timerList;
  }
}
