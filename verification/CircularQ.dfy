/** spdlog's circular queue: a ring with one reserved slot, seen as a bounded sequence
    whose push on a full ring drops the oldest item. */
module CircularQueue {
  /** The sequence a ring denotes: n items from h, wrapping at the end of v. */
  ghost function Ring<T>(v: seq<T>, h: nat, n: nat): (r: seq<T>)
    requires h < |v| && n <= |v|
  {
    (v + v)[h..h + n]
  }

  /** An index below twice the length, taken modulo the length. */
  function Wrap(i: nat, m: nat): (r: nat)
    requires i < 2 * m
    ensures r < m
  {
    if i < m then i else i - m
  }

  lemma WrapIsMod(i: nat, m: nat)
    requires i < 2 * m
    ensures i % m == Wrap(i, m)
  {
    if i >= m {
      assert i == (i - m) + m * 1;
      assert (i - m + m) % m == (i - m) % m;
    }
  }

  /** The index after i in a ring of m slots. */
  method Next(i: nat, m: nat) returns (r: nat)
    requires i < m
    ensures r == Wrap(i + 1, m)
  {
    WrapIsMod(i + 1, m);
    r := (i + 1) % m;
  }

  /** The specification of a push on a queue that holds `capacity` items. */
  function Pushed<T>(q: seq<T>, item: T, capacity: nat): (r: seq<T>)
    ensures |q| <= capacity ==> |r| <= capacity
  {
    if |q| < capacity then q + [item] else (q + [item])[|q| + 1 - capacity..]
  }

  datatype Op<T> = Push(item: T) | Pop

  /** The items pushed in a run, in order. */
  function Items<T>(ops: seq<Op<T>>): seq<T> {
    if ops == [] then []
    else Items(ops[..|ops| - 1]) + match ops[|ops| - 1] case Push(item) => [item] case Pop => []
  }

  function Pops<T>(ops: seq<Op<T>>): nat {
    if ops == [] then 0
    else Pops(ops[..|ops| - 1]) + if ops[|ops| - 1].Pop? then 1 else 0
  }

  /** The queue a run leaves. */
  function Queue<T>(ops: seq<Op<T>>, capacity: nat): (q: seq<T>) {
    if ops == [] then []
    else
      var q := Queue(ops[..|ops| - 1], capacity);
      match ops[|ops| - 1]
      case Push(item) => Pushed(q, item, capacity)
      case Pop => if q == [] then [] else q[1..]
  }

  /** The items handed out by the pops, in order. */
  function Popped<T>(ops: seq<Op<T>>, capacity: nat): seq<T> {
    if ops == [] then []
    else
      var before := ops[..|ops| - 1];
      Popped(before, capacity) +
      if ops[|ops| - 1].Pop? && Queue(before, capacity) != [] then [Queue(before, capacity)[0]] else []
  }

  /** Callers pop only a queue that holds something. */
  ghost predicate Legal<T(!new)>(ops: seq<Op<T>>, capacity: nat) {
    forall k :: 0 <= k < |ops| && ops[k].Pop? ==> Queue(ops[..k], capacity) != []
  }

  function SizeOf(head: nat, tail: nat, maxItems: nat): (n: nat)
    requires head < maxItems && tail < maxItems
    ensures n < maxItems && Wrap(head + n, maxItems) == tail
  {
    if tail >= head then tail - head else maxItems - (head - tail)
  }

  ghost function Denotes<T>(v: seq<T>, head: nat, tail: nat): (q: seq<T>)
    requires head < |v| && tail < |v|
    ensures |q| < |v|
  {
    Ring(v, head, SizeOf(head, tail, |v|))
  }

  lemma PushRing<T>(v: seq<T>, h: nat, n: nat, item: T)
    requires h < |v| && n < |v|
    ensures Ring(v[Wrap(h + n, |v|) := item], h, n + 1) == Ring(v, h, n) + [item]
  {
  }

  lemma PopRing<T>(v: seq<T>, h: nat, n: nat)
    requires h < |v| && 0 < n <= |v|
    ensures Ring(v, Wrap(h + 1, |v|), n - 1) == Ring(v, h, n)[1..]
  {
  }

  lemma PushRoom<T>(v: seq<T>, head: nat, tail: nat, item: T)
    requires head < |v| && tail < |v| && Wrap(tail + 1, |v|) != head
    ensures |Denotes(v, head, tail)| < |v| - 1
    ensures Denotes(v[tail := item], head, Wrap(tail + 1, |v|)) == Denotes(v, head, tail) + [item]
  {
    var n := SizeOf(head, tail, |v|);
    PushRing(v, head, n, item);
    assert SizeOf(head, Wrap(tail + 1, |v|), |v|) == n + 1;
  }

  lemma PushFull<T>(v: seq<T>, head: nat, tail: nat, item: T)
    requires head < |v| && tail < |v| && Wrap(tail + 1, |v|) == head
    ensures |Denotes(v, head, tail)| == |v| - 1
    ensures Denotes(v[tail := item], Wrap(head + 1, |v|), head) == (Denotes(v, head, tail) + [item])[1..]
  {
    var n := SizeOf(head, tail, |v|);
    PushRing(v, head, n, item);
    PopRing(v[tail := item], head, n + 1);
    assert SizeOf(Wrap(head + 1, |v|), head, |v|) == n;
  }

  /** A push stores at the tail; when the tail meets the head, the head moves on. */
  lemma PushDenotes<T>(v: seq<T>, head: nat, tail: nat, item: T)
    requires head < |v| && tail < |v|
    ensures var q, w, next := Denotes(v, head, tail), v[tail := item], Wrap(tail + 1, |v|);
            if next == head then
              |q| == |v| - 1 && Denotes(w, Wrap(head + 1, |v|), next) == (q + [item])[1..]
            else
              |q| < |v| - 1 && Denotes(w, head, next) == q + [item]
  {
    if Wrap(tail + 1, |v|) == head { PushFull(v, head, tail, item); } else { PushRoom(v, head, tail, item); }
  }

  lemma PopDenotes<T>(v: seq<T>, head: nat, tail: nat)
    requires head < |v| && tail < |v| && head != tail
    ensures Denotes(v, Wrap(head + 1, |v|), tail) == Denotes(v, head, tail)[1..]
  {
    PopRing(v, head, SizeOf(head, tail, |v|));
  }

  lemma Leaves<T>(gone: seq<T>, q: seq<T>)
    requires q != []
    ensures gone + [q[0]] + q[1..] == gone + q
  {
  }

  class CircularQ<T(0)> {
    var maxItems: nat
    var head: nat
    var tail: nat
    var overrunCounter: nat
    var v: array<T>
    /** Everything pushed on this enabled queue, what has left it, and the number of pops. */
    ghost var entered: seq<T>
    ghost var left: seq<T>
    ghost var pops: nat

    ghost predicate Ready()
      reads this
    {
      if maxItems == 0 then head == tail == 0 else v.Length == maxItems && head < maxItems && tail < maxItems
    }

    ghost function Contents(): (q: seq<T>)
      requires Ready()
      reads this, v
    {
      if maxItems == 0 then [] else Denotes(v[..], head, tail)
    }

    /** Items leave in the order they entered, each by a pop or by an overrun. */
    ghost predicate Valid()
      reads this, v
    {
      Ready() && entered == left + Contents() && |left| == pops + overrunCounter
    }

    /** The default constructor's disabled queue. */
    constructor Disabled()
      ensures Valid() && fresh(v) && maxItems == 0 && Contents() == entered == left == [] && pops == overrunCounter == 0
    {
      maxItems, head, tail, overrunCounter, v := 0, 0, 0, 0, new T[0];
      entered, left, pops := [], [], 0;
    }

    constructor (capacity: nat)
      ensures Valid() && fresh(v) && maxItems == capacity + 1
      ensures Contents() == entered == left == [] && pops == overrunCounter == 0
    {
      maxItems, head, tail, overrunCounter, v := capacity + 1, 0, 0, 0, new T[capacity + 1];
      entered, left, pops := [], [], 0;
    }

    /** The steps of a push on an enabled queue. */
    method Store(item: T) returns (overrun: bool)
      requires Ready() && maxItems > 0
      modifies this`head, this`tail, this`overrunCounter, v
      ensures Ready() && Contents() == if overrun then (old(Contents()) + [item])[1..] else old(Contents()) + [item]
      ensures overrun == (|old(Contents())| == maxItems - 1)
      ensures overrunCounter == old(overrunCounter) + if overrun then 1 else 0
    {
      ghost var w := v[..][tail := item];
      PushDenotes(v[..], head, tail, item);
      v[tail] := item;
      assert v[..] == w;
      tail := Next(tail, maxItems);
      overrun := tail == head;
      if overrun {
        head := Next(head, maxItems);
        overrunCounter := overrunCounter + 1;
      }
    }

    method PushBack(item: T)
      requires Valid()
      modifies this, v
      ensures Valid() && v == old(v) && maxItems == old(maxItems) && pops == old(pops)
      ensures maxItems == 0 ==> unchanged(this) && unchanged(v)
      ensures maxItems > 0 ==>
                Contents() == Pushed(old(Contents()), item, maxItems - 1) && entered == old(entered) + [item]
      ensures overrunCounter == old(overrunCounter) + if maxItems > 0 && |old(Contents())| == maxItems - 1 then 1 else 0
    {
      if maxItems > 0 {
        ghost var q := Contents() + [item];
        Leaves(left, q);
        var overrun := Store(item);
        entered := entered + [item];
        assert entered == left + q;
        if overrun { left := left + [q[0]]; }
      }
    }

    method Front() returns (item: T)
      requires Valid() && Contents() != []
      ensures item == Contents()[0]
    {
      item := v[head];
    }

    method Size() returns (n: nat)
      requires Valid()
      ensures n == |Contents()| == |entered| - pops - overrunCounter
    {
      if tail >= head { n := tail - head; } else { n := maxItems - (head - tail); }
    }

    method At(i: nat) returns (item: T)
      requires Valid() && i < |Contents()|
      ensures item == Contents()[i]
    {
      WrapIsMod(head + i, maxItems);
      item := v[(head + i) % maxItems];
    }

    method PopFront()
      requires Valid() && Contents() != []
      modifies this`head, this`left, this`pops
      ensures Valid() && Contents() == old(Contents())[1..] && pops == old(pops) + 1
      ensures left == old(left) + [old(Contents())[0]]
    {
      Leaves(left, Contents());
      left, pops := left + [Contents()[0]], pops + 1;
      Advance();
    }

    /** The step of a pop. */
    method Advance()
      requires Ready() && Contents() != []
      modifies this`head
      ensures Ready() && Contents() == old(Contents())[1..]
    {
      PopDenotes(v[..], head, tail);
      head := Next(head, maxItems);
    }

    method Empty() returns (b: bool)
      requires Valid()
      ensures b <==> Contents() == []
    {
      b := tail == head;
    }

    method Full() returns (b: bool)
      requires Valid()
      ensures b <==> maxItems > 0 && |Contents()| == maxItems - 1
    {
      if maxItems > 0 {
        var next := Next(tail, maxItems);
        b := next == head;
      } else {
        b := false;
      }
    }

    /** Takes over the other queue and leaves it disabled; a queue moved to itself is lost. */
    method CopyMoveable(other: CircularQ<T>)
      requires other.Valid()
      modifies this, other
      ensures Valid() && other.Valid() && v == old(other.v) && unchanged(v)
      ensures other.maxItems == other.overrunCounter == 0 && other.Contents() == []
      ensures other != this ==>
                maxItems == old(other.maxItems) && Contents() == old(other.Contents()) &&
                overrunCounter == old(other.overrunCounter) && entered == old(other.entered) && pops == old(other.pops)
    {
      maxItems, head, tail, overrunCounter, v := other.maxItems, other.head, other.tail, other.overrunCounter, other.v;
      entered, left, pops := other.entered, other.left, other.pops;
      other.maxItems, other.head, other.tail, other.overrunCounter := 0, 0, 0, 0;
      other.entered, other.left, other.pops := [], [], 0;
    }
  }

  /** Reads a queue out, item by item. */
  method ReadOut<T(0)>(q: CircularQ<T>) returns (contents: seq<T>)
    requires q.Valid()
    ensures contents == q.Contents()
  {
    contents := [];
    var n := q.Size();
    while |contents| < n
      invariant |contents| <= n && contents == q.Contents()[..|contents|]
    {
      var item := q.At(|contents|);
      contents := contents + [item];
    }
  }

  /** How far a queue has come with a run. */
  ghost predicate Reached<T(0)>(q: CircularQ<T>, ops: seq<Op<T>>, capacity: nat)
    reads q, q.v
  {
    q.Valid() && q.maxItems == capacity + 1 && q.Contents() == Queue(ops, capacity) &&
    q.entered == Items(ops) && q.pops == Pops(ops)
  }

  /** One operation; a pop also hands out the item, as a dequeue does. */
  method Perform<T(0)>(q: CircularQ<T>, op: Op<T>, ghost ops: seq<Op<T>>, ghost capacity: nat) returns (out: seq<T>)
    requires Reached(q, ops, capacity) && (op.Pop? ==> Queue(ops, capacity) != [])
    modifies q, q.v
    ensures q.v == old(q.v) && Reached(q, ops + [op], capacity) && out == if op.Pop? then [Queue(ops, capacity)[0]] else []
  {
    assert (ops + [op])[..|ops|] == ops;
    match op
    case Push(item) =>
      q.PushBack(item);
      out := [];
    case Pop =>
      var item := q.Front();
      q.PopFront();
      out := [item];
  }

  /** Runs the operations on a new queue. */
  method RunAll<T(0, !new)>(capacity: nat, ops: seq<Op<T>>) returns (q: CircularQ<T>, popped: seq<T>)
    requires Legal(ops, capacity)
    ensures fresh(q) && fresh(q.v) && Reached(q, ops, capacity)
    ensures popped == Popped(ops, capacity) && |popped| == Pops(ops)
  {
    q := new CircularQ<T>(capacity);
    popped := [];
    var k := 0;
    assert ops[..0] == [];
    while k < |ops|
      invariant 0 <= k <= |ops| && fresh(q) && fresh(q.v) && Reached(q, ops[..k], capacity)
      invariant popped == Popped(ops[..k], capacity) && |popped| == Pops(ops[..k])
    {
      PoppedNext(ops, k, capacity);
      assert ops[k].Pop? ==> Queue(ops[..k], capacity) != [];
      var out := Perform(q, ops[k], ops[..k], capacity);
      popped := popped + out;
      k := k + 1;
    }
    assert ops[..k] == ops;
  }

  lemma Balance<T(0)>(q: CircularQ<T>, ops: seq<Op<T>>, capacity: nat)
    requires Reached(q, ops, capacity)
    ensures |q.Contents()| <= capacity
    ensures |Items(ops)| == Pops(ops) + q.overrunCounter + |q.Contents()|
    ensures q.Contents() == Items(ops)[Pops(ops) + q.overrunCounter..]
  {
    assert Items(ops)[|q.left|..] == q.Contents();
  }

  /** Replays a run of pushes and pops on a queue of the given capacity. */
  method Replay<T(0, !new)>(capacity: nat, ops: seq<Op<T>>) returns (popped: seq<T>, contents: seq<T>, overruns: nat)
    requires Legal(ops, capacity)
    ensures contents == Queue(ops, capacity) && |contents| <= capacity
    ensures popped == Popped(ops, capacity) && |popped| == Pops(ops)
    ensures |Items(ops)| == Pops(ops) + overruns + |contents|
    ensures contents == Items(ops)[Pops(ops) + overruns..]
  {
    var q;
    q, popped := RunAll(capacity, ops);
    Balance(q, ops, capacity);
    overruns := q.overrunCounter;
    contents := ReadOut(q);
  }

  lemma PoppedNext<T>(ops: seq<Op<T>>, k: nat, capacity: nat)
    requires k < |ops|
    ensures ops[..k + 1] == ops[..k] + [ops[k]]
    ensures Popped(ops[..k + 1], capacity) ==
            Popped(ops[..k], capacity) +
            if ops[k].Pop? && Queue(ops[..k], capacity) != [] then [Queue(ops[..k], capacity)[0]] else []
    ensures Pops(ops[..k + 1]) == Pops(ops[..k]) + if ops[k].Pop? then 1 else 0
  {
    assert ops[..k + 1][..k] == ops[..k];
  }
}
