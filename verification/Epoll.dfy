/** Epoller and Channel: the user-space registry of channels against the kernel's
    interest set. The kernel refuses to add a descriptor twice and to change or
    delete one it does not hold; the code only logs such a refusal. */
module Epoll {
  type Mask = bv32

  const NONE_EVENT: Mask := 0
  /** EPOLLIN | EPOLLPRI. */
  const READ_EVENT: Mask := 3
  /** EPOLLOUT. */
  const WRITE_EVENT: Mask := 4
  const INIT_EVENT_LIST_SIZE: nat := 16

  datatype Status = New | Added | Dismissed

  datatype Ctl = Add | Mod | Del

  datatype Op = EnableReading | EnableWriting | DisableWriting | DisableAll | Remove

  /** What a channel shows of itself. */
  datatype State = State(status: Status, event: Mask)

  /** The events asked for after an operation. */
  function Wanted(op: Op, event: Mask): Mask {
    match op
    case EnableReading => event | READ_EVENT
    case EnableWriting => event | WRITE_EVENT
    case DisableWriting => event & !WRITE_EVENT
    case DisableAll => NONE_EVENT
    case Remove => event
  }

  /** Bit by bit: reading is EPOLLIN (1) and EPOLLPRI (2), writing is EPOLLOUT (4); each call
      sets or clears its own interest and leaves the other alone. */
  lemma EnableReadingBits(event: Mask)
    ensures Has(Wanted(EnableReading, event), 3) && SameBut(Wanted(EnableReading, event), event, 3)
  {
    SetBits(event, 3);
  }

  lemma EnableWritingBits(event: Mask)
    ensures Has(Wanted(EnableWriting, event), 4) && SameBut(Wanted(EnableWriting, event), event, 4)
  {
    SetBits(event, 4);
  }

  lemma DisableWritingBits(event: Mask)
    ensures Lacks(Wanted(DisableWriting, event), 4) && SameBut(Wanted(DisableWriting, event), event, 4)
  {
    ClearBits(event, 4);
  }

  lemma DisableAllBits(event: Mask)
    ensures Wanted(DisableAll, event) == 0 && Wanted(Remove, event) == event
  {}

  predicate Has(event: Mask, bits: Mask) { event & bits == bits }

  predicate Lacks(event: Mask, bits: Mask) { event & bits == 0 }

  predicate SameBut(a: Mask, b: Mask, bits: Mask) { a & !bits == b & !bits }

  lemma SetBits(event: Mask, bits: Mask)
    ensures Has(event | bits, bits) && SameBut(event | bits, event, bits)
  {}

  lemma ClearBits(event: Mask, bits: Mask)
    ensures Lacks(event & !bits, bits) && SameBut(event & !bits, event, bits)
  {}

  /** One operation on a channel: every update of an unregistered channel registers it,
      with an empty mask if need be; an update of a registered one to no events dismisses it. */
  function After(op: Op, s: State): State {
    var event := Wanted(op, s.event);
    if op == Remove then State(New, event)
    else if s.status == Added && event == NONE_EVENT then State(Dismissed, event)
    else State(Added, event)
  }

  /** remove() is for registered channels with no events. */
  predicate Permitted(op: Op, s: State) { op == Remove ==> s.status != New && s.event == NONE_EVENT }

  /** The state of channel c after a run, given its state before. */
  function Trace<K(==)>(ops: seq<(K, Op)>, c: K, start: State): State {
    if ops == [] then start
    else
      var s := Trace(ops[..|ops| - 1], c, start);
      if ops[|ops| - 1].0 == c then After(ops[|ops| - 1].1, s) else s
  }

  /** A channel not in the kernel set wants nothing. */
  predicate Quiet(s: State) { s.status != Added ==> s.event == NONE_EVENT }

  /** disableAll() is not idempotent: on a channel without events it alternates between
      deleting the descriptor and adding it back with an empty mask. */
  lemma {:induction false} DisableAllAlternates(ops: seq<(Channel, Op)>, c: Channel, start: State)
    requires forall k :: 0 <= k < |ops| ==> ops[k] == (c, DisableAll)
    ensures |ops| > 0 ==>
              Trace(ops, c, start) ==
              State(if (start.status == Added) == (|ops| % 2 == 0) then Added else Dismissed, NONE_EVENT)
  {
    if ops == [] {
    } else {
      DisableAllAlternates(ops[..|ops| - 1], c, start);
    }
  }

  class Channel {
    const fd: int
    const poller: Epoller
    var event: Mask
    var revent: Mask
    var status: Status

    constructor (p: Epoller, d: int)
      ensures poller == p && fd == d && event == NONE_EVENT && revent == 0 && status == New
    {
      poller, fd, event, revent, status := p, d, NONE_EVENT, 0, New;
    }

    ghost function Shows(): State
      reads this
    {
      State(status, event)
    }

    /** The five public operations: change event, then update() or remove(). */
    method Perform(op: Op)
      requires poller.Valid() && this in poller.channels && Permitted(op, Shows())
      modifies poller, this`event, this`status
      ensures poller.Valid() && poller.channels == old(poller.channels) && poller.refused == old(poller.refused)
      ensures Shows() == After(op, old(Shows()))
    {
      if op == Remove {
        poller.RemoveChannel(this);
      } else {
        event := Wanted(op, event);
        poller.UpdateChannel(this);
      }
    }
  }

  datatype Entry = Entry(events: Mask, channel: Channel)

  class Epoller {
    var channelMap: map<int, Channel>
    /** The kernel's interest set, and how many calls it has refused. */
    var kernel: map<int, Entry>
    var refused: nat
    var listSize: nat
    ghost var channels: set<Channel>

    /** The registry agrees with the channel's status, apart from the mask. */
    ghost predicate Registered(c: Channel)
      reads this, c
    {
      (c.fd in channelMap <==> c.status != New) &&
      (c.fd in channelMap ==> channelMap[c.fd] == c) &&
      (c.fd in kernel <==> c.status == Added) &&
      (c.fd in kernel ==> kernel[c.fd].channel == c)
    }

    ghost predicate Agrees(c: Channel)
      reads this, c
    {
      Registered(c) && (c.fd in kernel ==> kernel[c.fd].events == c.event) && Quiet(c.Shows())
    }

    ghost predicate Distinct()
      reads this
    {
      (forall c, d :: c in channels && d in channels && c.fd == d.fd ==> c == d) &&
      (forall c :: c in channels ==> c.poller == this) &&
      (forall fd :: fd in channelMap ==> channelMap[fd] in channels && channelMap[fd].fd == fd) &&
      (forall fd :: fd in kernel ==> kernel[fd].channel in channels && kernel[fd].channel.fd == fd) &&
      listSize >= INIT_EVENT_LIST_SIZE
    }

    ghost predicate Valid()
      reads this, channels
    {
      Distinct() && forall c :: c in channels ==> Agrees(c)
    }

    constructor ()
      ensures Valid() && channels == {} && channelMap == map[] && kernel == map[] && refused == 0
    {
      channelMap, kernel, refused, listSize, channels := map[], map[], 0, INIT_EVENT_LIST_SIZE, {};
    }

    /** epoll_ctl: a refused call changes nothing. */
    method Update(op: Ctl, channel: Channel)
      modifies this`kernel, this`refused
      ensures refused == old(refused) + if (op == Add) == (channel.fd in old(kernel)) then 1 else 0
      ensures kernel ==
        if (op == Add) == (channel.fd in old(kernel)) then old(kernel)
        else if op == Del then old(kernel) - {channel.fd}
        else old(kernel)[channel.fd := Entry(channel.event, channel)]
    {
      if op == Add {
        if channel.fd in kernel { refused := refused + 1; } else { kernel := kernel[channel.fd := Entry(channel.event, channel)]; }
      } else if channel.fd !in kernel {
        refused := refused + 1;
      } else if op == Mod {
        kernel := kernel[channel.fd := Entry(channel.event, channel)];
      } else {
        kernel := kernel - {channel.fd};
      }
    }

    /** All that holds while one channel's mask may differ from the kernel's. */
    ghost predicate Pending(channel: Channel)
      reads this, channels, channel
    {
      Distinct() && channel in channels && Registered(channel) && forall c :: c in channels && c != channel ==> Agrees(c)
    }

    /** The branch for a channel the kernel does not hold. */
    method Register(channel: Channel)
      requires Pending(channel) && channel.status != Added
      modifies this`channelMap, this`kernel, this`refused, channel`status
      ensures Valid() && refused == old(refused) && channel.status == Added
    {
      if channel.status == New {
        assert channel.fd !in channelMap;
        channelMap := channelMap[channel.fd := channel];
      } else {
        assert channel.fd in channelMap && channelMap[channel.fd] == channel;
      }
      channel.status := Added;
      Update(Add, channel);
    }

    /** The branch for a channel in the kernel set. */
    method Change(channel: Channel)
      requires Pending(channel) && channel.status == Added
      modifies this`kernel, this`refused, channel`status
      ensures Valid() && refused == old(refused)
      ensures channel.status == if channel.event == NONE_EVENT then Dismissed else Added
    {
      assert channel.fd in channelMap && channelMap[channel.fd] == channel;
      if channel.event == NONE_EVENT {
        Update(Del, channel);
        channel.status := Dismissed;
      } else {
        Update(Mod, channel);
      }
    }

    /** Called after the channel's mask changed. Every call to the kernel is legal. */
    method UpdateChannel(channel: Channel)
      requires Pending(channel)
      modifies this`channelMap, this`kernel, this`refused, channel`status
      ensures Valid() && refused == old(refused)
      ensures channel.status == if old(channel.status) == Added && channel.event == NONE_EVENT then Dismissed else Added
    {
      if channel.status == New || channel.status == Dismissed { Register(channel); } else { Change(channel); }
    }

    method RemoveChannel(channel: Channel)
      requires Valid() && channel in channels && channel.status != New && channel.event == NONE_EVENT
      modifies this, channel`status
      ensures Valid() && channels == old(channels) && refused == old(refused) && listSize == old(listSize)
      ensures channel.status == New && channelMap == old(channelMap) - {channel.fd}
    {
      assert channel.fd in channelMap && channelMap[channel.fd] == channel;
      channelMap := channelMap - {channel.fd};
      if channel.status == Added { Update(Del, channel); }
      channel.status := New;
    }

    /** An event the kernel may report: its data pointer is the one registered. */
    ghost predicate Reported(e: Entry)
      reads this, e.channel
    {
      e.channel.fd in kernel && kernel[e.channel.fd].channel == e.channel
    }

    /** Hands out the channels of the reported events, in order. */
    method FillActiveChannels(events: seq<Entry>, active: seq<Channel>) returns (filled: seq<Channel>)
      requires Valid() && forall e :: e in events ==> Reported(e)
      modifies channels`revent
      ensures Valid() && filled == active + Reporting(events)
      ensures forall c :: c in channels ==> c.revent == Revent(events, c, old(c.revent))
    {
      filled := active;
      for i := 0 to |events|
        invariant filled == active + Reporting(events[..i])
        invariant forall c :: c in channels ==> c.revent == Revent(events[..i], c, old(c.revent))
      {
        var channel := events[i].channel;
        assert events[i] in events && channel in channels;
        assert channel.fd in channelMap && channelMap[channel.fd] == channel;
        assert events[..i + 1][..i] == events[..i];
        channel.revent := events[i].events;
        filled := filled + [channel];
      }
      assert events[..|events|] == events;
    }

    /** wait(): the list of returned events doubles whenever the kernel fills it. */
    method Wait(events: seq<Entry>, active: seq<Channel>) returns (filled: seq<Channel>)
      requires Valid() && |events| <= listSize && forall e :: e in events ==> Reported(e)
      modifies this`listSize, channels`revent
      ensures Valid() && filled == active + Reporting(events) && |events| < listSize
      ensures listSize == old(listSize) * if |events| == old(listSize) then 2 else 1
      ensures forall c :: c in channels ==> c.revent == Revent(events, c, old(c.revent))
    {
      filled := active;
      if |events| > 0 {
        filled := FillActiveChannels(events, active);
        if |events| == listSize { listSize := listSize * 2; }
      }
    }

    /** A new channel on a descriptor no other channel has. */
    method Open(fd: int) returns (c: Channel)
      requires Valid() && forall d :: d in channels ==> d.fd != fd
      modifies this`channels
      ensures Valid() && fresh(c) && c.fd == fd && c.Shows() == State(New, NONE_EVENT) && channels == old(channels) + {c}
    {
      c := new Channel(this, fd);
      channels := channels + {c};
      assert forall d :: d in channels && d != c ==> Agrees(d);
    }

    /** A whole run of operations on the channels: the kernel refuses none of the calls,
        and each channel ends where its own operations lead. */
    method Run(ops: seq<(Channel, Op)>)
      requires Valid() && forall k :: 0 <= k < |ops| ==> ops[k].0 in channels
      requires forall k :: 0 <= k < |ops| ==>
                 Permitted(ops[k].1, Trace(ops[..k], ops[k].0, ops[k].0.Shows()))
      modifies this, channels`event, channels`status
      ensures Valid() && channels == old(channels) && refused == old(refused)
      ensures forall c :: c in channels ==> c.Shows() == Trace(ops, c, old(c.Shows()))
    {
      for i := 0 to |ops|
        invariant Valid() && channels == old(channels) && refused == old(refused)
        invariant forall c :: c in channels ==> c.Shows() == Trace(ops[..i], c, old(c.Shows()))
      {
        assert ops[..i + 1][..i] == ops[..i];
        var c := ops[i].0;
        c.Perform(ops[i].1);
        assert forall d :: d in channels && d != c ==> d.Shows() == Trace(ops[..i], d, old(d.Shows()));
      }
      assert ops[..|ops|] == ops;
    }
  }

  const UNUSED := State(New, NONE_EVENT)

  /** New channels on distinct descriptors. */
  method OpenAll(poller: Epoller, fds: seq<int>) returns (channels: seq<Channel>)
    requires poller.Valid() && poller.channels == {}
    requires forall i, j :: 0 <= i < j < |fds| ==> fds[i] != fds[j]
    modifies poller
    ensures poller.Valid() && poller.refused == old(poller.refused) && |channels| == |fds|
    ensures forall i :: 0 <= i < |fds| ==>
              fresh(channels[i]) && channels[i] in poller.channels && channels[i].fd == fds[i] && channels[i].Shows() == UNUSED
  {
    channels := [];
    for n := 0 to |fds|
      invariant poller.Valid() && poller.refused == old(poller.refused) && |channels| == n
      invariant forall c :: c in poller.channels ==> c in channels
      invariant forall i :: 0 <= i < n ==>
                  fresh(channels[i]) && channels[i] in poller.channels && channels[i].fd == fds[i] && channels[i].Shows() == UNUSED
    {
      var c := poller.Open(fds[n]);
      channels := channels + [c];
    }
  }

  /** From an empty poller: channels on distinct descriptors, then any permitted calls by
      index. The kernel refuses nothing, and each channel is where its own calls lead. */
  method Serve(fds: seq<int>, ops: seq<(nat, Op)>) returns (poller: Epoller, channels: seq<Channel>)
    requires forall i, j :: 0 <= i < j < |fds| ==> fds[i] != fds[j]
    requires forall k :: 0 <= k < |ops| ==> ops[k].0 < |fds| && Permitted(ops[k].1, Trace<nat>(ops[..k], ops[k].0, UNUSED))
    ensures poller.Valid() && poller.refused == 0 && |channels| == |fds|
    ensures forall i :: 0 <= i < |fds| ==>
              channels[i] in poller.channels && channels[i].fd == fds[i] && channels[i].Shows() == Trace<nat>(ops, i, UNUSED)
  {
    poller := new Epoller();
    channels := OpenAll(poller, fds);
    for k := 0 to |ops|
      invariant fresh(poller) && poller.Valid() && poller.refused == 0
      invariant forall i :: 0 <= i < |fds| ==>
                  fresh(channels[i]) && channels[i] in poller.channels && channels[i].fd == fds[i] &&
                  channels[i].Shows() == Trace<nat>(ops[..k], i, UNUSED)
    {
      assert ops[..k + 1][..k] == ops[..k];
      var (i, op) := ops[k];
      assert channels[i].Shows() == Trace<nat>(ops[..k], i, UNUSED);
      assert Permitted(op, Trace<nat>(ops[..k], i, UNUSED));
      channels[i].Perform(op);
    }
    assert ops[..|ops|] == ops;
  }

  /** The channels of the events, in order. */
  function Reporting(events: seq<Entry>): seq<Channel> {
    if events == [] then [] else Reporting(events[..|events| - 1]) + [events[|events| - 1].channel]
  }

  /** The mask a channel ends with: that of its last event, or what it was. */
  function Revent(events: seq<Entry>, c: Channel, before: Mask): Mask {
    if events == [] then before
    else if events[|events| - 1].channel == c then events[|events| - 1].events
    else Revent(events[..|events| - 1], c, before)
  }
}
