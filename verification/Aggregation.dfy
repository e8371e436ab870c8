/** The aggregation queue in front of a link: small messages are joined into batches, and the far side splits them. */
module Aggregation {
  import opened Bytes
  import opened Sequences
  import Mavlink

  /** A delayed call: none, waiting to fire, or fired and not yet forgotten. */
  datatype Timer = Off | Armed | Spent

  /** Aggregation needs both a batch size and a timeout. */
  datatype Settings = Direct | Aggregate(max: nat)

  datatype Queue = Queue(items: seq<seq<byte>>, size: nat, timer: Timer)

  const EMPTY := Queue([], 0, Off)

  /** What an event does: the queue after it, the groups of messages sent as one datagram each, and whether it raised an error. */
  datatype Effect = Effect(queue: Queue, groups: seq<seq<seq<byte>>>, error: bool)

  datatype Event = Message(data: seq<byte>) | Fire

  function Received(cfg: Settings, q: Queue, data: seq<byte>): Effect {
    match cfg
    case Direct => Effect(q, [[data]], false)
    case Aggregate(max) =>
      if |data| > max then Effect(q, [], false)
      else if q.size + |data| > max then
        // cancelling a timer that has fired raises an error
        if q.timer.Spent? then Effect(q, [], true)
        else Effect(Queue([data], |data|, Armed), [q.items], false)
      else
        Effect(Queue(q.items + [data], q.size + |data|, if q.timer.Off? then Armed else q.timer), [], false)
  }

  /** The timer fires, if it is armed. */
  function Fired(q: Queue): Effect {
    if !q.timer.Armed? then Effect(q, [], false)
    else if q.size > 0 then Effect(EMPTY, [q.items], false)
    else Effect(q.(timer := Spent), [], false)
  }

  function Step(cfg: Settings, q: Queue, e: Event): Effect {
    match e
    case Message(data) => Received(cfg, q, data)
    case Fire => Fired(q)
  }

  class ProxyProtocol {
    const settings: Settings
    var items: seq<seq<byte>>
    var size: nat
    var timer: Timer

    function Abs(): Queue
      reads this
    {
      Queue(items, size, timer)
    }

    constructor (settings: Settings)
      ensures this.settings == settings && Abs() == EMPTY
    {
      this.settings := settings;
      items, size, timer := [], 0, Off;
    }

    /** The callback of the timer; by then it counts as fired. */
    method FlushQueue() returns (sent: seq<seq<byte>>)
      requires timer.Armed?
      modifies this
      ensures var f := Fired(old(Abs())); Abs() == f.queue && sent == Datagrams(f.groups)
    {
      timer := Spent;
      sent := [];
      if size > 0 {
        timer := Off;
        sent := [Join(items)];
        items := [];
        size := 0;
      }
    }

    method MessageReceived(data: seq<byte>) returns (sent: seq<seq<byte>>, error: bool)
      modifies this
      ensures var r := Received(settings, old(Abs()), data);
              Abs() == r.queue && sent == Datagrams(r.groups) && error == r.error
    {
      sent, error := [], false;
      if settings.Direct? {
        assert Join([data]) == data;
        return [data], false;
      }
      if |data| > settings.max {
        return;
      }
      if size + |data| > settings.max {
        if timer.Spent? {
          return [], true;
        }
        timer := Off;
        sent := [Join(items)];
        items := [];
        size := 0;
      }
      items := items + [data];
      size := size + |data|;
      if timer.Off? {
        timer := Armed;
      }
    }
  }

  /** One datagram for each group. */
  function Datagrams(groups: seq<seq<seq<byte>>>): (r: seq<seq<byte>>)
    ensures |r| == |groups|
  {
    seq(|groups|, i requires 0 <= i < |groups| => Join(groups[i]))
  }

  // ----- whole runs

  /** The state after the events, with all groups sent so far. */
  function Run(cfg: Settings, events: seq<Event>): Effect {
    if |events| == 0 then Effect(EMPTY, [], false)
    else
      var p := Run(cfg, events[..|events| - 1]);
      var s := Step(cfg, p.queue, events[|events| - 1]);
      Effect(s.queue, p.groups + s.groups, p.error || s.error)
  }

  /** A message larger than a batch is dropped. */
  function Accepts(cfg: Settings, e: Event): seq<seq<byte>> {
    if e.Message? && (cfg.Direct? || |e.data| <= cfg.max) then [e.data] else []
  }

  /** The messages the queue takes. */
  function Taken(cfg: Settings, events: seq<Event>): seq<seq<byte>> {
    if |events| == 0 then [] else Taken(cfg, events[..|events| - 1]) + Accepts(cfg, events[|events| - 1])
  }

  ghost predicate Fits(cfg: Settings, group: seq<seq<byte>>) {
    cfg.Aggregate? ==> group != [] && |Join(group)| <= cfg.max
  }

  /** The queue's size is right and within the limit, and the timer is set exactly when messages wait. */
  ghost predicate Timely(cfg: Settings, q: Queue) {
    && q.size == |Join(q.items)| && !q.timer.Spent? && (q.timer.Armed? <==> q.items != [])
    && (cfg.Direct? ==> q.items == []) && (cfg.Aggregate? ==> q.size <= cfg.max)
  }

  /** The timer fires over messages that are all empty. */
  predicate Stalling(q: Queue, e: Event) {
    e == Fire && q.timer.Armed? && q.size == 0
  }

  /** Every event, empty messages included: no error, batches fit, nothing is lost or reordered; and the
      queue stays in time if and only if the timer does not fire over empty messages only. */
  lemma StepTimely(cfg: Settings, q: Queue, e: Event)
    requires Timely(cfg, q)
    ensures var s := Step(cfg, q, e);
            && (Timely(cfg, s.queue) <==> !Stalling(q, e)) && (s.queue.timer.Spent? <==> Stalling(q, e))
            && !s.error && |s.groups| <= 1 && (forall i :: 0 <= i < |s.groups| ==> Fits(cfg, s.groups[i]))
            && Join(s.groups) + s.queue.items == q.items + Accepts(cfg, e)
  {
    if e.Message? {
      JoinSnoc(q.items, e.data);
      assert Join([e.data]) == e.data;
      assert Join([[e.data]]) == [e.data];
    }
    assert Join([q.items]) == q.items;
  }

  /** Some event of the run stalls. */
  ghost predicate Stalls(cfg: Settings, events: seq<Event>) {
    exists i :: 0 <= i < |events| && Stalling(Run(cfg, events[..i]).queue, events[i])
  }

  lemma StallsSnoc(cfg: Settings, events: seq<Event>)
    requires |events| > 0
    ensures var m := |events| - 1;
            Stalls(cfg, events) <==> Stalls(cfg, events[..m]) || Stalling(Run(cfg, events[..m]).queue, events[m])
  {
    hide Run, Stalling;
    var m := |events| - 1;
    forall i | 0 <= i < m ensures events[..m][..i] == events[..i] && events[..m][i] == events[i] {}
    if Stalls(cfg, events[..m]) {
      var i :| 0 <= i < m && Stalling(Run(cfg, events[..m][..i]).queue, events[..m][i]);
      assert Stalling(Run(cfg, events[..i]).queue, events[i]);
    }
    if Stalls(cfg, events) {
      var i :| 0 <= i < |events| && Stalling(Run(cfg, events[..i]).queue, events[i]);
      if i < m {
        assert Stalling(Run(cfg, events[..m][..i]).queue, events[..m][i]);
      }
    }
  }

  /** A timer that has fired and was not forgotten stays so, and nothing is sent. */
  lemma SpentForever(cfg: Settings, q: Queue, e: Event)
    requires cfg.Aggregate? && q.timer.Spent?
    ensures var s := Step(cfg, q, e); s.queue.timer.Spent? && s.groups == [] && q.items <= s.queue.items
  {}

  /** Over every run: a fired timer is left behind if and only if some event stalls. Otherwise there is no
      error, every batch fits, the timer is set exactly when messages wait, and batches and queue
      together are the messages taken, in order. */
  lemma {:induction false} RunTimely(cfg: Settings, events: seq<Event>)
    ensures var r := Run(cfg, events);
            && (r.queue.timer.Spent? <==> Stalls(cfg, events)) && (Stalls(cfg, events) ==> cfg.Aggregate?)
            && (!Stalls(cfg, events) ==>
                  && Timely(cfg, r.queue) && !r.error
                  && (forall i :: 0 <= i < |r.groups| ==> Fits(cfg, r.groups[i]))
                  && Join(r.groups) + r.queue.items == Taken(cfg, events))
  {
    hide Step, Fits, Join, Stalls;
    if |events| == 0 {
      NothingYet(cfg);
    } else {
      var m := |events| - 1;
      var p := Run(cfg, events[..m]);
      var s := Step(cfg, p.queue, events[m]);
      RunTimely(cfg, events[..m]);
      StallsSnoc(cfg, events);
      if Stalls(cfg, events[..m]) {
        SpentForever(cfg, p.queue, events[m]);
      } else {
        StepTimely(cfg, p.queue, events[m]);
        JoinConcat(p.groups, s.groups);
        Shift(Join(p.groups), p.queue.items, Join(s.groups), s.queue.items, Accepts(cfg, events[m]));
      }
    }
  }

  lemma NothingYet(cfg: Settings)
    ensures Timely(cfg, EMPTY) && Join<seq<byte>>([]) + EMPTY.items == [] && !Stalls(cfg, [])
  {}

  /** What leaves the queue was in it or has just come. */
  lemma Shift(sent: seq<seq<byte>>, items: seq<seq<byte>>, more: seq<seq<byte>>, items': seq<seq<byte>>, arrived: seq<seq<byte>>)
    requires more + items' == items + arrived
    ensures sent + more + items' == sent + items + arrived
  {
    Associates(sent, more, items');
    Associates(sent, items, arrived);
  }

  /** After a stall no batch ever leaves, and what is queued stays queued. */
  lemma {:induction false} StalledForever(cfg: Settings, events: seq<Event>, more: seq<Event>)
    requires Stalls(cfg, events)
    ensures var r, s := Run(cfg, events), Run(cfg, events + more);
            s.queue.timer.Spent? && s.groups == r.groups && r.queue.items <= s.queue.items
    decreases |more|
  {
    hide Step, Stalls;
    if |more| == 0 {
      RunTimely(cfg, events);
      assert events + more == events;
    } else {
      var m := |more| - 1;
      StalledForever(cfg, events, more[..m]);
      RunTimely(cfg, events);
      assert (events + more)[..|events| + m] == events + more[..m];
      SpentForever(cfg, Run(cfg, events + more[..m]).queue, more[m]);
    }
  }

  predicate NoEmptyMessages(events: seq<Event>) {
    forall i :: 0 <= i < |events| && events[i].Message? ==> events[i].data != []
  }

  /** Without empty messages a queue that holds something has size. */
  lemma {:induction false} NonEmptySized(cfg: Settings, events: seq<Event>)
    requires NoEmptyMessages(events)
    ensures var q := Run(cfg, events).queue; q.timer.Armed? ==> q.size > 0
  {
    if |events| > 0 {
      NonEmptySized(cfg, events[..|events| - 1]);
    }
  }

  /** For non-empty messages no firing of the timer stalls: no error, every batch fits, the timer is set
      exactly when messages wait, and batches and queue together are the messages taken, in order. */
  lemma RunGood(cfg: Settings, events: seq<Event>)
    requires NoEmptyMessages(events)
    ensures var r := Run(cfg, events);
            && Timely(cfg, r.queue) && !r.error && (r.queue.items != [] <==> r.queue.size > 0)
            && (forall i :: 0 <= i < |r.groups| ==> Fits(cfg, r.groups[i]))
            && Join(r.groups) + r.queue.items == Taken(cfg, events)
  {
    hide Run, Fits, Taken;
    forall i | 0 <= i < |events| ensures !Stalling(Run(cfg, events[..i]).queue, events[i]) {
      NonEmptySized(cfg, events[..i]);
    }
    RunTimely(cfg, events);
    NonEmptySized(cfg, events);
  }

  /** An empty message alone does no harm: with a message behind it the timer sends both. */
  lemma EmptyMessageHarmless(max: nat, x: seq<byte>)
    requires x != [] && |x| <= max
    ensures var q := Step(Aggregate(max), Step(Aggregate(max), EMPTY, Message([])).queue, Message(x)).queue;
            Step(Aggregate(max), q, Fire) == Effect(EMPTY, [[[], x]], false)
  {
    assert [] + [[]] + [x] == [[], x];
  }

  /** After an empty message to an empty queue and its timer, no timer is set any more: a message waits
      however long, and the next one that does not fit raises an error. */
  lemma EmptyMessageStalls(max: nat, x: seq<byte>, y: seq<byte>)
    requires x != [] && |x| <= max && |y| <= max < |x| + |y|
    ensures var q := Step(Aggregate(max), Step(Aggregate(max), EMPTY, Message([])).queue, Fire).queue;
            var w := Step(Aggregate(max), q, Message(x)).queue;
            && w.size == |x| && Step(Aggregate(max), w, Fire) == Effect(w, [], false)
            && Step(Aggregate(max), w, Message(y)).error
  {}

  // ----- messages are joined while they fit

  /** A message sends a batch if and only if it could be queued at all but not behind what waits: then what waits goes
      as one batch and the message waits alone. */
  lemma SendsExactly(max: nat, q: Queue, d: seq<byte>)
    requires Timely(Aggregate(max), q)
    ensures var s := Step(Aggregate(max), q, Message(d));
            && (s.groups != [] <==> |d| <= max < |Join(q.items)| + |d|)
            && (s.groups != [] ==> s.groups == [q.items] && s.queue.items == [d])
            && (s.groups == [] ==> s.queue.items == q.items + Accepts(Aggregate(max), Message(d)))
  {}

  /** A timer that does not stall sends all that waits, as one batch. */
  lemma FireSends(cfg: Settings, q: Queue)
    requires Timely(cfg, q) && !Stalling(q, Fire)
    ensures var s := Step(cfg, q, Fire);
            s.queue.items == [] && s.groups == if q.items == [] then [] else [q.items]
  {
    assert q.items == [] ==> |Join(q.items)| == 0;
  }

  /** The group with the first message of the next is more than a batch. */
  ghost predicate FullBefore(max: nat, group: seq<seq<byte>>, next: seq<seq<byte>>) {
    next != [] && |Join(group)| + |next[0]| > max
  }

  ghost predicate Tight(max: nat, chain: seq<seq<seq<byte>>>) {
    forall i, j :: 0 <= i && j == i + 1 < |chain| ==> FullBefore(max, chain[i], chain[j])
  }

  lemma TightMore(max: nat, groups: seq<seq<seq<byte>>>, items: seq<seq<byte>>, d: seq<byte>)
    requires Tight(max, groups + [items])
    ensures Tight(max, groups + [items + [d]])
    ensures |Join(items)| + |d| > max ==> Tight(max, groups + [items] + [[d]])
  {
    hide Join;
    var c, c' := groups + [items], groups + [items + [d]];
    forall i, j | 0 <= i && j == i + 1 < |c'| ensures FullBefore(max, c'[i], c'[j]) {
      assert FullBefore(max, c[i], c[j]);
    }
    if |Join(items)| + |d| > max {
      var e := c + [[d]];
      forall i, j | 0 <= i && j == i + 1 < |e| ensures FullBefore(max, e[i], e[j]) {
        if j < |c| {
          assert FullBefore(max, c[i], c[j]);
        }
      }
    }
  }

  predicate OnlyMessages(events: seq<Event>) {
    forall i :: 0 <= i < |events| ==> events[i].Message?
  }

  /** Whatever came before, as long as the timer does not fire each batch that leaves, with the first message of the
      next, is more than a batch can hold. */
  lemma {:induction false} BatchesFull(max: nat, before: seq<Event>, more: seq<Event>)
    requires !Stalls(Aggregate(max), before) && OnlyMessages(more)
    ensures var r, s := Run(Aggregate(max), before), Run(Aggregate(max), before + more);
            && r.groups <= s.groups && !Stalls(Aggregate(max), before + more)
            && Tight(max, s.groups[|r.groups|..] + [s.queue.items])
    decreases |more|
  {
    hide Step, Stalls, Join, Timely, Tight;
    var cfg := Aggregate(max);
    var r := Run(cfg, before);
    if |more| == 0 {
      assert before + more == before;
      TightOne(max, r.queue.items);
      assert r.groups[|r.groups|..] + [r.queue.items] == [r.queue.items];
    } else {
      var m := |more| - 1;
      var all := before + more;
      BatchesFull(max, before, more[..m]);
      assert all[..|all| - 1] == before + more[..m] && all[|all| - 1] == more[m];
      var p := Run(cfg, before + more[..m]);
      RunTimely(cfg, before + more[..m]);
      StallsSnoc(cfg, all);
      TightStep(max, p, |r.groups|, more[m].data);
    }
  }

  lemma TightStep(max: nat, p: Effect, n: nat, d: seq<byte>)
    requires Timely(Aggregate(max), p.queue) && n <= |p.groups| && Tight(max, p.groups[n..] + [p.queue.items])
    ensures var s := Step(Aggregate(max), p.queue, Message(d)); Tight(max, (p.groups + s.groups)[n..] + [s.queue.items])
  {
    hide Step, Join, Timely, Tight;
    SendsExactly(max, p.queue, d);
    TightMore(max, p.groups[n..], p.queue.items, d);
    assert (p.groups + [p.queue.items])[n..] == p.groups[n..] + [p.queue.items];
    assert p.groups + [] == p.groups && p.queue.items + [] == p.queue.items;
  }

  lemma TightOne(max: nat, items: seq<seq<byte>>)
    ensures Tight(max, [items])
  {}

  // ----- splitting at the far side

  /** All messages the far side gets from the datagrams. */
  function SplitFrames(ds: seq<seq<byte>>): seq<seq<byte>> {
    if |ds| == 0 then [] else Mavlink.Messages(Mavlink.Scan(ds[0]).pieces) + SplitFrames(ds[1..])
  }

  ghost predicate AllFrames(ms: seq<seq<byte>>) {
    forall i :: 0 <= i < |ms| ==> Mavlink.Frame(ms[i])
  }

  lemma {:induction false} GroupsSplit(groups: seq<seq<seq<byte>>>)
    requires AllFrames(Join(groups))
    ensures SplitFrames(Datagrams(groups)) == Join(groups)
  {
    hide Mavlink.Scan, Mavlink.Messages, Mavlink.Frame;
    if |groups| > 0 {
      var g, rest := groups[0], groups[1..];
      assert forall i :: 0 <= i < |g| ==> g[i] == Join(groups)[i];
      assert forall i :: 0 <= i < |Join(rest)| ==> Join(rest)[i] == Join(groups)[|g| + i];
      Mavlink.FramesSplit(g);
      GroupsSplit(rest);
      assert Datagrams(groups)[1..] == Datagrams(rest);
    }
  }

  /** Aggregating MAVLink frames and splitting the batches gives back the frames, in order. */
  lemma MavlinkIdentity(cfg: Settings, events: seq<Event>)
    requires NoEmptyMessages(events) && AllFrames(Taken(cfg, events))
    ensures var r := Run(cfg, events);
            SplitFrames(Datagrams(r.groups)) + r.queue.items == Taken(cfg, events)
  {
    hide Run, Taken, Timely, Fits, Mavlink.Frame;
    var r := Run(cfg, events);
    RunGood(cfg, events);
    assert forall i :: 0 <= i < |Join(r.groups)| ==> Join(r.groups)[i] == Taken(cfg, events)[i];
    GroupsSplit(r.groups);
  }

  /** A batch from the far side of a MAVLink link is split before it is passed on. */
  method SplitBatch(msg: seq<byte>) returns (frames: seq<seq<byte>>)
    ensures frames == Mavlink.Messages(Mavlink.Scan(msg).pieces)
  {
    hide Mavlink.Scan, Mavlink.Messages;
    var parser := new Mavlink.Parser();
    Mavlink.ScanNothing();
    assert parser.Pending() + msg == msg;
    frames := parser.Send(msg);
  }

  // ----- the tunnel

  datatype TunEvent = Packet(data: seq<byte>) | Timeout

  /** What the tunnel hands to the queue: each packet with its length in front. */
  function Framed(events: seq<TunEvent>): (r: seq<Event>)
    requires AllSized(events)
    ensures |r| == |events|
  {
    seq(|events|, i requires 0 <= i < |events| => if events[i].Packet? then Message(Pack(events[i].data)) else Fire)
  }

  predicate AllSized(events: seq<TunEvent>) {
    forall i :: 0 <= i < |events| && events[i].Packet? ==> Packable(events[i].data)
  }

  /** The packets that fit into a batch. */
  function TakenPackets(cfg: Settings, events: seq<TunEvent>): (ps: seq<seq<byte>>)
    ensures AllSized(events) ==> AllPackable(ps)
  {
    if |events| == 0 then []
    else
      var e := events[|events| - 1];
      TakenPackets(cfg, events[..|events| - 1]) +
      (if e.Packet? && (cfg.Direct? || PREFIX + |e.data| <= cfg.max) then [e.data] else [])
  }

  function Packed(ps: seq<seq<byte>>): (r: seq<seq<byte>>)
    requires AllPackable(ps)
    ensures |r| == |ps|
  {
    seq(|ps|, i requires 0 <= i < |ps| => Pack(ps[i]))
  }

  lemma {:induction false} JoinPacked(ps: seq<seq<byte>>)
    requires AllPackable(ps)
    ensures Join(Packed(ps)) == PackAll(ps)
  {
    if |ps| > 0 {
      JoinPacked(ps[1..]);
      assert Packed(ps)[1..] == Packed(ps[1..]);
    }
  }

  lemma {:induction false} TakenFramed(cfg: Settings, events: seq<TunEvent>)
    requires AllSized(events)
    ensures Taken(cfg, Framed(events)) == Packed(TakenPackets(cfg, events))
  {
    if |events| > 0 {
      var m := |events| - 1;
      TakenFramed(cfg, events[..m]);
      assert Framed(events)[..m] == Framed(events[..m]);
    }
  }

  lemma PackedParts(ps: seq<seq<byte>>, a: seq<seq<byte>>, b: seq<seq<byte>>)
    requires AllPackable(ps) && Packed(ps) == a + b
    ensures |a| <= |ps| && a == Packed(ps[..|a|]) && b == Packed(ps[|a|..])
  {
    assert |ps| == |a| + |b|;
    assert forall i :: 0 <= i < |a| ==> a[i] == (a + b)[i];
    assert forall i :: 0 <= i < |b| ==> b[i] == (a + b)[|a| + i];
  }

  lemma {:induction false} GroupsUnpack(groups: seq<seq<seq<byte>>>, items: seq<seq<byte>>, ps: seq<seq<byte>>)
    requires AllPackable(ps) && Join(groups) + items == Packed(ps)
    ensures UnpackAll(Datagrams(groups)) + Unpack(Join(items)) == ps
  {
    hide Unpack, Pack;
    if |groups| == 0 {
      assert items == Packed(ps);
      JoinPacked(ps);
      UnpackPacked(ps);
    } else {
      var g, rest := groups[0], groups[1..];
      var n := |g|;
      Associates(g, Join(rest), items);
      PackedParts(ps, g, Join(rest) + items);
      JoinPacked(ps[..n]);
      UnpackPacked(ps[..n]);
      GroupsUnpack(rest, items, ps[n..]);
      assert Datagrams(groups)[1..] == Datagrams(rest);
      Associates(ps[..n], UnpackAll(Datagrams(rest)), Unpack(Join(items)));
      assert ps[..n] + ps[n..] == ps;
    }
  }

  /** Packets through the aggregating tunnel come out unchanged and in order; the rest is still queued. */
  lemma TunnelIdentity(cfg: Settings, events: seq<TunEvent>)
    requires AllSized(events)
    ensures var r := Run(cfg, Framed(events));
            UnpackAll(Datagrams(r.groups)) + Unpack(Join(r.queue.items)) == TakenPackets(cfg, events)
  {
    hide Run, Taken, TakenPackets, Timely, Fits;
    RunGood(cfg, Framed(events));
    TakenFramed(cfg, events);
    var r := Run(cfg, Framed(events));
    GroupsUnpack(r.groups, r.queue.items, TakenPackets(cfg, events));
  }

  class TunTapProtocol {
    var connected: bool
    /** Packets written to the device. */
    var written: seq<seq<byte>>
    const proxy: ProxyProtocol

    /** Without a timeout nothing is aggregated. */
    constructor (mtu: nat, timeout: bool)
      ensures connected && written == [] && proxy.Abs() == EMPTY && fresh(proxy)
      ensures proxy.settings == if timeout then Aggregate(mtu) else Direct
    {
      connected, written := true, [];
      proxy := new ProxyProtocol(if timeout then Aggregate(mtu) else Direct);
    }

    /** A batch from the peer: unpack its packets. */
    method Write(msg: seq<byte>)
      modifies this`written
      ensures written == old(written) + (if connected then Unpack(msg) else [])
    {
      if !connected || msg == [] {
        assert Unpack([]) == [];
        return;
      }
      var i := 0;
      assert msg[0..] == msg;
      while i < |msg|
        invariant 0 <= i <= |msg|
        invariant written + Unpack(msg[i..]) == old(written) + Unpack(msg)
      {
        if |msg| - i < PREFIX {
          break;
        }
        ghost var s := msg[i..];
        var n := LengthAt(msg, i);
        assert n == LengthAt(s, 0);
        i := i + PREFIX;
        if |msg| - i < n {
          break;
        }
        assert s[PREFIX..PREFIX + n] == msg[i..i + n] && s[PREFIX + n..] == msg[i + n..];
        Associates(written, [msg[i..i + n]], Unpack(msg[i + n..]));
        written := written + [msg[i..i + n]];
        i := i + n;
      }
    }

    /** A packet from the device; its length must fit the prefix. */
    method DataReceived(data: seq<byte>) returns (sent: seq<seq<byte>>, error: bool)
      modifies proxy
      ensures !Packable(data) ==> error && sent == [] && proxy.Abs() == old(proxy.Abs())
      ensures Packable(data) ==>
                var r := Received(proxy.settings, old(proxy.Abs()), Pack(data));
                proxy.Abs() == r.queue && sent == Datagrams(r.groups) && error == r.error
    {
      if |data| >= 0x1_0000 {
        return [], true;
      }
      sent, error := proxy.MessageReceived(Pack(data));
    }
  }
}
