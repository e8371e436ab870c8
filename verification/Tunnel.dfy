/** The tunnel daemon: packets from a TUN device are batched into datagrams, and written out again at the other end. */
module Tunnel {
  import opened Bytes
  import opened Sequences

  const MTU := 1445

  /** A packet the device can hand over in one read. */
  predicate TunPacket(p: seq<byte>) {
    1 <= |p| <= MTU - PREFIX
  }

  predicate AllTunPackets(ps: seq<seq<byte>>) {
    forall i :: 0 <= i < |ps| ==> TunPacket(ps[i])
  }

  /** The bytes a sequence of packets takes in the buffer. */
  function Size(ps: seq<seq<byte>>): nat {
    if |ps| == 0 then 0 else Size(ps[..|ps| - 1]) + PREFIX + |ps[|ps| - 1]|
  }

  lemma {:induction false} SizeIs(ps: seq<seq<byte>>)
    requires AllPackable(ps)
    ensures |PackAll(ps)| == Size(ps)
  {
    if |ps| > 0 {
      var m := |ps| - 1;
      SizeIs(ps[..m]);
      PackAllSnoc(ps[..m], ps[m]);
      assert ps[..m] + [ps[m]] == ps;
    }
  }

  lemma SizeSnoc(ps: seq<seq<byte>>, p: seq<byte>)
    ensures Size(ps + [p]) == Size(ps) + PREFIX + |p|
  {
    assert (ps + [p])[..|ps|] == ps;
  }

  // ----- the sending side as a machine over its callbacks

  /** The packets in the buffer, how many of them are in the batch, and which callbacks are pending. */
  datatype Tun = Tun(queued: seq<seq<byte>>, batch: nat, read: bool, write: bool, timer: bool) {
    function Batch(): seq<seq<byte>> {
      if batch <= |queued| then queued[..batch] else queued
    }

    function Rest(): seq<seq<byte>> {
      if batch <= |queued| then queued[batch..] else []
    }
  }

  const IDLE := Tun([], 0, true, false, false)

  function AfterRead(timeout: nat, s: Tun, p: seq<byte>): Tun {
    var q := s.queued + [p];
    var full := Size(q) >= MTU || timeout == 0;
    Tun(q, if Size(q) <= MTU then |q| else s.batch, !full, s.write || full, s.timer || (!full && s.queued == []))
  }

  function AfterSend(timeout: nat, s: Tun, byTimer: bool): Tun {
    var q := s.Rest();
    var again := Size(q) == MTU || (Size(q) > 0 && timeout == 0);
    Tun(q, |q|,
        (s.read && !byTimer) || !again,
        (s.write && byTimer) || again,
        (s.timer && !byTimer && timeout == 0) || (!again && Size(q) > 0))
  }

  /** The batch is the most that fits a datagram, the device is read only while there is room, and a
      packet never waits without a callback that sends it. */
  ghost predicate Good(timeout: nat, s: Tun) {
    && AllTunPackets(s.queued) && s.batch <= |s.queued| && Size(s.Batch()) <= MTU
    && (if Size(s.queued) <= MTU then s.batch == |s.queued| else s.batch == |s.queued| - 1)
    && (s.read ==> Size(s.queued) < MTU)
    && (s.queued == [] ==> s.read)
    && (s.queued != [] ==> s.write || s.timer)
    && (s.timer ==> timeout > 0)
  }

  lemma ReadKeeps(timeout: nat, s: Tun, p: seq<byte>)
    requires Good(timeout, s) && s.read && TunPacket(p)
    ensures Good(timeout, AfterRead(timeout, s, p))
  {
    SizeSnoc(s.queued, p);
    var q := s.queued + [p];
    assert q[..|q|] == q && s.queued[..|s.queued|] == s.queued;
    assert q[..|s.queued|] == s.queued;
  }

  /** What is left behind the batch is at most one packet. */
  lemma RestSmall(timeout: nat, s: Tun)
    requires Good(timeout, s)
    ensures s.Batch() + s.Rest() == s.queued && AllTunPackets(s.Rest()) && Size(s.Rest()) <= MTU
    ensures s.Rest() != [] ==> |s.Rest()| == 1 && Size(s.queued) > MTU && s.Batch() != []
    ensures Size(s.Batch()) + Size(s.Rest()) == Size(s.queued)
    ensures s.Rest() == [] <==> Size(s.Rest()) == 0
  {
    hide Size;
    SizeZero([]);
    SizeZero(s.Rest());
    if Size(s.queued) > MTU {
      var m := |s.queued| - 1;
      var last := s.queued[m];
      assert s.Batch() == s.queued[..m] && s.Rest() == [last];
      assert [] + [last] == [last] && s.Batch() + [last] == s.queued;
      SizeSnoc([], last);
      SizeSnoc(s.Batch(), last);
      assert TunPacket(last);
      SizeZero(s.Batch());
    } else {
      assert s.Batch() == s.queued && s.Rest() == [];
    }
  }

  lemma SendKeeps(timeout: nat, s: Tun, byTimer: bool)
    requires Good(timeout, s) && if byTimer then s.timer else s.write
    ensures Good(timeout, AfterSend(timeout, s, byTimer))
  {
    RestSmall(timeout, s);
    var q := s.Rest();
    assert q[..|q|] == q;
  }

  datatype Callback = Read | Write | Timer

  /** Where the machine is, how many packets it has read, and the groups of packets it has sent. */
  datatype Course = Course(tun: Tun, read: nat, groups: seq<seq<seq<byte>>>)

  /** One callback; one that is not pending does nothing. */
  function Advance(timeout: nat, packets: seq<seq<byte>>, c: Course, e: Callback): Course {
    match e
    case Read =>
      if c.tun.read && c.read < |packets| then Course(AfterRead(timeout, c.tun, packets[c.read]), c.read + 1, c.groups) else c
    case Write =>
      if c.tun.write then Course(AfterSend(timeout, c.tun, false), c.read, c.groups + [c.tun.Batch()]) else c
    case Timer =>
      if c.tun.timer then Course(AfterSend(timeout, c.tun, true), c.read, c.groups + [c.tun.Batch()]) else c
  }

  function Run(timeout: nat, packets: seq<seq<byte>>, schedule: seq<Callback>): Course {
    if |schedule| == 0 then Course(IDLE, 0, [])
    else Advance(timeout, packets, Run(timeout, packets, schedule[..|schedule| - 1]), schedule[|schedule| - 1])
  }

  /** Groups and buffer together are the packets read, in order; no group exceeds a datagram. */
  ghost predicate OnCourse(timeout: nat, packets: seq<seq<byte>>, c: Course) {
    && Good(timeout, c.tun) && c.read <= |packets|
    && Join(c.groups) + c.tun.queued == packets[..c.read]
    && forall i :: 0 <= i < |c.groups| ==> AllTunPackets(c.groups[i]) && Size(c.groups[i]) <= MTU
  }

  lemma SendOnCourse(timeout: nat, packets: seq<seq<byte>>, c: Course, byTimer: bool)
    requires OnCourse(timeout, packets, c) && if byTimer then c.tun.timer else c.tun.write
    ensures OnCourse(timeout, packets, Course(AfterSend(timeout, c.tun, byTimer), c.read, c.groups + [c.tun.Batch()]))
  {
    hide AfterSend, Size;
    SendKeeps(timeout, c.tun, byTimer);
    RestSmall(timeout, c.tun);
    SendRest(timeout, c.tun, byTimer);
    JoinSnoc(c.groups, c.tun.Batch());
    Associates(Join(c.groups), c.tun.Batch(), c.tun.Rest());
  }

  lemma SendRest(timeout: nat, s: Tun, byTimer: bool)
    ensures AfterSend(timeout, s, byTimer).queued == s.Rest()
  {}

  lemma AdvanceOnCourse(timeout: nat, packets: seq<seq<byte>>, c: Course, e: Callback)
    requires AllTunPackets(packets) && OnCourse(timeout, packets, c)
    ensures OnCourse(timeout, packets, Advance(timeout, packets, c, e))
  {
    hide AfterSend, Size, Join, Good;
    match e
    case Read =>
      if c.tun.read && c.read < |packets| {
        var p := packets[c.read];
        ReadKeeps(timeout, c.tun, p);
        Associates(Join(c.groups), c.tun.queued, [p]);
        assert packets[..c.read + 1] == packets[..c.read] + [p];
      }
    case Write => if c.tun.write { SendOnCourse(timeout, packets, c, false); }
    case Timer => if c.tun.timer { SendOnCourse(timeout, packets, c, true); }
  }

  lemma NothingRead(timeout: nat, packets: seq<seq<byte>>)
    ensures OnCourse(timeout, packets, Course(IDLE, 0, []))
  {}

  /** Over every order of callbacks. */
  lemma {:induction false} RunOnCourse(timeout: nat, packets: seq<seq<byte>>, schedule: seq<Callback>)
    requires AllTunPackets(packets)
    ensures OnCourse(timeout, packets, Run(timeout, packets, schedule))
  {
    hide Advance, OnCourse;
    if |schedule| == 0 {
      NothingRead(timeout, packets);
    } else {
      var m := |schedule| - 1;
      RunOnCourse(timeout, packets, schedule[..m]);
      AdvanceOnCourse(timeout, packets, Run(timeout, packets, schedule[..m]), schedule[m]);
    }
  }

  function Overwritten(d: seq<byte>, at: nat, s: seq<byte>): (r: seq<byte>)
    requires at + |s| <= |d|
    ensures |r| == |d|
  {
    d[..at] + s + d[at + |s|..]
  }

  /** Writing the packet and then its prefix appends the packed packet. */
  lemma Appended(d0: seq<byte>, d1: seq<byte>, d2: seq<byte>, n: nat, p: seq<byte>)
    requires Packable(p) && n + PREFIX + |p| <= |d0|
    requires d1 == Overwritten(d0, n + PREFIX, p) && d2 == Overwritten(d1, n, [|p| / 256, |p| % 256])
    ensures d2[..n + PREFIX + |p|] == d0[..n] + Pack(p)
  {
    var end := n + PREFIX + |p|;
    forall i | 0 <= i < end ensures d2[i] == (d0[..n] + Pack(p))[i] {
      if i >= n + PREFIX {
        assert d2[i] == d1[i] == p[i - n - PREFIX];
      }
    }
  }

  /** The sending side: the callbacks of device, socket and timer, and which of them are waiting to be called. */
  class Sender {
    const timeout: nat
    const data: array<byte>
    var dataSize: nat
    var batchSize: nat
    var readPending: bool
    var writePending: bool
    var timerPending: bool
    /** The packets in the buffer, and how many of them are in the batch. */
    ghost var queued: seq<seq<byte>>
    ghost var batch: nat

    ghost function Abs(): Tun
      reads this
    {
      Tun(queued, batch, readPending, writePending, timerPending)
    }

    /** The buffer holds the queued packets, and sizes are those of queue and batch. */
    ghost predicate Stored()
      reads this, data
    {
      && data.Length == 2 * MTU && AllTunPackets(queued) && batch <= |queued|
      && dataSize == Size(queued) <= 2 * MTU && batchSize == Size(queued[..batch])
      && data[..dataSize] == PackAll(queued)
    }

    ghost predicate Valid()
      reads this, data
    {
      Stored() && Good(timeout, Abs())
    }

    constructor (timeout: nat)
      ensures Valid() && this.timeout == timeout && Abs() == IDLE && fresh(data)
    {
      this.timeout := timeout;
      data := new byte[2 * MTU](_ => 0);
      dataSize, batchSize := 0, 0;
      readPending, writePending, timerPending := true, false, false;
      queued, batch := [], 0;
    }

    method WriteAt(at: nat, s: seq<byte>)
      requires at + |s| <= data.Length
      modifies data
      ensures data[..] == Overwritten(old(data[..]), at, s)
    {
      forall i | 0 <= i < |s| {
        data[at + i] := s[i];
      }
    }

    /** Packet, then prefix, go behind the data. */
    method Append(p: seq<byte>)
      requires data.Length == 2 * MTU && dataSize < MTU && TunPacket(p)
      modifies this`dataSize, data
      ensures dataSize == old(dataSize) + |Pack(p)| <= 2 * MTU && data[..dataSize] == old(data[..dataSize]) + Pack(p)
    {
      ghost var d0 := data[..];
      WriteAt(dataSize + PREFIX, p);
      ghost var d1 := data[..];
      WriteAt(dataSize, [|p| / 256, |p| % 256]);
      Appended(d0, d1, data[..], dataSize, p);
      assert data[..][..dataSize + PREFIX + |p|] == data[..dataSize + PREFIX + |p|];
      assert d0[..dataSize] == old(data[..dataSize]);
      dataSize := dataSize + PREFIX + |p|;
    }

    /** The device has a packet. */
    method TunRead(p: seq<byte>)
      requires Valid() && readPending && TunPacket(p)
      modifies this, data
      ensures Valid() && Abs() == AfterRead(timeout, old(Abs()), p)
    {
      hide Pack, PackAll, Size;
      ReadKeeps(timeout, Abs(), p);
      SizeSnoc(queued, p);
      PackAllSnoc(queued, p);
      QueueParts(queued, batch, p);
      readPending := false;
      var isNew := dataSize == 0;
      SizeZero(queued);
      Append(p);
      queued := queued + [p];
      if dataSize <= MTU {
        batchSize := dataSize;
        batch := |queued|;
      }
      if dataSize >= MTU || timeout == 0 {
        writePending := true;
      } else {
        readPending := true;
        if isNew && timeout > 0 {
          timerPending := true;
        }
      }
    }

    /** Take the batch off the buffer. */
    method DropBatch()
      requires data.Length == 2 * MTU && batchSize <= dataSize <= 2 * MTU
      modifies this`dataSize, this`batchSize, data
      ensures dataSize == batchSize == old(dataSize - batchSize)
      ensures data[..dataSize] == old(data[batchSize..dataSize])
    {
      if dataSize > batchSize {
        forall i | 0 <= i < dataSize - batchSize {
          data[i] := data[batchSize + i];
        }
        dataSize := dataSize - batchSize;
        batchSize := dataSize;
      } else {
        forall i | 0 <= i < data.Length {
          data[i] := 0;
        }
        dataSize, batchSize := 0, 0;
      }
    }

    /** The batch, taken off the buffer and the queue. */
    method TakeBatch() returns (datagram: seq<byte>)
      requires Stored() && Size(queued[batch..]) == dataSize - batchSize && AllTunPackets(queued[batch..]) && dataSize - batchSize <= MTU
      modifies this`dataSize, this`batchSize, this`queued, this`batch, data
      ensures Stored() && old(batch <= |queued|) && datagram == PackAll(old(queued[..batch]))
      ensures queued == old(queued[batch..]) && batch == |queued|
    {
      hide Size, PackAll;
      PackAllConcat(queued[..batch], queued[batch..]);
      SizeIs(queued[..batch]);
      assert queued[..batch] + queued[batch..] == queued;
      Slice(data, 0, dataSize, 0, batchSize);
      Slice(data, 0, dataSize, batchSize, dataSize);
      assert data[..dataSize] == data[0..dataSize];
      datagram := data[..batchSize];
      ghost var q := queued[batch..];
      assert data[..dataSize][batchSize..] == PackAll(q);
      assert data[..dataSize][batchSize..dataSize] == data[..dataSize][batchSize..];
      DropBatch();
      queued, batch := q, |q|;
      assert q[..|q|] == q;
    }

    /** The socket is ready, or the timer has fired: send the batch. */
    method SocketWrite(byTimer: bool) returns (datagram: seq<byte>)
      requires Valid() && if byTimer then timerPending else writePending
      modifies this, data
      ensures Valid() && datagram == PackAll(old(Abs().Batch())) && |datagram| <= MTU
      ensures Abs() == AfterSend(timeout, old(Abs()), byTimer)
    {
      hide Size, PackAll;
      SendKeeps(timeout, Abs(), byTimer);
      RestSmall(timeout, Abs());
      SizeIs(queued[..batch]);
      if byTimer {
        timerPending := false;
        readPending := false;
      } else {
        writePending := false;
        timerPending := timerPending && timeout == 0;
      }
      datagram := TakeBatch();
      if dataSize == MTU || (dataSize > 0 && timeout == 0) {
        writePending := true;
      } else {
        readPending := true;
        if dataSize > 0 && timeout > 0 {
          timerPending := true;
        }
      }
    }

    /** Whatever callback comes: the machine's step. One that is not pending does nothing. */
    method Call(e: Callback, packets: seq<seq<byte>>, read: nat) returns (sent: seq<seq<byte>>, read': nat)
      requires Valid() && read <= |packets| && AllTunPackets(packets)
      modifies this, data
      ensures Valid() && read <= read' <= |packets|
      ensures var c := Advance(timeout, packets, Course(old(Abs()), read, []), e);
              Abs() == c.tun && read' == c.read && Carries(sent, c.groups) && AllShort(sent)
    {
      hide PackAll, AfterRead, AfterSend, Size;
      sent, read' := [], read;
      if e.Read? && readPending && read < |packets| {
        TunRead(packets[read]);
        read' := read + 1;
      } else if (e.Write? && writePending) || (e.Timer? && timerPending) {
        var d := SocketWrite(e.Timer?);
        sent := [d];
      }
    }

    lemma Waiting()
      requires Valid()
      ensures AllTunPackets(queued) && |PackAll(queued)| <= 2 * MTU
    {
      SizeIs(queued);
    }
  }

  /** What a read into a buffer of one MTU keeps of a datagram. */
  function Cut(d: seq<byte>): seq<byte> {
    if |d| <= MTU then d else d[..MTU]
  }

  /** The receiving side: a datagram is read whole, then written to the device packet by packet. */
  class Receiver {
    const data: array<byte>
    var dataSize: nat
    var offset: nat
    var readPending: bool
    var writePending: bool
    /** The packets written to the device. */
    var written: seq<seq<byte>>

    ghost predicate Valid()
      reads this
    {
      && data.Length == MTU && offset <= dataSize <= MTU
      && readPending != writePending && (writePending <==> offset < dataSize)
    }

    /** What is left of the datagram. */
    ghost function Left(): seq<byte>
      requires Valid()
      reads this, data
    {
      data[offset..dataSize]
    }

    constructor ()
      ensures Valid() && readPending && written == [] && Left() == [] && fresh(data)
    {
      data := new byte[MTU](_ => 0);
      dataSize, offset, readPending, writePending, written := 0, 0, true, false, [];
    }

    /** A datagram arrives; an empty one is a ping. A longer one is cut to the buffer. */
    method SocketRead(d: seq<byte>)
      requires Valid() && readPending
      modifies this, data
      ensures Valid() && written == old(written)
      ensures Left() == Cut(d)
    {
      readPending := false;
      var n := if |d| <= MTU then |d| else MTU;
      forall i | 0 <= i < n {
        data[i] := d[i];
      }
      if n == 0 {
        readPending := true;
        return;
      }
      offset := 0;
      dataSize := n;
      assert data[..n] == d[..n];
      writePending := true;
    }

    /** The device takes a packet. The daemon aborts on a packet that is not whole. */
    method TunWrite() returns (ok: bool)
      requires Valid() && writePending
      modifies this, data
      ensures ok <==> FirstWhole(old(Left()))
      ensures ok ==> Valid()
      ensures ok ==> var l := old(Left()); var n := LengthAt(l, 0);
                     written == old(written) + [l[PREFIX..PREFIX + n]] && Left() == l[PREFIX + n..]
    {
      ghost var l := Left();
      writePending := false;
      if offset + PREFIX > dataSize {
        return false;
      }
      assert l[0] == data[offset] && l[1] == data[offset + 1];
      var hi: int := data[offset];
      var size := 256 * hi + data[offset + 1];
      if offset + PREFIX + size > dataSize {
        return false;
      }
      Slice(data, offset, dataSize, PREFIX, PREFIX + size);
      Slice(data, offset, dataSize, PREFIX + size, dataSize - offset);
      written := written + [data[offset + PREFIX..offset + PREFIX + size]];
      offset := offset + PREFIX + size;
      assert l[PREFIX + size..dataSize - old(offset)] == l[PREFIX + size..];
      if offset < dataSize {
        writePending := true;
      } else {
        forall i | 0 <= i < data.Length {
          data[i] := 0;
        }
        offset, dataSize := 0, 0;
        readPending := true;
      }
      ok := true;
    }

    /** One datagram from arrival to the last write: it aborts exactly when what fits the buffer is not all whole packets. */
    method Receive(d: seq<byte>) returns (ok: bool)
      requires Valid() && readPending
      modifies this, data
      ensures ok <==> Clean(Cut(d))
      ensures ok ==> Valid() && readPending && written == old(written) + Unpack(Cut(d))
    {
      hide Unpack, Clean;
      SocketRead(d);
      ok := true;
      CleanCases(Left());
      while writePending
        invariant Valid() && ok && (Clean(Left()) <==> Clean(Cut(d))) && written + Unpack(Left()) == old(written) + Unpack(Cut(d))
        decreases |Left()|
      {
        ghost var l := Left();
        CleanCases(l);
        ok := TunWrite();
        if !ok {
          return;
        }
        UnpackCases(l);
        Associates(written[..|written| - 1], [written[|written| - 1]], Unpack(Left()));
      }
      CleanCases(Left());
      UnpackCases([]);
    }
  }

  lemma Slice(d: array<byte>, a: nat, b: nat, x: nat, y: nat)
    requires a <= b <= d.Length && x <= y <= b - a
    ensures d[a..b][x..y] == d[a + x..a + y]
  {
    assert |d[a..b][x..y]| == |d[a + x..a + y]|;
    forall i | 0 <= i < y - x ensures d[a..b][x..y][i] == d[a + x..a + y][i] {}
  }

  lemma CleanCases(s: seq<byte>)
    ensures Clean(s) <==> s == [] || (FirstWhole(s) && Clean(s[PREFIX + LengthAt(s, 0)..]))
  {}

  lemma UnpackCases(s: seq<byte>)
    ensures s == [] ==> Unpack(s) == []
    ensures FirstWhole(s) ==> var n := LengthAt(s, 0); Unpack(s) == [s[PREFIX..PREFIX + n]] + Unpack(s[PREFIX + n..])
  {}

  lemma QueueParts(queued: seq<seq<byte>>, batch: nat, p: seq<byte>)
    requires batch <= |queued|
    ensures (queued + [p])[..|queued| + 1] == queued + [p] && (queued + [p])[..batch] == queued[..batch]
  {}

  lemma SizeZero(ps: seq<seq<byte>>)
    ensures Size(ps) == 0 <==> ps == []
  {}

  // ----- end to end

  /** Every datagram is within the limit and made of whole packets. */
  ghost predicate AllClean(ds: seq<seq<byte>>) {
    forall i :: 0 <= i < |ds| ==> |ds[i]| <= MTU && Clean(ds[i])
  }

  /** One datagram for each group. */
  ghost predicate Carries(ds: seq<seq<byte>>, groups: seq<seq<seq<byte>>>) {
    |ds| == |groups| && forall i :: 0 <= i < |ds| ==> AllTunPackets(groups[i]) && ds[i] == PackAll(groups[i])
  }

  lemma {:induction false} CarriedPackets(ds: seq<seq<byte>>, groups: seq<seq<seq<byte>>>)
    requires Carries(ds, groups)
    ensures UnpackAll(ds) == Join(groups) && forall i :: 0 <= i < |ds| ==> Clean(ds[i])
  {
    hide Unpack, PackAll, Clean;
    if |ds| > 0 {
      CarriedPackets(ds[1..], groups[1..]);
      UnpackPacked(groups[0]);
      PackedIsClean(groups[0]);
      forall i | 0 <= i < |ds| ensures Clean(ds[i]) {
        if i > 0 {
          assert ds[1..][i - 1] == ds[i];
        }
      }
    }
  }

  /** The sending side follows its machine: for every packet sequence and every order of callbacks, one
      datagram for each group, what waits is what the machine holds, within the buffer of two MTU. Each
      datagram is at most an MTU of whole packets, and datagrams and buffer hold the packets read, in order. */
  method Send(timeout: nat, packets: seq<seq<byte>>, schedule: seq<Callback>)
    returns (datagrams: seq<seq<byte>>, read: nat, ghost waiting: seq<seq<byte>>)
    requires AllTunPackets(packets)
    ensures var c := Run(timeout, packets, schedule);
            Carries(datagrams, c.groups) && read == c.read && waiting == c.tun.queued
    ensures read <= |packets| && AllClean(datagrams) && AllTunPackets(waiting) && |PackAll(waiting)| <= 2 * MTU
    ensures UnpackAll(datagrams) + waiting == packets[..read]
  {
    hide PackAll, Unpack, Clean, UnpackAll, Advance, Sender.Valid, Good;
    var s := new Sender(timeout);
    datagrams, read := [], 0;
    for i := 0 to |schedule|
      invariant fresh(s) && fresh(s.data) && s.Valid() && s.timeout == timeout && read <= |packets|
      invariant var c := Run(timeout, packets, schedule[..i]); s.Abs() == c.tun && read == c.read && Carries(datagrams, c.groups)
      invariant AllShort(datagrams)
    {
      ghost var c := Run(timeout, packets, schedule[..i]);
      AdvanceGroups(timeout, packets, c, schedule[i]);
      assert schedule[..i + 1] == schedule[..i] + [schedule[i]];
      RunSnoc(timeout, packets, schedule[..i], schedule[i]);
      var sent;
      sent, read := s.Call(schedule[i], packets, read);
      CarriesMore(datagrams, c.groups, sent, Advance(timeout, packets, c.(groups := []), schedule[i]).groups);
      datagrams := datagrams + sent;
    }
    assert schedule[..|schedule|] == schedule;
    waiting := s.queued;
    s.Waiting();
    RunOnCourse(timeout, packets, schedule);
    CarriedPackets(datagrams, Run(timeout, packets, schedule).groups);
  }

  lemma AdvanceGroups(timeout: nat, packets: seq<seq<byte>>, c: Course, e: Callback)
    ensures var a, b := Advance(timeout, packets, c, e), Advance(timeout, packets, c.(groups := []), e);
            a == b.(groups := c.groups + b.groups)
  {
    hide AfterRead, AfterSend;
  }

  lemma CarriesMore(ds: seq<seq<byte>>, gs: seq<seq<seq<byte>>>, ds': seq<seq<byte>>, gs': seq<seq<seq<byte>>>)
    requires Carries(ds, gs) && Carries(ds', gs') && AllShort(ds) && AllShort(ds')
    ensures Carries(ds + ds', gs + gs') && AllShort(ds + ds')
  {
    hide PackAll, AllTunPackets;
  }

  ghost predicate AllShort(ds: seq<seq<byte>>) {
    forall i :: 0 <= i < |ds| ==> |ds[i]| <= MTU
  }

  /** Both ends, with the datagrams delivered in order: the device at the far end gets the packets read,
      unchanged and in order, up to those the machine still holds. */
  method Link(timeout: nat, packets: seq<seq<byte>>, schedule: seq<Callback>)
    returns (written: seq<seq<byte>>, read: nat, ghost waiting: seq<seq<byte>>)
    requires AllTunPackets(packets)
    ensures var c := Run(timeout, packets, schedule); written == Join(c.groups) && read == c.read && waiting == c.tun.queued
    ensures read <= |packets| && AllTunPackets(waiting) && |PackAll(waiting)| <= 2 * MTU && written + waiting == packets[..read]
  {
    hide Unpack, Clean, UnpackAll, PackAll, Run;
    var datagrams;
    datagrams, read, waiting := Send(timeout, packets, schedule);
    CarriedPackets(datagrams, Run(timeout, packets, schedule).groups);
    var r := new Receiver();
    UnpackNone();
    for i := 0 to |datagrams|
      invariant fresh(r) && fresh(r.data) && r.Valid() && r.readPending && r.written == UnpackAll(datagrams[..i])
    {
      UnpackAllSnoc(datagrams[..i], datagrams[i]);
      assert datagrams[..i + 1] == datagrams[..i] + [datagrams[i]];
      var ok := r.Receive(datagrams[i]);
    }
    assert datagrams[..|datagrams|] == datagrams;
    written := r.written;
  }

  lemma UnpackNone()
    ensures UnpackAll([]) == []
  {}

  // ----- packets are joined while they fit

  /** The packet after group i would not have fitted its datagram. */
  ghost predicate Filled(packets: seq<seq<byte>>, groups: seq<seq<seq<byte>>>, i: nat)
    requires i < |groups|
  {
    var e := |Join(groups[..i + 1])|;
    e < |packets| ==> Size(groups[i]) + PREFIX + |packets[e]| > MTU
  }

  predicate NoTimer(schedule: seq<Callback>) {
    forall i :: 0 <= i < |schedule| ==> !schedule[i].Timer?
  }

  ghost predicate Filling(packets: seq<seq<byte>>, c: Course) {
    && (c.tun.write ==> Size(c.tun.queued) >= MTU)
    && forall i :: 0 <= i < |c.groups| ==> Filled(packets, c.groups, i)
  }

  lemma FilledMore(packets: seq<seq<byte>>, groups: seq<seq<seq<byte>>>, g: seq<seq<byte>>)
    requires forall i :: 0 <= i < |groups| ==> Filled(packets, groups, i)
    requires var e := |Join(groups + [g])|; e < |packets| ==> Size(g) + PREFIX + |packets[e]| > MTU
    ensures forall i :: 0 <= i < |groups| + 1 ==> Filled(packets, groups + [g], i)
  {
    hide Join, Size;
    var all := groups + [g];
    forall i | 0 <= i < |all| ensures Filled(packets, all, i) {
      if i < |groups| {
        assert all[..i + 1] == groups[..i + 1];
        assert Filled(packets, groups, i);
      } else {
        assert all[..i + 1] == all;
      }
    }
  }

  lemma WriteFills(timeout: nat, packets: seq<seq<byte>>, c: Course)
    requires AllTunPackets(packets) && timeout > 0 && OnCourse(timeout, packets, c) && Filling(packets, c) && c.tun.write
    ensures Filling(packets, Advance(timeout, packets, c, Write))
  {
    hide Filled, AllTunPackets;
    var s := c.tun;
    RestSmall(timeout, s);
    JoinSnoc(c.groups, s.Batch());
    var e := |Join(c.groups + [s.Batch()])|;
    if e < |packets| {
      assert TunPacket(packets[e]) by { TunPacketAt(packets, e); }
      if s.batch < |s.queued| {
        assert packets[e] == packets[..c.read][e] == s.queued[s.batch];
        assert s.Rest() == [] + [packets[e]];
        SizeSnoc([], packets[e]);
      }
    }
    FilledMore(packets, c.groups, s.Batch());
  }

  lemma TunPacketAt(ps: seq<seq<byte>>, i: nat)
    requires AllTunPackets(ps) && i < |ps|
    ensures TunPacket(ps[i])
  {}

  lemma ReadFills(timeout: nat, packets: seq<seq<byte>>, c: Course)
    requires timeout > 0 && OnCourse(timeout, packets, c) && Filling(packets, c)
    ensures Filling(packets, Advance(timeout, packets, c, Read))
  {
    hide Filled, Size, AllTunPackets;
  }

  /** With aggregation on and as long as the timer does not fire, every datagram is as full as it can be. */
  lemma {:induction false} DatagramsFull(timeout: nat, packets: seq<seq<byte>>, schedule: seq<Callback>)
    requires AllTunPackets(packets) && timeout > 0 && NoTimer(schedule)
    ensures Filling(packets, Run(timeout, packets, schedule))
  {
    if |schedule| > 0 {
      var m := |schedule| - 1;
      DatagramsFull(timeout, packets, schedule[..m]);
      RunOnCourse(timeout, packets, schedule[..m]);
      var c := Run(timeout, packets, schedule[..m]);
      hide OnCourse, Filling;
      if schedule[m].Read? {
        ReadFills(timeout, packets, c);
      } else if c.tun.write {
        WriteFills(timeout, packets, c);
      }
    }
  }

  ghost predicate Single(c: Course) {
    && |c.tun.queued| <= 1 && !c.tun.timer && (c.tun.write <==> c.tun.queued != []) && (c.tun.read <==> c.tun.queued == [])
    && forall i :: 0 <= i < |c.groups| ==> |c.groups[i]| == 1
  }

  /** Without aggregation every datagram is one packet. */
  lemma {:induction false} OnePerDatagram(packets: seq<seq<byte>>, schedule: seq<Callback>)
    requires AllTunPackets(packets)
    ensures Single(Run(0, packets, schedule))
  {
    if |schedule| > 0 {
      var m := |schedule| - 1;
      OnePerDatagram(packets, schedule[..m]);
      RunOnCourse(0, packets, schedule[..m]);
      var c := Run(0, packets, schedule[..m]);
      SingleStep(packets, c, schedule[m]);
    }
  }

  lemma SingleSend(s: Tun)
    requires Good(0, s) && |s.queued| == 1 && s.read == s.timer == false
    ensures s.Batch() == s.queued && AfterSend(0, s, false) == IDLE
  {
    SizeSnoc([], s.queued[0]);
    assert s.queued == [] + [s.queued[0]];
    assert s.queued[..1] == s.queued && s.queued[1..] == [];
  }

  lemma SingleRead(s: Tun, p: seq<byte>)
    requires s == IDLE && TunPacket(p)
    ensures AfterRead(0, s, p) == Tun([p], 1, false, true, false)
  {
    SizeSnoc([], p);
    assert [] + [p] == [p];
  }

  lemma SingleStep(packets: seq<seq<byte>>, c: Course, e: Callback)
    requires AllTunPackets(packets) && OnCourse(0, packets, c) && Single(c)
    ensures Single(Advance(0, packets, c, e))
  {
    hide Join, Size, AfterRead, AfterSend;
    if c.tun.queued == [] {
      assert c.tun == IDLE;
      if c.read < |packets| {
        SingleRead(c.tun, packets[c.read]);
      }
    } else {
      SingleSend(c.tun);
    }
  }

  // ----- nothing is held back

  const DRAIN := [Write, Timer, Write, Timer]

  /** Two sends empty the buffer. */
  lemma SendShrinks(timeout: nat, s: Tun, byTimer: bool)
    requires Good(timeout, s) && if byTimer then s.timer else s.write
    ensures |AfterSend(timeout, s, byTimer).queued| <= 1
    ensures |s.queued| <= 1 ==> AfterSend(timeout, s, byTimer).queued == []
  {
    RestSmall(timeout, s);
    assert |s.Batch()| + |s.Rest()| == |s.queued|;
  }

  lemma RunSnoc(timeout: nat, packets: seq<seq<byte>>, schedule: seq<Callback>, e: Callback)
    ensures Run(timeout, packets, schedule + [e]) == Advance(timeout, packets, Run(timeout, packets, schedule), e)
  {
    assert (schedule + [e])[..|schedule|] == schedule;
  }

  /** A write and then a timer callback send at least one batch, if anything is queued. */
  lemma PairSends(timeout: nat, packets: seq<seq<byte>>, c: Course)
    requires AllTunPackets(packets) && OnCourse(timeout, packets, c)
    ensures var d := Advance(timeout, packets, Advance(timeout, packets, c, Write), Timer);
            && OnCourse(timeout, packets, d) && d.read == c.read
            && |d.tun.queued| <= 1 && (|c.tun.queued| <= 1 ==> d.tun.queued == [])
  {
    hide AfterSend, Size, Join;
    AdvanceOnCourse(timeout, packets, c, Write);
    var w := Advance(timeout, packets, c, Write);
    AdvanceOnCourse(timeout, packets, w, Timer);
    if c.tun.write {
      SendShrinks(timeout, c.tun, false);
    }
    if w.tun.timer {
      SendShrinks(timeout, w.tun, true);
    }
  }

  /** After any course, four more callbacks of socket and timer send everything that was read. */
  lemma Drained(timeout: nat, packets: seq<seq<byte>>, schedule: seq<Callback>)
    requires AllTunPackets(packets)
    ensures var c, d := Run(timeout, packets, schedule), Run(timeout, packets, schedule + DRAIN);
            d.tun.queued == [] && d.tun.read && d.read == c.read <= |packets| && Join(d.groups) == packets[..c.read]
  {
    hide Run, Advance, AfterSend, Size, Join;
    RunOnCourse(timeout, packets, schedule);
    var c := Run(timeout, packets, schedule);
    PairSends(timeout, packets, c);
    var m := Advance(timeout, packets, Advance(timeout, packets, c, Write), Timer);
    PairSends(timeout, packets, m);
    RunSnoc(timeout, packets, schedule, Write);
    RunSnoc(timeout, packets, schedule + [Write], Timer);
    RunSnoc(timeout, packets, schedule + [Write] + [Timer], Write);
    RunSnoc(timeout, packets, schedule + [Write] + [Timer] + [Write], Timer);
    assert schedule + [Write] + [Timer] + [Write] + [Timer] == schedule + DRAIN;
    var d := Run(timeout, packets, schedule + DRAIN);
    assert Join(d.groups) + [] == Join(d.groups);
  }

  function Rounds(m: nat): seq<Callback> {
    if m == 0 then [] else Rounds(m - 1) + [Read] + DRAIN
  }

  /** Given a read and the callbacks of socket and timer for each packet, all packets are sent. */
  lemma {:induction false} EverythingSent(timeout: nat, packets: seq<seq<byte>>, m: nat)
    requires AllTunPackets(packets) && m <= |packets|
    ensures var d := Run(timeout, packets, Rounds(m));
            d.tun.queued == [] && d.tun.read && d.read == m && Join(d.groups) == packets[..m]
  {
    hide Run, AfterRead, Join;
    if m == 0 {
      RunNone(timeout, packets);
    } else {
      EverythingSent(timeout, packets, m - 1);
      RunSnoc(timeout, packets, Rounds(m - 1), Read);
      Drained(timeout, packets, Rounds(m - 1) + [Read]);
    }
  }

  lemma RunNone(timeout: nat, packets: seq<seq<byte>>)
    ensures Run(timeout, packets, []) == Course(IDLE, 0, []) && Join<seq<byte>>([]) == []
  {}
}
