/** The receiver: a ring of forty blocks, proved against the queue of RxSpec. */
module Aggregator {
  import opened Gf256
  import opened LinearAlgebra
  import opened GaussJordan
  import opened EncodingMatrix
  import opened RxSpec
  import opened RxCounters
  import opened Session
  import opened Recovery
  import opened LossAccounting
  import GfTables
  import opened Sequences

  // ----- the ring as a queue

  /** Position i of the queue in the ring. */
  function At(front: nat, i: nat): (p: nat)
    ensures p < RING_SIZE
  {
    (front + i) % RING_SIZE
  }

  function AbsItem(it: Item, n: nat): Block
    requires Shaped(it, n)
  {
    Block(it.block, Present(it.sizes, n), it.toSend)
  }

  predicate AllShaped(ring: seq<Item>, n: nat) {
    |ring| == RING_SIZE && forall i :: 0 <= i < RING_SIZE ==> Shaped(ring[i], n)
  }

  function QueueOf(ring: seq<Item>, n: nat, front: nat, alloc: nat): (q: seq<Block>)
    requires AllShaped(ring, n)
    ensures |q| == alloc
  {
    seq(alloc, i requires 0 <= i < alloc => AbsItem(ring[At(front, i)], n))
  }

  /** The fragment counter of every block in the ring is right. */
  ghost predicate Counted(ring: seq<Item>, n: nat, front: nat, alloc: nat)
    requires AllShaped(ring, n)
  {
    forall i :: 0 <= i < alloc ==> ring[At(front, i)].has == Count(ring[At(front, i)].sizes, 0, n)
  }

  ghost predicate AllStored(k: nat, n: nat, log: seq<Packet>, ring: seq<Item>, front: nat, alloc: nat)
    requires AllShaped(ring, n)
  {
    forall i :: 0 <= i < alloc ==> Stored(k, n, log, ring[At(front, i)])
  }

  /** What went to the application is the packets of the slots handed over. */
  ghost predicate Faithful(log: seq<Packet>, emitted: seq<nat>, out: seq<seq<gf>>) {
    && (forall i :: 0 <= i < |emitted| ==> emitted[i] < |log|)
    && out == Delivered(log, emitted)
  }

  lemma FaithfulStep(log: seq<Packet>, emitted: seq<nat>, out: seq<seq<gf>>, slot: nat, buf: seq<gf>)
    requires Faithful(log, emitted, out) && slot < |log| && Holds(buf, log[slot])
    ensures Faithful(log, emitted + [slot], out + Extract(buf))
  {
    ExtractHeld(buf, log[slot]);
    assert (emitted + [slot])[..|emitted|] == emitted;
  }

  lemma AtDistinct(front: nat, i: nat, j: nat)
    requires i < j < RING_SIZE
    ensures At(front, i) != At(front, j)
  {}

  /** Replacing the item at position i of the ring replaces block i of the queue. */
  lemma QueueUpdate(ring: seq<Item>, n: nat, front: nat, alloc: nat, i: nat, it: Item)
    requires AllShaped(ring, n) && Shaped(it, n) && i < alloc <= RING_SIZE
    ensures AllShaped(ring[At(front, i) := it], n)
    ensures QueueOf(ring[At(front, i) := it], n, front, alloc) == QueueOf(ring, n, front, alloc)[i := AbsItem(it, n)]
  {
    hide At, AbsItem;
    var ring' := ring[At(front, i) := it];
    forall j | 0 <= j < alloc
      ensures QueueOf(ring', n, front, alloc)[j] == QueueOf(ring, n, front, alloc)[i := AbsItem(it, n)][j]
    {
      if j < i {
        AtDistinct(front, j, i);
      } else if i < j {
        AtDistinct(front, i, j);
      }
    }
  }

  /** Advancing the front drops the first block. */
  lemma QueueDrop(ring: seq<Item>, n: nat, front: nat, alloc: nat)
    requires AllShaped(ring, n) && alloc > 0
    ensures QueueOf(ring, n, At(front, 1), alloc - 1) == QueueOf(ring, n, front, alloc)[1..]
  {
    hide AbsItem, At;
    forall j | 0 <= j < alloc - 1 ensures At(At(front, 1), j) == At(front, j + 1) { AtShift(front, j); }
  }

  lemma AtZero(front: nat)
    requires front < RING_SIZE
    ensures At(front, 0) == front
  {}

  lemma AtOne(front: nat)
    ensures At(front, 1) == (front + 1) % RING_SIZE
  {}

  lemma AtNext(front: nat, i: nat)
    ensures At(front, i + 1) == (At(front, i) + 1) % RING_SIZE
  {}

  lemma AtShift(front: nat, j: nat)
    ensures At(At(front, 1), j) == At(front, j + 1)
  {}

  /** Filling the entry after the last appends a block. */
  lemma QueueAppend(ring: seq<Item>, n: nat, front: nat, alloc: nat, it: Item)
    requires AllShaped(ring, n) && Shaped(it, n) && alloc < RING_SIZE
    ensures AllShaped(ring[At(front, alloc) := it], n)
    ensures QueueOf(ring[At(front, alloc) := it], n, front, alloc + 1) == QueueOf(ring, n, front, alloc) + [AbsItem(it, n)]
  {
    hide At, AbsItem;
    forall j | 0 <= j < alloc ensures At(front, j) != At(front, alloc) {
      AtDistinct(front, j, alloc);
    }
  }

  /** A fragment in a cleared buffer; the bytes beyond the payload limit keep what they held. */
  function Cleared(bytes: seq<gf>, previous: seq<gf>): (b: seq<gf>)
    requires |bytes| <= MAX_FEC_PAYLOAD && |previous| == BUFFER
    ensures |b| == BUFFER
  {
    bytes + Zeros(MAX_FEC_PAYLOAD - |bytes|) + previous[MAX_FEC_PAYLOAD..]
  }

  /** The item with one more fragment. */
  function WithFragment(it: Item, n: nat, f: nat, bytes: seq<gf>): (r: Item)
    requires Shaped(it, n) && f < n && |bytes| <= MAX_FEC_PAYLOAD
    ensures Shaped(r, n)
  {
    it.(fragments := it.fragments[f := Cleared(bytes, it.fragments[f])], sizes := it.sizes[f := |bytes|], has := it.has + 1)
  }

  lemma {:induction false} CountUpdate(sizes: seq<nat>, f: nat, m: nat, v: nat)
    requires f < |sizes| && m <= |sizes| && sizes[f] == 0 && v != 0
    ensures Count(sizes[f := v], 0, m) == Count(sizes, 0, m) + (if f < m then 1 else 0)
  {
    if m > 0 {
      CountUpdate(sizes, f, m - 1, v);
    }
  }

  lemma WithFragmentAbs(it: Item, n: nat, f: nat, bytes: seq<gf>)
    requires Shaped(it, n) && f < n && 0 < |bytes| <= MAX_FEC_PAYLOAD && it.sizes[f] == 0
    ensures var r := WithFragment(it, n, f, bytes);
            && AbsItem(r, n) == AbsItem(it, n).(present := AbsItem(it, n).present + {f})
            && (it.has == Count(it.sizes, 0, n) ==> r.has == Count(r.sizes, 0, n))
  {
    hide Present, Count, Cleared;
    CountUpdate(it.sizes, f, n, |bytes|);
    assert Present(it.sizes[f := |bytes|], n) == Present(it.sizes, n) + {f};
  }

  lemma WithFragmentStored(k: nat, n: nat, log: seq<Packet>, it: Item, f: nat, bytes: seq<gf>)
    requires Shaped(it, n) && f < n && 0 < |bytes| <= MAX_FEC_PAYLOAD
    requires Stored(k, n, log, it) && Authentic(k, n, log, it.block, f, bytes)
    ensures Stored(k, n, log, WithFragment(it, n, f, bytes))
  {
    hide Authentic;
    var r := WithFragment(it, n, f, bytes);
    assert r.fragments[f][..|bytes|] == bytes;
    assert r.fragments[f][|bytes|..MAX_FEC_PAYLOAD] == Zeros(MAX_FEC_PAYLOAD - |bytes|);
  }

  /** A ring entry taken over by a new block. */
  function Fresh(it: Item, n: nat, idx: nat): (r: Item)
    requires Shaped(it, n)
    ensures Shaped(r, n)
  {
    it.(block := idx, toSend := 0, has := 0, sizes := seq(n, _ => 0))
  }

  lemma FreshAbs(it: Item, k: nat, n: nat, idx: nat, log: seq<Packet>)
    requires Shaped(it, n)
    ensures var r := Fresh(it, n, idx);
            AbsItem(r, n) == Block(idx, {}, 0) && r.has == Count(r.sizes, 0, n) && Stored(k, n, log, r)
  {
    hide Present, Count;
    CountBound(Fresh(it, n, idx).sizes, 0, n);
    assert Present(Fresh(it, n, idx).sizes, n) == {};
  }

  class Aggregator {
    const k: nat
    const n: nat
    const t: GfTables.Tables
    const enc: array2<gf>
    const ring: array<Item>
    var front: nat
    var alloc: nat
    var last: int
    var serial: nat
    var lost: nat
    var overrides: nat
    var recovered: nat
    var out: seq<seq<gf>>
    /** Every slot handed over so far. */
    ghost var emitted: seq<nat>

    /** The codec of the session; no method touches it. */
    ghost predicate Coding()
      reads enc, t.exp, t.log, t.inverse, t.mul, t.mul16
    {
      t.Valid() && Parameters(k, n) && enc.Length0 == n && enc.Length1 == k && Rows(enc) == Matrix(k, n)
    }

    ghost predicate Shape()
      reads this, ring
    {
      && ring.Length == RING_SIZE && AllShaped(ring[..], n)
      && front < RING_SIZE && alloc <= RING_SIZE && last >= -1
      && Counted(ring[..], n, front, alloc)
      && Account(serial, lost) == ChargeAll(Account(0, 0), emitted)
    }

    /** The ring read as a queue, oldest block first. */
    ghost function Abs(): Rx
      requires Shape()
      reads this, ring
    {
      Rx(QueueOf(ring[..], n, front, alloc), last)
    }

    ghost predicate Valid()
      reads this, ring, enc, t.exp, t.log, t.inverse, t.mul, t.mul16
    {
      Coding() && Shape() && RxSpec.Valid(k, n, Abs())
    }

    /** Ring and output agree with the traffic of the session. */
    ghost predicate Agrees(log: seq<Packet>)
      requires Shape()
      reads this, ring
    {
      AllStored(k, n, log, ring[..], front, alloc) && Faithful(log, emitted, out)
    }

    /** A session starts with an empty ring. */
    constructor (t: GfTables.Tables, k: nat, n: nat)
      requires t.Valid() && Parameters(k, n)
      ensures Valid() && this.k == k && this.n == n && this.t == t
      ensures Abs() == INIT && emitted == [] && out == [] && fresh(ring) && fresh(enc)
    {
      this.k := k;
      this.n := n;
      this.t := t;
      var matrix := FecNew(t, k, n);
      enc := matrix;
      var buf: seq<gf> := seq(BUFFER, _ => 0);
      var it := Item(0, seq(n, _ => buf), seq(n, _ => 0), 0, 0);
      ring := new Item[RING_SIZE](_ => it);
      front, alloc, last := 0, 0, -1;
      serial, lost, overrides, recovered, out := 0, 0, 0, 0, [];
      emitted := [];
      new;
      assert QueueOf(ring[..], n, front, alloc) == [];
    }

    /** Hand one data fragment to the application and account for the gap before it. */
    method SendPacket(ri: nat, f: nat)
      requires ri < ring.Length && Shaped(ring[ri], n) && f < n
      requires Account(serial, lost) == ChargeAll(Account(0, 0), emitted)
      modifies this`serial, this`lost, this`out, this`emitted
      ensures emitted == old(emitted) + [Slot(k, ring[ri].block, f)]
      ensures out == old(out) + Extract(ring[ri].fragments[f])
      ensures Account(serial, lost) == ChargeAll(Account(0, 0), emitted)
    {
      var buf := ring[ri].fragments[f];
      var flags, packetSize := buf[0], SizeField(buf);
      var packetSeq := (ring[ri].block * k + f) % WORD;
      ghost var slot := Slot(k, ring[ri].block, f);
      assert (emitted + [slot])[..|emitted|] == emitted;
      if packetSeq > (serial + 1) % WORD && serial > 0 {
        var lostCount := (packetSeq - serial - 1) % WORD;
        lost := (lost + lostCount) % WORD;
      }
      serial := packetSeq;
      if packetSize > MAX_PAYLOAD {
      } else if flags % 2 == 0 {
        out := out + [buf[HEADER..HEADER + packetSize]];
      }
      emitted := emitted + [slot];
    }

    /** Hand over whatever the block at ring entry ri still holds. */
    method FlushItem(ri: nat, ghost log: seq<Packet>)
      requires k <= n && ri < ring.Length && Shaped(ring[ri], n)
      requires Account(serial, lost) == ChargeAll(Account(0, 0), emitted)
      modifies this`serial, this`lost, this`out, this`emitted
      ensures emitted == old(emitted) + Flush(k, AbsItem(ring[ri], n))
      ensures Account(serial, lost) == ChargeAll(Account(0, 0), emitted)
      ensures old(Faithful(log, emitted, out)) && Stored(k, n, log, ring[ri]) ==> Faithful(log, emitted, out)
    {
      hide Faithful, Stored, Extract, Present, FlushFrom, ChargeAll, Holds, Slot, AbsItem, Padded;
      var it := ring[ri];
      ghost var b := AbsItem(it, n);
      AbsFields(it, n);
      var f := it.toSend;
      FlushStart(k, b);
      while f < k
        invariant f >= it.toSend && Account(serial, lost) == ChargeAll(Account(0, 0), emitted)
        invariant emitted + FlushFrom(k, b, f) == old(emitted) + Flush(k, b)
        invariant old(Faithful(log, emitted, out)) && Stored(k, n, log, it) ==> Faithful(log, emitted, out)
      {
        FlushNext(k, b, f);
        if it.sizes[f] != 0 {
          ghost var before, sent := emitted, out;
          SendPacket(ri, f);
          if Faithful(log, before, sent) && Stored(k, n, log, it) {
            DataPadded(k, n, log, it, f);
            FaithfulStep(log, before, sent, Slot(k, it.block, f), it.fragments[f]);
          }
          Associates(before, [Slot(k, it.block, f)], FlushFrom(k, b, f + 1));
        }
        f := f + 1;
      }
      FlushEnd(k, b, f);
    }

    /** Hand over the data fragments from toSend up to hi of the block at ring entry ri. */
    method SendUpTo(ri: nat, hi: nat, ghost log: seq<Packet>)
      requires ri < ring.Length && Shaped(ring[ri], n) && ring[ri].toSend <= hi <= n
      requires Account(serial, lost) == ChargeAll(Account(0, 0), emitted)
      modifies this`serial, this`lost, this`out, this`emitted, ring
      ensures ring[..] == old(ring[..])[ri := old(ring[ri]).(toSend := hi)]
      ensures emitted == old(emitted) + Slots(k, ring[ri].block, old(ring[ri].toSend), hi)
      ensures Account(serial, lost) == ChargeAll(Account(0, 0), emitted)
      ensures old(Faithful(log, emitted, out)) && HoldsRange(k, log, old(ring[ri]), hi) ==> Faithful(log, emitted, out)
    {
      hide Faithful, Holds, HoldsRange, Extract, Slot, Slots, ChargeAll;
      ghost var it := ring[ri];
      ghost var able := HoldsRange(k, log, it, hi);
      while ring[ri].toSend < hi
        invariant it.toSend <= ring[ri].toSend <= hi
        invariant ring[..] == old(ring[..])[ri := it.(toSend := ring[ri].toSend)]
        invariant Account(serial, lost) == ChargeAll(Account(0, 0), emitted)
        invariant emitted + Slots(k, it.block, ring[ri].toSend, hi) == old(emitted) + Slots(k, it.block, it.toSend, hi)
        invariant old(Faithful(log, emitted, out)) && able ==> Faithful(log, emitted, out)
        decreases hi - ring[ri].toSend
      {
        ghost var before, sent, f := emitted, out, ring[ri].toSend;
        SendPacket(ri, ring[ri].toSend);
        if Faithful(log, before, sent) && able {
          HoldsOne(k, log, it, hi, f);
          FaithfulStep(log, before, sent, Slot(k, it.block, f), it.fragments[f]);
        }
        SlotsFirst(k, it.block, f, hi);
        Associates(before, [Slot(k, it.block, f)], Slots(k, it.block, f + 1, hi));
        ring[ri] := ring[ri].(toSend := ring[ri].toSend + 1);
      }
      SlotsNone(k, it.block, hi);
    }

    /** A ring entry for one more block: a free one, or the oldest after its fragments are flushed. */
    method RingPush(ghost log: seq<Packet>) returns (ri: nat)
      requires Shape() && k <= n
      modifies this`front, this`alloc, this`overrides, this`serial, this`lost, this`out, this`emitted
      ensures ring.Length == RING_SIZE && AllShaped(ring[..], n) && front < RING_SIZE && 0 < alloc <= RING_SIZE
      ensures ri == At(front, alloc - 1)
      ensures old(alloc) < RING_SIZE ==> front == old(front) && alloc == old(alloc) + 1 && emitted == old(emitted) && out == old(out)
      ensures old(alloc) == RING_SIZE ==> front == At(old(front), 1) && alloc == RING_SIZE
      ensures overrides == old(overrides) + if old(alloc) == RING_SIZE then 1 else 0
      ensures old(alloc) == RING_SIZE ==> emitted == old(emitted) + Flush(k, AbsItem(ring[old(front)], n))
      ensures Account(serial, lost) == ChargeAll(Account(0, 0), emitted)
      ensures old(Agrees(log)) ==> Faithful(log, emitted, out)
    {
      hide Faithful, Flush, Stored, AbsItem;
      if alloc < RING_SIZE {
        ri := (front + alloc) % RING_SIZE;
        alloc := alloc + 1;
        return;
      }
      overrides := overrides + 1;
      assert At(front, 0) == front;
      FlushItem(front, log);
      ri := front;
      front := (front + 1) % RING_SIZE;
    }

    /** One new block at the end of the ring. */
    method PushBlock(idx: nat, ghost log: seq<Packet>) returns (ri: nat)
      requires Shape() && k <= n
      modifies this`front, this`alloc, this`overrides, this`serial, this`lost, this`out, this`emitted, ring
      ensures Shape() && last == old(last) && 0 < alloc && ri == At(front, alloc - 1)
      ensures Abs() == Push(k, old(Abs()), idx).rx
      ensures emitted == old(emitted) + Push(k, old(Abs()), idx).slots
      ensures overrides == old(overrides) + Excess(old(alloc), 1) && alloc == old(alloc) + 1 - Excess(old(alloc), 1)
      ensures old(Agrees(log)) ==> Agrees(log)
    {
      hide Faithful, Flush, Stored, AbsItem, At, Fresh, Shaped;
      ghost var r0, front0, alloc0 := ring[..], front, alloc;
      AtZero(front);
      assert emitted + [] == emitted;
      ri := RingPush(log);
      FreshAbs(ring[ri], k, n, idx, log);
      ring[ri] := Fresh(ring[ri], n, idx);
      PushedRing(r0, ring[..], k, n, front0, alloc0, front, alloc, ri, idx, log);
    }

    /** Walk the ring from its front for the block. */
    method Search(idx: nat) returns (found: bool, ri: nat)
      requires Shape()
      ensures found <==> Find(Abs().queue, idx) < alloc
      ensures found ==> ri == At(front, Find(Abs().queue, idx))
    {
      hide Counted, AllShaped, Shaped, Find, Present, At;
      ghost var q := Abs().queue;
      ghost var pos := 0;
      var i, c := front, alloc;
      AtZero(front);
      while c > 0
        invariant pos + c == alloc && i == At(front, pos)
        invariant forall j :: 0 <= j < pos ==> q[j].idx != idx
      {
        assert q[pos].idx == ring[i].block;
        if ring[i].block == idx {
          FindFirst(q, idx, pos);
          return true, i;
        }
        AtNext(front, pos);
        i, c := (i + 1) % RING_SIZE, c - 1;
        pos := pos + 1;
      }
      FindNone(q, idx);
      found, ri := false, 0;
    }

    /** Bring a block newer than any seen into the ring, with the blocks skipped before it. */
    method PushBlocks(idx: nat, ghost log: seq<Packet>) returns (ri: nat)
      requires Shape() && k <= n && last < idx
      modifies this`front, this`alloc, this`last, this`overrides, this`serial, this`lost, this`out, this`emitted, ring
      ensures Shape() && 0 < alloc && ri == At(front, alloc - 1)
      ensures Abs() == Locate(k, old(Abs()), idx).rx
      ensures emitted == old(emitted) + Locate(k, old(Abs()), idx).slots
      ensures overrides == old(overrides) + Dropped(old(Abs()).queue, NewBlocks(old(Abs()), idx))
      ensures old(Agrees(log)) ==> Agrees(log)
    {
      hide Faithful, AllStored, Push, PushMany, Counted, AllShaped, QueueOf, At, ChargeAll;
      var d := if last != -1 then idx - last else 1;
      var newBlocks := if d < RING_SIZE then d else RING_SIZE;
      assert newBlocks > 0;
      last := idx;
      ghost var first, start, sent := idx + 1 - newBlocks, Abs(), emitted;
      ghost var goal := PushMany(k, start, first, newBlocks);
      ri := 0;
      for i := 0 to newBlocks
        invariant Shape() && last == idx
        invariant i > 0 ==> 0 < alloc && ri == At(front, alloc - 1)
        invariant PushMany(k, Abs(), first + i, newBlocks - i).rx == goal.rx
        invariant emitted + PushMany(k, Abs(), first + i, newBlocks - i).slots == sent + goal.slots
        invariant overrides + Excess(alloc, newBlocks - i) == old(overrides) + Excess(old(alloc), newBlocks)
        invariant old(Agrees(log)) ==> Agrees(log)
      {
        ghost var r := Abs();
        ghost var before := emitted;
        PushManyNext(k, r, first + i, newBlocks - i);
        ri := PushBlock(idx + i + 1 - newBlocks, log);
        assert emitted + PushMany(k, Abs(), first + i + 1, newBlocks - i - 1).slots
            == before + PushMany(k, r, first + i, newBlocks - i).slots;
      }
      PushManyNone(k, Abs(), first + newBlocks);
    }

    /** Put a new fragment into its buffer. */
    method StoreFragment(ri: nat, ghost pos: nat, f: nat, bytes: seq<gf>, ghost log: seq<Packet>)
      requires Shape() && pos < alloc && ri == At(front, pos) && f < n && HEADER <= |bytes| <= MAX_FEC_PAYLOAD
      requires ring[ri].sizes[f] == 0
      modifies ring
      ensures Shape() && ring[ri].block == old(ring[ri].block) && ring[ri].toSend == old(ring[ri].toSend)
      ensures var q := old(Abs().queue); Abs().queue == q[pos := q[pos].(present := q[pos].present + {f})]
      ensures old(Agrees(log)) && Authentic(k, n, log, ring[ri].block, f, bytes) ==> Agrees(log)
    {
      hide Faithful, Stored, AbsItem, At, WithFragment, Shaped, Count, Authentic, Present;
      ghost var r0, it := ring[..], ring[ri];
      ring[ri] := WithFragment(ring[ri], n, f, bytes);
      assert ring[..] == r0[ri := WithFragment(it, n, f, bytes)];
      WithFragmentAbs(it, n, f, bytes);
      WithFragmentKeeps(it, n, f, bytes);
      QueueUpdate(r0, n, front, alloc, pos, WithFragment(it, n, f, bytes));
      UpdateKeeps(r0, k, n, front, alloc, pos, WithFragment(it, n, f, bytes), log);
      if Stored(k, n, log, it) && Authentic(k, n, log, it.block, f, bytes) {
        WithFragmentStored(k, n, log, it, f, bytes);
      }
    }

    /** Hand over the oldest block as far as it has no gap. */
    method SendReady(ri: nat, ghost log: seq<Packet>)
      requires Shape() && k <= n && alloc > 0 && ri == front && ring[ri].toSend <= k
      modifies this`serial, this`lost, this`out, this`emitted, ring
      ensures Shape() && ring[ri].block == old(ring[ri].block)
      ensures var q := old(Abs().queue);
              var e := RunEnd(k, q[0], q[0].toSend);
              && Abs().queue == q[0 := q[0].(toSend := e)] && ring[ri].toSend == e
              && emitted == old(emitted) + Slots(k, q[0].idx, q[0].toSend, e)
      ensures old(Agrees(log)) ==> Agrees(log)
    {
      hide Faithful, Stored, AbsItem, At, Count, Holds, RunEnd, Slots, ChargeAll, Slot;
      ghost var r0, it, q := ring[..], ring[ri], Abs().queue;
      ghost var e := RunEnd(k, q[0], it.toSend);
      AtZero(front);
      AbsFields(it, n);
      SlotsNone(k, it.block, it.toSend);
      assert emitted + [] == emitted;
      while ring[ri].toSend < k && ring[ri].sizes[ring[ri].toSend] != 0
        invariant it.toSend <= ring[ri].toSend <= k
        invariant ring[..] == r0[ri := it.(toSend := ring[ri].toSend)]
        invariant Account(serial, lost) == ChargeAll(Account(0, 0), emitted)
        invariant RunEnd(k, q[0], ring[ri].toSend) == e
        invariant emitted == old(emitted) + Slots(k, it.block, it.toSend, ring[ri].toSend)
        invariant old(Agrees(log)) ==> Faithful(log, emitted, out)
        decreases k - ring[ri].toSend
      {
        ghost var f, cur, sent := ring[ri].toSend, ring[ri], emitted;
        RunEndNext(k, q[0], f);
        if Stored(k, n, log, it) {
          DataPadded(k, n, log, it, f);
        }
        HoldsRangeOne(k, log, cur, f);
        SendUpTo(ri, ring[ri].toSend + 1, log);
        SlotsSplit(k, it.block, it.toSend, f, f + 1);
      }
      RunEndStop(k, q[0], ring[ri].toSend);
      SentKeeps(r0, ring[..], k, n, front, alloc, it, e, log);
    }

    /** Remove the oldest block. */
    method DropFront(ghost log: seq<Packet>)
      requires Shape() && alloc > 0
      modifies this`front, this`alloc
      ensures Shape() && alloc == old(alloc) - 1 && front == At(old(front), 1)
      ensures Abs().queue == old(Abs().queue)[1..]
      ensures old(Agrees(log)) ==> Agrees(log)
    {
      hide Faithful, QueueOf, Counted, AllStored, AllShaped;
      QueueDrop(ring[..], n, front, alloc);
      RingDropKeeps(ring[..], k, n, front, alloc, log);
      front := (front + 1) % RING_SIZE;
      alloc := alloc - 1;
    }

    /** Flush and remove the oldest block. */
    method FlushFront(ghost log: seq<Packet>)
      requires Shape() && k <= n && alloc > 0
      modifies this`front, this`alloc, this`serial, this`lost, this`out, this`emitted
      ensures Shape() && alloc == old(alloc) - 1 && front == At(old(front), 1)
      ensures Abs().queue == old(Abs().queue)[1..]
      ensures emitted == old(emitted) + Flush(k, old(Abs().queue)[0])
      ensures old(Agrees(log)) ==> Agrees(log)
    {
      hide Faithful, Flush, QueueOf, AllStored, Counted, AllShaped, AbsItem, Stored;
      FrontItem(ring[..], k, n, front, alloc, log);
      FlushItem(front, log);
      DropFront(log);
    }

    /** Flush and remove every block before the one at ring entry ri. */
    method FlushBefore(ri: nat, ghost pos: nat, ghost log: seq<Packet>)
      requires Shape() && k <= n && pos < alloc && ri == At(front, pos)
      modifies this`front, this`alloc, this`serial, this`lost, this`out, this`emitted
      ensures Shape() && alloc > 0 && ri == front
      ensures Abs().queue == old(Abs().queue)[pos..]
      ensures emitted == old(emitted) + FlushAll(k, old(Abs().queue)[..pos])
      ensures old(Agrees(log)) ==> Agrees(log)
    {
      hide Faithful, Flush, FlushAll, QueueOf, AllStored, Counted, AllShaped, At;
      ghost var q := Abs().queue;
      AtDistance(front, pos);
      var nrm := (ri - front) % RING_SIZE;
      assert q[0..] == q;
      while nrm > 0
        invariant 0 <= nrm <= pos && nrm < alloc && Shape() && ri == At(front, nrm)
        invariant Abs().queue == q[pos - nrm..]
        invariant emitted + FlushAll(k, q[pos - nrm..pos]) == old(emitted) + FlushAll(k, q[..pos])
        invariant old(Agrees(log)) ==> Agrees(log)
      {
        ghost var before, i := emitted, pos - nrm;
        FlushAllNext(k, q, i, pos);
        AtShift(front, nrm - 1);
        FlushFront(log);
        Associates(before, Flush(k, q[i]), FlushAll(k, q[i + 1..pos]));
        nrm := nrm - 1;
      }
      assert q[pos..pos] == [];
      FlushAllEmpty(k);
      AtZero(front);
    }

    /** The oldest block has k fragments: recover the missing ones if any, hand over the rest, remove it. */
    method RecoverBlock(ri: nat, ghost log: seq<Packet>)
      requires Coding() && Shape() && alloc > 0 && ri == front && ring[ri].toSend < k && ring[ri].has == k
      modifies this`front, this`alloc, this`recovered, this`serial, this`lost, this`out, this`emitted, ring
      ensures Shape()
      ensures Abs().queue == old(Abs().queue)[1..]
      ensures var b := old(Abs().queue)[0];
              emitted == old(emitted) + Slots(k, b.idx, b.toSend, k) && recovered == old(recovered) + |Gaps(k, b)|
      ensures old(Agrees(log)) ==> Agrees(log)
    {
      hide Faithful, Stored, AllStored, Counted, QueueOf, AllShaped, AbsItem, Count, Slots, Holds, HoldsRange, Present, At, Slot, Gaps;
      ghost var r0, it := ring[..], ring[ri];
      FrontItem(r0, k, n, front, alloc, log);
      AbsFields(it, n);
      GapsCounted(it, k, n);
      RecoverIfNeeded(ri, log);
      SendUpTo(ri, k, log);
      FrontReplaced(r0, ring[..], k, n, front, alloc, ring[ri], log);
      AtOne(front);
      front := (front + 1) % RING_SIZE;
      alloc := alloc - 1;
    }

    /** Recover the missing data fragments of the block at ring entry ri, if there are any. */
    method RecoverIfNeeded(ri: nat, ghost log: seq<Packet>)
      requires Coding() && ri < ring.Length && Shaped(ring[ri], n) && Count(ring[ri].sizes, 0, n) == k && ring[ri].toSend < k
      modifies this`recovered, ring
      ensures Shaped(ring[ri], n) && ring[..] == old(ring[..])[ri := old(ring[ri]).(fragments := ring[ri].fragments)]
      ensures Stored(k, n, log, old(ring[ri])) ==> HoldsRange(k, log, ring[ri], k)
      ensures var it := old(ring[ri]); recovered == old(recovered) + (k - it.toSend - Count(it.sizes, it.toSend, k))
    {
      hide Stored, Count, Holds, Slot, Matrix, GfTables.Tables.Valid;
      var it := ring[ri];
      var f := it.toSend;
      while f < k && it.sizes[f] != 0
        invariant it.toSend <= f <= k && forall j :: it.toSend <= j < f ==> it.sizes[j] != 0
      {
        f := f + 1;
      }
      CountBound(it.sizes, it.toSend, f);
      CountSplit(it.sizes, it.toSend, f, k);
      if f < k {
        var fragments := ApplyFec(t, enc, k, n, it, log);
        var fecCount := CountMissing(it, f);
        ring[ri] := it.(fragments := fragments);
        recovered := recovered + fecCount;
      } else if Stored(k, n, log, it) {
        forall j | it.toSend <= j < k ensures Slot(k, it.block, j) < |log| && Holds(it.fragments[j], log[Slot(k, it.block, j)]) {
          DataPadded(k, n, log, it, j);
        }
      }
      assert it.(fragments := it.fragments) == it;
    }

    method CountMissing(it: Item, lo: nat) returns (c: nat)
      requires Shaped(it, n) && lo <= k <= n
      ensures c == k - lo - Count(it.sizes, lo, k)
    {
      hide Count;
      c := 0;
      CountBound(it.sizes, lo, lo);
      for f := lo to k
        invariant c == f - lo - Count(it.sizes, lo, f)
      {
        CountSplit(it.sizes, lo, f, f + 1);
        CountOne(it.sizes, f);
        if it.sizes[f] == 0 {
          c := c + 1;
        }
      }
    }

    /** Store a new fragment and, in the oldest block, hand over what has no gap; the block may be done. */
    method StoreAndSend(ri: nat, ghost pos: nat, f: nat, bytes: seq<gf>, ghost log: seq<Packet>) returns (done: bool)
      requires Shape() && k <= n && pos < alloc && ri == At(front, pos) && f < n && HEADER <= |bytes| <= MAX_FEC_PAYLOAD
      requires ring[ri].sizes[f] == 0 && ring[ri].toSend < k
      modifies this`front, this`alloc, this`serial, this`lost, this`out, this`emitted, ring
      ensures Shape()
      ensures var q, b := old(Abs().queue), Updated(k, old(Abs()), pos, f);
              && done == (pos == 0 && b.toSend == k)
              && Abs().queue == (if done then q[1..] else q[pos := b])
              && (!done ==> pos < alloc && ri == At(front, pos))
              && emitted == old(emitted) + Slots(k, b.idx, q[pos].toSend, b.toSend)
      ensures old(Agrees(log)) && Authentic(k, n, log, old(ring[ri].block), f, bytes) ==> Agrees(log)
    {
      hide Faithful, AllStored, Counted, QueueOf, AllShaped, AbsItem, Slots, At, Authentic, RunEnd;
      ghost var r := Abs();
      ItemAt(ring[..], n, front, alloc, pos);
      SlotsNone(k, r.queue[pos].idx, r.queue[pos].toSend);
      assert emitted + [] == emitted;
      StoreFragment(ri, pos, f, bytes, log);
      FrontOnly(front, pos);
      done := false;
      if ri == front {
        SendReady(ri, log);
        if ring[ri].toSend == k {
          DropFront(log);
          done := true;
        }
      }
    }

    /** A fragment for the block at position pos of the queue, ring entry ri. */
    method InsertFragment(ri: nat, ghost pos: nat, f: nat, bytes: seq<gf>, ghost log: seq<Packet>)
      requires Valid() && pos < alloc && ri == At(front, pos) && f < n && HEADER <= |bytes| <= MAX_FEC_PAYLOAD
      modifies this`front, this`alloc, this`recovered, this`serial, this`lost, this`out, this`emitted, ring
      ensures Valid()
      ensures Abs() == Insert(k, old(Abs()), pos, f).rx
      ensures emitted == old(emitted) + Insert(k, old(Abs()), pos, f).slots
      ensures recovered == old(recovered) + InsertRebuilds(k, old(Abs()), pos, f)
      ensures old(Agrees(log)) && Authentic(k, n, log, old(ring[ri].block), f, bytes) ==> Agrees(log)
    {
      hide Faithful, AllStored, Counted, QueueOf, AllShaped, AbsItem, Slots, At, FlushAll, Authentic, Insert, BlockOk, Updated, RxSpec.Valid, Coding, Gaps;
      ghost var r := Abs();
      ItemAt(ring[..], n, front, alloc, pos);
      InsertKeeps(k, n, r, pos, f);
      ValidLast(k, n, r);
      assert emitted + [] == emitted;
      if ring[ri].sizes[f] != 0 {
        InsertNothing(k, r, pos, f);
        return;
      }
      ghost var b := Updated(k, r, pos, f);
      InsertCases(k, r, pos, f);
      UpdatedOk(k, n, r, pos, f);
      NotSentYet(k, n, r, pos);
      var done := StoreAndSend(ri, pos, f, bytes, log);
      if !done {
        CompleteBlock(ri, pos, log);
        CompletedQueue(r.queue, pos, b);
        Reassociate4(old(emitted), Slots(k, b.idx, r.queue[pos].toSend, b.toSend), FlushAll(k, r.queue[..pos]), Slots(k, b.idx, b.toSend, k));
      }
    }

    /** If the block has k fragments, flush and remove the blocks before it, then recover and remove it. */
    method CompleteBlock(ri: nat, ghost pos: nat, ghost log: seq<Packet>)
      requires Coding() && Shape() && pos < alloc && ri == At(front, pos)
      modifies this`front, this`alloc, this`recovered, this`serial, this`lost, this`out, this`emitted, ring
      ensures Shape()
      ensures var q := old(Abs().queue);
              if q[pos].toSend < k && |q[pos].present| == k then
                && Abs().queue == q[pos..][1..]
                && emitted == old(emitted) + (FlushAll(k, q[..pos]) + Slots(k, q[pos].idx, q[pos].toSend, k))
                && recovered == old(recovered) + |Gaps(k, q[pos])|
              else Abs().queue == q && emitted == old(emitted) && recovered == old(recovered)
      ensures old(Agrees(log)) ==> Agrees(log)
    {
      hide Faithful, AllStored, Counted, QueueOf, AllShaped, AbsItem, Slots, At, FlushAll, Gaps;
      ItemAt(ring[..], n, front, alloc, pos);
      if ring[ri].toSend < k && ring[ri].has == k {
        ghost var q := Abs().queue;
        FlushBefore(ri, pos, log);
        assert q[pos..][0] == q[pos];
        RecoverBlock(ri, log);
        Associates(old(emitted), FlushAll(k, q[..pos]), Slots(k, q[pos].idx, q[pos].toSend, k));
      }
    }

    /** A fragment of a block newer than any seen. */
    method InsertNew(idx: nat, f: nat, bytes: seq<gf>, ghost log: seq<Packet>)
      requires Valid() && last < idx && f < n && HEADER <= |bytes| <= MAX_FEC_PAYLOAD
      modifies this, ring
      ensures Valid()
      ensures var p := Locate(k, old(Abs()), idx);
              var s := Insert(k, p.rx, |p.rx.queue| - 1, f);
              && Abs() == s.rx && emitted == old(emitted) + (p.slots + s.slots)
              && overrides == old(overrides) + Dropped(old(Abs()).queue, NewBlocks(old(Abs()), idx))
              && recovered == old(recovered) + InsertRebuilds(k, p.rx, |p.rx.queue| - 1, f)
      ensures old(Agrees(log)) && Authentic(k, n, log, idx, f, bytes) ==> Agrees(log)
    {
      hide Faithful, AllStored, Counted, QueueOf, AllShaped, At, Authentic, Insert, Locate, RxSpec.Valid, Coding, InsertRebuilds, NewBlocks, Dropped;
      ghost var r := Abs();
      ValidLast(k, n, r);
      var ri := PushBlocks(idx, log);
      LocateKeeps(k, n, r, idx);
      ghost var p := Locate(k, r, idx);
      ItemAt(ring[..], n, front, alloc, alloc - 1);
      InsertFragment(ri, alloc - 1, f, bytes, log);
      Associates(old(emitted), p.slots, Insert(k, p.rx, |p.rx.queue| - 1, f).slots);
    }

    /** One decrypted data packet: block and fragment number come out of the nonce. */
    method ProcessPacket(nonce: nat, bytes: seq<gf>, ghost log: seq<Packet>)
      requires Valid() && HEADER <= |bytes| <= MAX_FEC_PAYLOAD
      modifies this, ring
      ensures Valid()
      ensures Abs() == Step(k, n, old(Abs()), nonce / 256, nonce % 256).rx
      ensures emitted == old(emitted) + Step(k, n, old(Abs()), nonce / 256, nonce % 256).slots
      ensures overrides == old(overrides) + StepOverrides(n, old(Abs()), nonce / 256, nonce % 256)
      ensures recovered == old(recovered) + StepRebuilds(k, n, old(Abs()), nonce / 256, nonce % 256)
      ensures old(Agrees(log)) && Authentic(k, n, log, nonce / 256, nonce % 256, bytes) ==> Agrees(log)
    {
      hide Faithful, AllStored, Counted, QueueOf, AllShaped, At, Authentic, Insert, Locate, Find, RxSpec.Valid, Coding, InsertRebuilds, NewBlocks, Dropped;
      var idx, f := nonce / 256, nonce % 256;
      assert emitted + [] == emitted;
      if idx > MAX_BLOCK_IDX || f >= n {
        return;
      }
      var found, ri := Search(idx);
      if found {
        ghost var pos := Find(Abs().queue, idx);
        ItemAt(ring[..], n, front, alloc, pos);
        HeldNotNewer(k, n, Abs(), idx);
        InsertFragment(ri, pos, f, bytes, log);
      } else if idx > last {
        InsertNew(idx, f, bytes, log);
      }
    }
  }

  function Excess(a: int, c: int): int {
    if a + c > RING_SIZE then a + c - RING_SIZE else 0
  }

  lemma {:induction false} GapsFrom(sizes: seq<nat>, present: set<nat>, lo: nat, hi: nat)
    requires lo <= hi <= |sizes| && forall f :: lo <= f < hi ==> (f in present <==> sizes[f] != 0)
    ensures |set j | lo <= j < hi && j !in present| == hi - lo - Count(sizes, lo, hi)
    decreases hi
  {
    var s := set j | lo <= j < hi && j !in present;
    if lo < hi {
      GapsFrom(sizes, present, lo, hi - 1);
      var t := set j | lo <= j < hi - 1 && j !in present;
      if hi - 1 in present {
        assert s == t;
      } else {
        assert s == t + {hi - 1};
      }
    } else {
      assert s == {};
    }
  }

  lemma GapsCounted(it: Item, k: nat, n: nat)
    requires Shaped(it, n) && it.toSend <= k <= n
    ensures |Gaps(k, AbsItem(it, n))| == k - it.toSend - Count(it.sizes, it.toSend, k)
  {
    hide Count;
    var b := AbsItem(it, n);
    GapsFrom(it.sizes, b.present, it.toSend, k);
    assert Gaps(k, b) == set j | it.toSend <= j < k && j !in b.present;
  }

  lemma Reassociate4(a: seq<nat>, b: seq<nat>, c: seq<nat>, d: seq<nat>)
    ensures a + b + (c + d) == a + (b + c + d)
  {}

  lemma FlushStart(k: nat, b: Block)
    ensures Flush(k, b) == FlushFrom(k, b, b.toSend)
  {}

  lemma FlushNext(k: nat, b: Block, f: nat)
    requires f < k
    ensures FlushFrom(k, b, f) == if f in b.present then [Slot(k, b.idx, f)] + FlushFrom(k, b, f + 1) else FlushFrom(k, b, f + 1)
  {
    assert [] + FlushFrom(k, b, f + 1) == FlushFrom(k, b, f + 1);
  }

  lemma FlushEnd(k: nat, b: Block, f: nat)
    requires f >= k
    ensures FlushFrom(k, b, f) == [] && forall s: seq<nat> :: s + FlushFrom(k, b, f) == s
  {}

  lemma AtDistance(front: nat, pos: nat)
    requires front < RING_SIZE && pos < RING_SIZE
    ensures (At(front, pos) - front) % RING_SIZE == pos
  {}

  lemma NotSentYet(k: nat, n: nat, r: Rx, pos: nat)
    requires RxSpec.Valid(k, n, r) && pos < |r.queue|
    ensures r.queue[pos].toSend < k
  {
    assert BlockOk(k, n, r.queue[pos]);
  }

  lemma CompletedQueue(q: seq<Block>, pos: nat, b: Block)
    requires pos < |q|
    ensures q[pos := b][..pos] == q[..pos] && q[pos := b][pos..][1..] == q[pos + 1..]
  {}

  lemma FrontOnly(front: nat, pos: nat)
    requires front < RING_SIZE && pos < RING_SIZE
    ensures At(front, pos) == front <==> pos == 0
  {}

  lemma ItemAt(ring: seq<Item>, n: nat, front: nat, alloc: nat, pos: nat)
    requires AllShaped(ring, n) && Counted(ring, n, front, alloc) && pos < alloc
    ensures var it, b := ring[At(front, pos)], QueueOf(ring, n, front, alloc)[pos];
            && Shaped(it, n) && b.idx == it.block && b.toSend == it.toSend && |b.present| == it.has
            && (forall f :: f in b.present <==> 0 <= f < n && it.sizes[f] != 0)
  {
    hide At;
  }

  /** Only the oldest entry differs, and it is about to go. */
  lemma FrontReplaced(r0: seq<Item>, r: seq<Item>, k: nat, n: nat, front: nat, alloc: nat, it: Item, log: seq<Packet>)
    requires AllShaped(r0, n) && front < RING_SIZE && 0 < alloc <= RING_SIZE && Shaped(it, n) && r == r0[front := it]
    requires Counted(r0, n, front, alloc)
    ensures AllShaped(r, n) && Counted(r, n, At(front, 1), alloc - 1)
    ensures QueueOf(r, n, At(front, 1), alloc - 1) == QueueOf(r0, n, front, alloc)[1..]
    ensures AllStored(k, n, log, r0, front, alloc) ==> AllStored(k, n, log, r, At(front, 1), alloc - 1)
  {
    hide At, Count, Stored, Shaped, AbsItem;
    AtZero(front);
    forall j | 0 <= j < alloc - 1 ensures At(At(front, 1), j) == At(front, j + 1) && r[At(front, j + 1)] == r0[At(front, j + 1)] {
      AtShift(front, j);
      AtDistinct(front, 0, j + 1);
    }
  }

  lemma RingDropKeeps(ring: seq<Item>, k: nat, n: nat, front: nat, alloc: nat, log: seq<Packet>)
    requires AllShaped(ring, n) && 0 < alloc <= RING_SIZE
    ensures Counted(ring, n, front, alloc) ==> Counted(ring, n, At(front, 1), alloc - 1)
    ensures AllStored(k, n, log, ring, front, alloc) ==> AllStored(k, n, log, ring, At(front, 1), alloc - 1)
  {
    hide At, Count, Stored, Shaped;
    forall j | 0 <= j < alloc - 1 ensures At(At(front, 1), j) == At(front, j + 1) { AtShift(front, j); }
  }

  lemma FrontItem(ring: seq<Item>, k: nat, n: nat, front: nat, alloc: nat, log: seq<Packet>)
    requires AllShaped(ring, n) && front < RING_SIZE && 0 < alloc <= RING_SIZE && Counted(ring, n, front, alloc)
    ensures QueueOf(ring, n, front, alloc)[0] == AbsItem(ring[front], n)
    ensures ring[front].has == Count(ring[front].sizes, 0, n) && Shaped(ring[front], n)
    ensures AllStored(k, n, log, ring, front, alloc) ==> Stored(k, n, log, ring[front])
  {
    hide AbsItem, Count, Stored, Shaped;
    AtZero(front);
    assert ring[At(front, 0)] == ring[front];
  }

  lemma FlushAllNext(k: nat, q: seq<Block>, i: nat, pos: nat)
    requires i < pos <= |q|
    ensures FlushAll(k, q[i..pos]) == Flush(k, q[i]) + FlushAll(k, q[i + 1..pos])
  {
    hide Flush;
    assert q[i..pos][1..] == q[i + 1..pos];
  }

  lemma WithFragmentKeeps(it: Item, n: nat, f: nat, bytes: seq<gf>)
    requires Shaped(it, n) && f < n && |bytes| <= MAX_FEC_PAYLOAD
    ensures var r := WithFragment(it, n, f, bytes); r.block == it.block && r.toSend == it.toSend
  {}

  lemma AbsFields(it: Item, n: nat)
    requires Shaped(it, n)
    ensures var b := AbsItem(it, n);
            b.idx == it.block && b.toSend == it.toSend && forall f :: f in b.present <==> 0 <= f < n && it.sizes[f] != 0
  {}

  lemma RunEndNext(k: nat, b: Block, f: nat)
    requires f < k && f in b.present
    ensures RunEnd(k, b, f) == RunEnd(k, b, f + 1)
  {}

  lemma RunEndStop(k: nat, b: Block, f: nat)
    requires f >= k || f !in b.present
    ensures RunEnd(k, b, f) == f
  {}

  lemma {:induction false} SlotsSplit(k: nat, idx: nat, lo: nat, mid: nat, hi: nat)
    requires lo <= mid <= hi
    ensures Slots(k, idx, lo, hi) == Slots(k, idx, lo, mid) + Slots(k, idx, mid, hi)
    decreases mid - lo
  {
    if lo < mid {
      SlotsSplit(k, idx, lo + 1, mid, hi);
    }
  }

  lemma HoldsRangeOne(k: nat, log: seq<Packet>, it: Item, f: nat)
    requires it.toSend == f
    ensures f < |it.fragments| && Slot(k, it.block, f) < |log| && Holds(it.fragments[f], log[Slot(k, it.block, f)]) ==>
              HoldsRange(k, log, it, f + 1)
  {}

  /** Replacing one item keeps the counters and the contents right if the new item's are. */
  lemma UpdateKeeps(r0: seq<Item>, k: nat, n: nat, front: nat, alloc: nat, pos: nat, it: Item, log: seq<Packet>)
    requires AllShaped(r0, n) && Shaped(it, n) && pos < alloc <= RING_SIZE
    ensures var r := r0[At(front, pos) := it];
            && AllShaped(r, n)
            && (Counted(r0, n, front, alloc) && it.has == Count(it.sizes, 0, n) ==> Counted(r, n, front, alloc))
            && (AllStored(k, n, log, r0, front, alloc) && Stored(k, n, log, it) ==> AllStored(k, n, log, r, front, alloc))
  {
    hide At, Count, Stored, Shaped;
    var r := r0[At(front, pos) := it];
    forall j | 0 <= j < alloc ensures r[At(front, j)] == if j == pos then it else r0[At(front, j)] {
      if j < pos {
        AtDistinct(front, j, pos);
      } else if pos < j {
        AtDistinct(front, pos, j);
      }
    }
  }

  /** The ring after part of the oldest block has been handed over. */
  lemma SentKeeps(r0: seq<Item>, r: seq<Item>, k: nat, n: nat, front: nat, alloc: nat, it: Item, e: nat, log: seq<Packet>)
    requires AllShaped(r0, n) && front < RING_SIZE && 0 < alloc <= RING_SIZE && Counted(r0, n, front, alloc)
    requires it == r0[front] && r == r0[front := it.(toSend := e)]
    ensures AllShaped(r, n) && Counted(r, n, front, alloc)
    ensures var q := QueueOf(r0, n, front, alloc); QueueOf(r, n, front, alloc) == q[0 := q[0].(toSend := e)]
    ensures AllStored(k, n, log, r0, front, alloc) ==> AllStored(k, n, log, r, front, alloc)
  {
    hide At, Count, Present;
    AtZero(front);
    var it' := it.(toSend := e);
    assert it.has == Count(it.sizes, 0, n) by { assert r0[At(front, 0)] == it; }
    assert AllStored(k, n, log, r0, front, alloc) ==> Stored(k, n, log, it) by { assert r0[At(front, 0)] == it; }
    StoredToSend(k, n, log, it, e);
    QueueUpdate(r0, n, front, alloc, 0, it');
    UpdateKeeps(r0, k, n, front, alloc, 0, it', log);
  }

  lemma StoredToSend(k: nat, n: nat, log: seq<Packet>, it: Item, e: nat)
    requires Shaped(it, n)
    ensures Stored(k, n, log, it.(toSend := e)) <==> Stored(k, n, log, it)
  {
    hide Authentic;
  }

  lemma PushManyNext(k: nat, r: Rx, idx: nat, count: nat)
    requires count > 0
    ensures var p := Push(k, r, idx);
            var s := PushMany(k, p.rx, idx + 1, count - 1);
            PushMany(k, r, idx, count) == Result(s.rx, p.slots + s.slots)
  {
    hide Push;
  }

  lemma PushManyNone(k: nat, r: Rx, idx: nat)
    ensures PushMany(k, r, idx, 0) == Result(r, [])
  {}

  lemma {:induction false} FindFirst(q: seq<Block>, idx: nat, pos: nat)
    requires pos < |q| && q[pos].idx == idx && forall j :: 0 <= j < pos ==> q[j].idx != idx
    ensures Find(q, idx) == pos
  {}

  lemma FindNone(q: seq<Block>, idx: nat)
    requires forall j :: 0 <= j < |q| ==> q[j].idx != idx
    ensures Find(q, idx) == |q|
  {}

  /** What a push leaves in the ring. */
  lemma PushedRing(r0: seq<Item>, r: seq<Item>, k: nat, n: nat, front0: nat, alloc0: nat, front: nat, alloc: nat, ri: nat, idx: nat, log: seq<Packet>)
    requires AllShaped(r0, n) && front0 < RING_SIZE && alloc0 <= RING_SIZE && Counted(r0, n, front0, alloc0)
    requires if alloc0 < RING_SIZE then front == front0 && alloc == alloc0 + 1 else front == At(front0, 1) && alloc == RING_SIZE
    requires ri == At(front, alloc - 1) && r == r0[ri := Fresh(r0[ri], n, idx)]
    ensures AllShaped(r, n) && Counted(r, n, front, alloc)
    ensures var q := QueueOf(r0, n, front0, alloc0) + [Block(idx, {}, 0)];
            QueueOf(r, n, front, alloc) == if alloc0 < RING_SIZE then q else q[1..]
    ensures AllStored(k, n, log, r0, front0, alloc0) ==> AllStored(k, n, log, r, front, alloc)
  {
    hide At, AbsItem, Fresh, Shaped, Stored, Count;
    var it := Fresh(r0[ri], n, idx);
    FreshAbs(r0[ri], k, n, idx, log);
    if alloc0 == RING_SIZE {
      QueueDrop(r0, n, front0, alloc0);
      forall j | 0 <= j < alloc - 1 ensures At(front, j) == At(front0, j + 1) { AtShift(front0, j); }
    }
    QueueAppend(r0, n, front, alloc - 1, it);
    forall j | 0 <= j < alloc - 1 ensures r[At(front, j)] == r0[At(front, j)] {
      AtDistinct(front, j, alloc - 1);
    }
  }

  /** The data buffers from toSend up to hi start with the bodies of their packets. */
  ghost predicate HoldsRange(k: nat, log: seq<Packet>, it: Item, hi: nat) {
    forall f :: it.toSend <= f < hi ==>
      f < |it.fragments| && Slot(k, it.block, f) < |log| && Holds(it.fragments[f], log[Slot(k, it.block, f)])
  }

  lemma HoldsOne(k: nat, log: seq<Packet>, it: Item, hi: nat, f: nat)
    requires HoldsRange(k, log, it, hi) && it.toSend <= f < hi
    ensures f < |it.fragments| && Slot(k, it.block, f) < |log| && Holds(it.fragments[f], log[Slot(k, it.block, f)])
  {}

  lemma SlotsFirst(k: nat, idx: nat, lo: nat, hi: nat)
    requires lo < hi
    ensures Slots(k, idx, lo, hi) == [Slot(k, idx, lo)] + Slots(k, idx, lo + 1, hi)
  {}

  lemma SlotsNone(k: nat, idx: nat, hi: nat)
    ensures Slots(k, idx, hi, hi) == []
  {}
}
