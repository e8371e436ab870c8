/** The receiver's ring as a plain queue of blocks: which slots are handed to the application, and when.
    A slot is the serial number block * k + fragment of a data fragment. */
module RxSpec {

  const RING_SIZE := 40
  const MAX_BLOCK_IDX: nat := 0x7f_ffff_ffff_ffff

  /** A block in the queue: the fragments it holds and the next data fragment to hand over. */
  datatype Block = Block(idx: nat, present: set<nat>, toSend: nat)

  /** The queue, oldest block first, and the newest block ever seen (-1 before the first). */
  datatype Rx = Rx(queue: seq<Block>, last: int)

  const INIT := Rx([], -1)

  datatype Result = Result(rx: Rx, slots: seq<nat>)

  /** The first slot of a block. */
  function Base(k: nat, idx: nat): nat {
    idx * k
  }

  lemma BaseNext(k: nat, idx: nat)
    ensures Base(k, idx + 1) == Base(k, idx) + k
  {}

  lemma BaseLeq(k: nat, i: nat, j: nat)
    requires i <= j
    ensures Base(k, i) <= Base(k, j)
  {}

  /** The held data fragments from f on. */
  function FlushFrom(k: nat, b: Block, f: nat): seq<nat>
    decreases k - f
  {
    if f >= k then []
    else (if f in b.present then [Base(k, b.idx) + f] else []) + FlushFrom(k, b, f + 1)
  }

  function Flush(k: nat, b: Block): seq<nat> {
    FlushFrom(k, b, b.toSend)
  }

  function FlushAll(k: nat, q: seq<Block>): seq<nat> {
    if |q| == 0 then [] else Flush(k, q[0]) + FlushAll(k, q[1..])
  }

  /** The slots of fragments lo .. hi - 1 of a block. */
  function Slots(k: nat, idx: nat, lo: nat, hi: nat): seq<nat>
    decreases hi - lo
  {
    if lo >= hi then [] else [Base(k, idx) + lo] + Slots(k, idx, lo + 1, hi)
  }

  /** How far the block can be handed over without a gap. */
  function RunEnd(k: nat, b: Block, f: nat): (e: nat)
    ensures f <= e && (f <= k ==> e <= k)
    ensures forall j :: f <= j < e ==> j in b.present
    ensures e < k ==> e !in b.present
    decreases k - f
  {
    if f < k && f in b.present then RunEnd(k, b, f + 1) else f
  }

  /** Append one block, overriding the oldest when the ring is full. */
  function Push(k: nat, r: Rx, idx: nat): (p: Result)
    ensures |p.rx.queue| > 0 && p.rx.last == r.last
  {
    var q := r.queue + [Block(idx, {}, 0)];
    if |r.queue| < RING_SIZE then Result(Rx(q, r.last), [])
    else Result(Rx(q[1..], r.last), Flush(k, r.queue[0]))
  }

  /** Append the blocks idx .. idx + count - 1. */
  function PushMany(k: nat, r: Rx, idx: nat, count: nat): (p: Result)
    ensures p.rx.last == r.last && (count > 0 ==> |p.rx.queue| > 0)
    decreases count
  {
    if count == 0 then Result(r, [])
    else
      var p := Push(k, r, idx);
      var s := PushMany(k, p.rx, idx + 1, count - 1);
      Result(s.rx, p.slots + s.slots)
  }

  /** Position of a block in the queue, or its length. */
  function Find(q: seq<Block>, idx: nat): (i: nat)
    ensures i <= |q| && (i < |q| ==> q[i].idx == idx)
    ensures forall j :: 0 <= j < i ==> q[j].idx != idx
  {
    if |q| == 0 || q[0].idx == idx then 0 else 1 + Find(q[1..], idx)
  }

  /** A new fragment f for the block at position i. */
  function Insert(k: nat, r: Rx, i: nat, f: nat): (s: Result)
    requires i < |r.queue|
    ensures s.rx.last == r.last
  {
    var b := r.queue[i];
    if f in b.present then Result(r, [])
    else
      var b1 := b.(present := b.present + {f});
      var e := if i == 0 then RunEnd(k, b1, b.toSend) else b.toSend;
      var b2 := b1.(toSend := e);
      var ready := Slots(k, b.idx, b.toSend, e);
      if i == 0 && e == k then Result(r.(queue := r.queue[1..]), ready)
      else if e < k && |b2.present| == k then
        Result(r.(queue := r.queue[i + 1..]), ready + FlushAll(k, r.queue[..i]) + Slots(k, b.idx, e, k))
      else Result(r.(queue := r.queue[i := b2]), ready)
  }

  /** How many blocks a new block brings into the ring. */
  function NewBlocks(r: Rx, idx: nat): (n: nat)
    requires -1 <= r.last < idx
    ensures 1 <= n <= RING_SIZE && n <= idx + 1
  {
    var d := if r.last == -1 then 1 else idx - r.last;
    if d < RING_SIZE then d else RING_SIZE
  }

  /** The ring with a new block at its end. */
  function Locate(k: nat, r: Rx, idx: nat): (p: Result)
    requires -1 <= r.last < idx
    ensures p.rx.last == idx && |p.rx.queue| > 0
  {
    var n := NewBlocks(r, idx);
    PushMany(k, r.(last := idx), idx + 1 - n, n)
  }

  /** One fragment received. */
  function Step(k: nat, n: nat, r: Rx, idx: nat, f: nat): (s: Result)
    requires r.last >= -1
    ensures s.rx.last >= -1
  {
    if idx > MAX_BLOCK_IDX || f >= n then Result(r, [])
    else
      var i := Find(r.queue, idx);
      if i < |r.queue| then Insert(k, r, i, f)
      else if idx <= r.last then Result(r, [])
      else
        var p := Locate(k, r, idx);
        var s := Insert(k, p.rx, |p.rx.queue| - 1, f);
        Result(s.rx, p.slots + s.slots)
  }

  /** A sequence of fragments received, each given by block and fragment number. */
  function Run(k: nat, n: nat, air: seq<(nat, nat)>): (s: Result)
    ensures s.rx.last >= -1
  {
    if |air| == 0 then Result(INIT, [])
    else
      var m := |air| - 1;
      var p := Run(k, n, air[..m]);
      var s := Step(k, n, p.rx, air[m].0, air[m].1);
      Result(s.rx, p.slots + s.slots)
  }

  // ----- what every step keeps

  ghost predicate BlockOk(k: nat, n: nat, b: Block) {
    && (forall f :: f in b.present ==> f < n)
    && |b.present| < k
    && b.toSend < k && (forall f :: 0 <= f < b.toSend ==> f in b.present)
  }

  /** The ring shape: consecutive blocks up to the newest, each short of k fragments, and only the
      oldest partly handed over. */
  ghost predicate Valid(k: nat, n: nat, r: Rx) {
    && 1 <= k <= n
    && r.last >= -1 && |r.queue| <= RING_SIZE && |r.queue| <= r.last + 1
    && (forall i :: 0 <= i < |r.queue| ==> r.queue[i].idx == r.last + 1 - |r.queue| + i)
    && (forall i :: 0 <= i < |r.queue| ==> BlockOk(k, n, r.queue[i]))
    && (forall i :: 0 < i < |r.queue| ==> r.queue[i].toSend == 0)
  }

  /** The first slot that may still be handed over. */
  function Frontier(k: nat, r: Rx): nat
    requires r.last >= -1
  {
    if |r.queue| > 0 then Base(k, r.queue[0].idx) + r.queue[0].toSend else Base(k, r.last + 1)
  }

  /** Strictly increasing slots in [lo, hi). */
  ghost predicate Increasing(s: seq<nat>, lo: int, hi: int) {
    && (forall i :: 0 <= i < |s| ==> lo <= s[i] < hi)
    && (forall i, j :: 0 <= i < j < |s| ==> s[i] < s[j])
  }

  lemma IncreasingConcat(s: seq<nat>, t: seq<nat>, lo: int, mid: int, hi: int)
    requires lo <= mid <= hi && Increasing(s, lo, mid) && Increasing(t, mid, hi)
    ensures Increasing(s + t, lo, hi)
  {}

  lemma {:induction false} FlushFromIncreasing(k: nat, b: Block, f: nat)
    requires f <= k
    ensures Increasing(FlushFrom(k, b, f), Base(k, b.idx) + f, Base(k, b.idx) + k)
    decreases k - f
  {
    if f < k {
      FlushFromIncreasing(k, b, f + 1);
      var s := if f in b.present then [Base(k, b.idx) + f] else [];
      var base := Base(k, b.idx);
      assert Increasing(s, base + f, base + f + 1);
      IncreasingConcat(s, FlushFrom(k, b, f + 1), base + f, base + f + 1, base + k);
    }
  }

  lemma {:induction false} SlotsIncreasing(k: nat, idx: nat, lo: nat, hi: nat)
    requires lo <= hi
    ensures Increasing(Slots(k, idx, lo, hi), Base(k, idx) + lo, Base(k, idx) + hi)
    decreases hi - lo
  {
    if lo < hi {
      SlotsIncreasing(k, idx, lo + 1, hi);
      var base := Base(k, idx);
      IncreasingConcat([base + lo], Slots(k, idx, lo + 1, hi), base + lo, base + lo + 1, base + hi);
    }
  }

  /** Consecutive blocks, the first partly handed over, the others not at all. */
  ghost predicate Consecutive(k: nat, q: seq<Block>) {
    && (forall i :: 0 <= i < |q| ==> q[i].idx == q[0].idx + i && q[i].toSend <= k)
    && (forall i :: 0 < i < |q| ==> q[i].toSend == 0)
  }

  lemma {:induction false} FlushAllIncreasing(k: nat, q: seq<Block>)
    requires |q| > 0 && Consecutive(k, q)
    ensures Increasing(FlushAll(k, q), Base(k, q[0].idx) + q[0].toSend, Base(k, q[0].idx + |q|))
  {
    hide Base;
    var lo, mid, hi := Base(k, q[0].idx) + q[0].toSend, Base(k, q[0].idx + 1), Base(k, q[0].idx + |q|);
    FlushFromIncreasing(k, q[0], q[0].toSend);
    BaseNext(k, q[0].idx);
    if |q| > 1 {
      var t := q[1..];
      assert t[0] == q[1];
      forall i | 0 <= i < |t| ensures t[i].idx == t[0].idx + i && t[i].toSend <= k { assert t[i] == q[i + 1]; }
      FlushAllIncreasing(k, t);
      BaseLeq(k, q[0].idx + 1, q[0].idx + |q|);
      IncreasingConcat(Flush(k, q[0]), FlushAll(k, t), lo, mid, hi);
    } else {
      assert FlushAll(k, q[1..]) == [];
      assert FlushAll(k, q) == Flush(k, q[0]);
    }
  }

  // ----- pushing several blocks at once

  function News(idx: nat, count: nat): (q: seq<Block>)
    ensures |q| == count && forall i :: 0 <= i < count ==> q[i] == Block(idx + i, {}, 0)
  {
    seq(count, i requires 0 <= i < count => Block(idx + i, {}, 0))
  }

  /** How many of the oldest blocks give way. */
  function Dropped(q: seq<Block>, count: nat): nat {
    if |q| + count > RING_SIZE then |q| + count - RING_SIZE else 0
  }

  /** A multi-push keeps the newest blocks: it evicts old ones only, and flushes exactly those. */
  lemma {:induction false} PushManyKeepsNewest(k: nat, r: Rx, idx: nat, count: nat)
    requires |r.queue| <= RING_SIZE && count <= RING_SIZE
    ensures var d := Dropped(r.queue, count);
            PushMany(k, r, idx, count) == Result(r.(queue := r.queue[d..] + News(idx, count)), FlushAll(k, r.queue[..d]))
    decreases count
  {
    hide FlushAll, Flush;
    var q := r.queue;
    if count == 0 {
      FlushAllEmpty(k);
      assert q[..0] == [] && q[0..] + News(idx, 0) == q;
    } else {
      var p := Push(k, r, idx);
      var d, d' := Dropped(q, count), Dropped(p.rx.queue, count - 1);
      PushManyKeepsNewest(k, p.rx, idx + 1, count - 1);
      assert News(idx, count) == [Block(idx, {}, 0)] + News(idx + 1, count - 1);
      assert p.rx.queue[d'..] + News(idx + 1, count - 1) == q[d..] + News(idx, count);
      if |q| < RING_SIZE {
        assert p.rx.queue[..d'] == q[..d];
      } else {
        assert p.rx.queue[..d'] == q[1..d];
        FlushAllFirst(k, q, d);
      }
    }
  }

  lemma FlushAllFirst(k: nat, q: seq<Block>, d: nat)
    requires 0 < d <= |q|
    ensures FlushAll(k, q[..d]) == Flush(k, q[0]) + FlushAll(k, q[1..d])
  {
    hide Flush;
    assert q[..d][1..] == q[1..d];
  }

  /** The ring after a new block: the newest old blocks and the new ones. */
  function Located(r: Rx, idx: nat): Rx
    requires -1 <= r.last < idx && |r.queue| <= RING_SIZE
  {
    var c := NewBlocks(r, idx);
    Rx(r.queue[Dropped(r.queue, c)..] + News(idx + 1 - c, c), idx)
  }

  /** A new block enters: the ring keeps its shape and only slots before its new front are handed over. */
  lemma LocateKeeps(k: nat, n: nat, r: Rx, idx: nat)
    requires Valid(k, n, r) && r.last < idx
    ensures var p := Locate(k, r, idx);
            && p.rx == Located(r, idx)
            && Valid(k, n, p.rx)
            && p.rx.queue[|p.rx.queue| - 1] == Block(idx, {}, 0)
            && Increasing(p.slots, Frontier(k, r), Frontier(k, p.rx))
            && Frontier(k, r) <= Frontier(k, p.rx)
  {
    hide FlushAll, PushMany, Increasing, Frontier;
    var c := NewBlocks(r, idx);
    PushManyKeepsNewest(k, r.(last := idx), idx + 1 - c, c);
    LocateShape(k, n, r, idx);
    LocateSlots(k, n, r, idx);
  }

  lemma LocateSlots(k: nat, n: nat, r: Rx, idx: nat)
    requires Valid(k, n, r) && r.last < idx
    ensures var s := FlushAll(k, r.queue[..Dropped(r.queue, NewBlocks(r, idx))]);
            var lo, hi := Frontier(k, r), Frontier(k, Located(r, idx));
            Increasing(s, lo, hi) && lo <= hi
  {
    hide FlushAll, BlockOk, Base;
    var c := NewBlocks(r, idx);
    var q, d, q' := r.queue, Dropped(r.queue, c), Located(r, idx).queue;
    if d > 0 {
      forall i | 0 <= i < d ensures q[..d][i].toSend <= k { BlockToSend(k, n, q[i]); }
      FlushAllIncreasing(k, q[..d]);
      BaseLeq(k, q[0].idx + d, q'[0].idx);
      BlockToSend(k, n, q[0]);
      BaseNext(k, q[0].idx);
      BaseLeq(k, q[0].idx + 1, q[0].idx + d);
    } else {
      assert q[..0] == [];
      FlushAllEmpty(k);
      if |q| == 0 {
        BaseLeq(k, r.last + 1, q'[0].idx);
      }
    }
  }

  lemma BlockToSend(k: nat, n: nat, b: Block)
    requires BlockOk(k, n, b)
    ensures b.toSend < k
  {}

  lemma FlushAllEmpty(k: nat)
    ensures FlushAll(k, []) == []
  {}

  lemma LocateShape(k: nat, n: nat, r: Rx, idx: nat)
    requires Valid(k, n, r) && r.last < idx
    ensures var c := NewBlocks(r, idx);
            var d := Dropped(r.queue, c);
            d <= |r.queue| && Valid(k, n, Rx(r.queue[d..] + News(idx + 1 - c, c), idx))
  {
    var c := NewBlocks(r, idx);
    var q, d := r.queue, Dropped(r.queue, c);
    var q' := q[d..] + News(idx + 1 - c, c);
    forall i | 0 <= i < |q'|
      ensures q'[i].idx == idx + 1 - |q'| + i && BlockOk(k, n, q'[i]) && (i > 0 ==> q'[i].toSend == 0)
    {
      if i < |q| - d {
        assert q'[i] == q[d + i];
      }
    }
  }

  // ----- inserting a fragment

  /** The block after fragment f has come and everything ready has been handed over. */
  function Updated(k: nat, r: Rx, i: nat, f: nat): (b: Block)
    requires i < |r.queue|
    ensures b.idx == r.queue[i].idx && b.present == r.queue[i].present + {f} && b.toSend >= r.queue[i].toSend
  {
    var b := r.queue[i].(present := r.queue[i].present + {f});
    if i == 0 then b.(toSend := RunEnd(k, b, b.toSend)) else b
  }

  lemma UpdatedOk(k: nat, n: nat, r: Rx, i: nat, f: nat)
    requires Valid(k, n, r) && i < |r.queue| && f < n && f !in r.queue[i].present
    ensures var b := Updated(k, r, i, f);
            && |b.present| == |r.queue[i].present| + 1 <= k && b.toSend <= k
            && (i > 0 ==> b.toSend == 0)
            && (b.toSend < k && |b.present| < k ==> BlockOk(k, n, b))
  {
    assert BlockOk(k, n, r.queue[i]);
  }

  /** The three outcomes of a new fragment. */
  lemma InsertCases(k: nat, r: Rx, i: nat, f: nat)
    requires i < |r.queue| && f !in r.queue[i].present
    ensures var b := Updated(k, r, i, f);
            var ready := Slots(k, b.idx, r.queue[i].toSend, b.toSend);
            Insert(k, r, i, f) ==
              if i == 0 && b.toSend == k then Result(r.(queue := r.queue[1..]), ready)
              else if b.toSend < k && |b.present| == k then
                Result(r.(queue := r.queue[i + 1..]), ready + FlushAll(k, r.queue[..i]) + Slots(k, b.idx, b.toSend, k))
              else Result(r.(queue := r.queue[i := b]), ready)
  {
    hide RunEnd, Slots, FlushAll;
  }

  /** Dropping the first i + 1 blocks keeps the shape; the new frontier is the next block. */
  lemma DropKeeps(k: nat, n: nat, r: Rx, i: nat)
    requires Valid(k, n, r) && i < |r.queue|
    ensures var r' := r.(queue := r.queue[i + 1..]);
            Valid(k, n, r') && Frontier(k, r') == Base(k, r.queue[i].idx + 1)
  {
    hide BlockOk;
    var r' := r.(queue := r.queue[i + 1..]);
    forall j | 0 <= j < |r'.queue| ensures r'.queue[j] == r.queue[i + 1 + j] {}
    if |r'.queue| > 0 {
      assert r'.queue[0] == r.queue[i + 1] && r.queue[i + 1].toSend == 0;
    } else {
      assert r.queue[i].idx == r.last;
    }
  }

  lemma InsertSlots(k: nat, n: nat, r: Rx, i: nat, f: nat)
    requires Valid(k, n, r) && i < |r.queue| && f < n && f !in r.queue[i].present
    ensures var b := Updated(k, r, i, f);
            var ready := Slots(k, b.idx, r.queue[i].toSend, b.toSend);
            && (i == 0 ==> Increasing(ready, Frontier(k, r), Base(k, b.idx) + b.toSend))
            && (i > 0 ==> ready == [])
            && Increasing(ready + FlushAll(k, r.queue[..i]) + Slots(k, b.idx, b.toSend, k), Frontier(k, r), Base(k, b.idx + 1))
  {
    hide Slots, FlushAll, BlockOk, Increasing, Base, Updated;
    var q, b := r.queue, Updated(k, r, i, f);
    UpdatedOk(k, n, r, i, f);
    BaseNext(k, b.idx);
    SlotsIncreasing(k, b.idx, b.toSend, k);
    if i == 0 {
      assert q[..0] == [];
      FlushAllEmpty(k);
      SlotsIncreasing(k, b.idx, q[0].toSend, b.toSend);
      var ready := Slots(k, b.idx, q[0].toSend, b.toSend);
      IncreasingConcat(ready, Slots(k, b.idx, b.toSend, k), Frontier(k, r), Base(k, b.idx) + b.toSend, Base(k, b.idx + 1));
      assert ready + [] == ready;
    } else {
      SlotsEmpty(k, b.idx, 0);
      forall j | 0 <= j < i ensures q[..i][j].toSend <= k { BlockToSend(k, n, q[j]); }
      FlushAllIncreasing(k, q[..i]);
      var all := FlushAll(k, q[..i]);
      BaseNext(k, q[0].idx);
      BaseLeq(k, q[0].idx + 1, b.idx);
      BlockToSend(k, n, q[0]);
      IncreasingConcat(all, Slots(k, b.idx, 0, k), Frontier(k, r), Base(k, b.idx), Base(k, b.idx + 1));
      assert [] + all == all;
    }
  }

  lemma SlotsEmpty(k: nat, idx: nat, lo: nat)
    ensures Slots(k, idx, lo, lo) == []
  {}

  lemma InsertKeeps(k: nat, n: nat, r: Rx, i: nat, f: nat)
    requires Valid(k, n, r) && i < |r.queue| && f < n
    ensures var s := Insert(k, r, i, f);
            && Valid(k, n, s.rx)
            && Increasing(s.slots, Frontier(k, r), Frontier(k, s.rx))
            && Frontier(k, r) <= Frontier(k, s.rx)
  {
    hide Slots, FlushAll, BlockOk, Increasing, Insert, Base, Updated;
    var q, s := r.queue, Insert(k, r, i, f);
    if f in q[i].present {
      InsertNothing(k, r, i, f);
    } else {
      var b := Updated(k, r, i, f);
      InsertCases(k, r, i, f);
      UpdatedOk(k, n, r, i, f);
      InsertSlots(k, n, r, i, f);
      DropKeeps(k, n, r, i);
      BlockToSend(k, n, q[0]);
      BaseNext(k, q[0].idx);
      BaseLeq(k, q[0].idx + 1, q[i].idx + 1);
      if (i == 0 && b.toSend == k) || (b.toSend < k && |b.present| == k) {
      } else {
        assert s.rx.queue == q[i := b];
        if i > 0 {
          NothingIncreasing(Frontier(k, r), Frontier(k, s.rx));
        }
      }
    }
  }

  lemma NothingIncreasing(lo: int, hi: int)
    ensures Increasing([], lo, hi)
  {}

  lemma InsertNothing(k: nat, r: Rx, i: nat, f: nat)
    requires i < |r.queue| && f in r.queue[i].present
    ensures Insert(k, r, i, f) == Result(r, []) && forall lo, hi :: Increasing([], lo, hi)
  {}

  lemma ValidLast(k: nat, n: nat, r: Rx)
    requires Valid(k, n, r)
    ensures r.last >= -1 && 1 <= k <= n
  {}

  /** Every step keeps the ring shape and hands over increasing slots below the new frontier. */
  lemma StepKeeps(k: nat, n: nat, r: Rx, idx: nat, f: nat)
    requires Valid(k, n, r)
    ensures var s := Step(k, n, r, idx, f);
            && Valid(k, n, s.rx)
            && Increasing(s.slots, Frontier(k, r), Frontier(k, s.rx))
            && Frontier(k, r) <= Frontier(k, s.rx)
  {
    hide Valid, Increasing, Insert, Locate, Frontier;
    ValidLast(k, n, r);
    if idx <= MAX_BLOCK_IDX && f < n {
      var i := Find(r.queue, idx);
      if i < |r.queue| {
        InsertKeeps(k, n, r, i, f);
      } else if idx > r.last {
        LocateKeeps(k, n, r, idx);
        var p := Locate(k, r, idx);
        var j := |p.rx.queue| - 1;
        InsertKeeps(k, n, p.rx, j, f);
        var s := Insert(k, p.rx, j, f);
        IncreasingConcat(p.slots, s.slots, Frontier(k, r), Frontier(k, p.rx), Frontier(k, s.rx));
      }
    }
    NothingIncreasing(Frontier(k, r), Frontier(k, r));
  }

  /** Over every run the ring keeps its shape and the slots handed over strictly increase. */
  lemma {:induction false} RunKeeps(k: nat, n: nat, air: seq<(nat, nat)>)
    requires 1 <= k <= n
    ensures var s := Run(k, n, air);
            Valid(k, n, s.rx) && Increasing(s.slots, 0, Frontier(k, s.rx)) && Frontier(k, s.rx) >= 0
  {
    hide Step;
    if |air| > 0 {
      var m := |air| - 1;
      var p := Run(k, n, air[..m]);
      RunKeeps(k, n, air[..m]);
      StepKeeps(k, n, p.rx, air[m].0, air[m].1);
      var s := Step(k, n, p.rx, air[m].0, air[m].1);
      IncreasingConcat(p.slots, s.slots, 0, Frontier(k, p.rx), Frontier(k, s.rx));
    }
  }

  // ----- completeness

  /** The distinct valid fragments of block b among those received. */
  function Arrived(n: nat, air: seq<(nat, nat)>, b: nat): set<nat> {
    if |air| == 0 then {}
    else
      var (idx, f) := air[|air| - 1];
      Arrived(n, air[..|air| - 1], b) + (if idx == b && idx <= MAX_BLOCK_IDX && f < n then {f} else {})
  }

  /** The ring remembers: a block in it holds all its fragments that ever arrived, blocks beyond the
      newest have none, and what the oldest block has handed over is among the slots. */
  ghost predicate Remembers(k: nat, n: nat, air: seq<(nat, nat)>, r: Rx, slots: seq<nat>) {
    && (forall i :: 0 <= i < |r.queue| ==> r.queue[i].present == Arrived(n, air, r.queue[i].idx))
    && (forall b: nat :: b > r.last ==> Arrived(n, air, b) == {})
    && (|r.queue| > 0 ==> HandedOver(k, r.queue[0].idx, r.queue[0].toSend, slots))
  }

  function Slot(k: nat, idx: nat, j: nat): nat {
    Base(k, idx) + j
  }

  /** The first hi data fragments of a block are among the slots. */
  ghost predicate HandedOver(k: nat, idx: nat, hi: nat, slots: seq<nat>) {
    forall j :: 0 <= j < hi ==> Slot(k, idx, j) in slots
  }

  lemma {:induction false} SlotsMember(k: nat, idx: nat, lo: nat, hi: nat, j: nat)
    requires lo <= j < hi
    ensures Slot(k, idx, j) in Slots(k, idx, lo, hi)
    decreases hi - lo
  {
    if lo < j {
      SlotsMember(k, idx, lo + 1, hi, j);
    }
  }

  /** What one more fragment does to the arrivals. */
  lemma ArrivedStep(n: nat, air: seq<(nat, nat)>, idx: nat, f: nat, b: nat)
    ensures Arrived(n, air + [(idx, f)], b) ==
            Arrived(n, air, b) + (if idx == b && idx <= MAX_BLOCK_IDX && f < n then {f} else {})
  {
    assert (air + [(idx, f)])[..|air|] == air;
  }

  lemma HandOverMore(k: nat, idx: nat, lo: nat, hi: nat, slots: seq<nat>, more: seq<nat>)
    requires HandedOver(k, idx, lo, slots)
    requires forall s :: s in Slots(k, idx, lo, hi) ==> s in more
    ensures HandedOver(k, idx, hi, slots + more)
  {
    hide Slot, Slots;
    forall j | 0 <= j < hi ensures Slot(k, idx, j) in slots + more {
      if j >= lo {
        SlotsMember(k, idx, lo, hi, j);
      }
    }
  }

  /** Inserting a fragment into a ring that remembers. */
  lemma InsertRemembers(k: nat, n: nat, air: seq<(nat, nat)>, r: Rx, slots: seq<nat>, i: nat, f: nat)
    requires Valid(k, n, r) && Remembers(k, n, air, r, slots) && i < |r.queue| && f < n && r.queue[i].idx <= MAX_BLOCK_IDX
    ensures var s := Insert(k, r, i, f);
            Remembers(k, n, air + [(r.queue[i].idx, f)], s.rx, slots + s.slots)
  {
    hide Slots, FlushAll, Slot, Arrived, RunEnd, BlockOk, Insert, Updated, Remembers;
    var q := r.queue;
    if f in q[i].present {
      InsertNothing(k, r, i, f);
      DuplicateRemembers(k, n, air, r, slots, i, f);
      assert slots + [] == slots;
    } else {
      InsertCases(k, r, i, f);
      var s, b := Insert(k, r, i, f), Updated(k, r, i, f);
      if (i == 0 && b.toSend == k) || (b.toSend < k && |b.present| == k) {
        DropRemembers(k, n, air, r, slots, s.slots, i, f);
      } else {
        if i == 0 {
          assert HandedOver(k, q[0].idx, q[0].toSend, slots) by { RemembersFront(k, n, air, r, slots); }
          HandOverMore(k, q[0].idx, q[0].toSend, b.toSend, slots, s.slots);
        }
        UpdateRemembers(k, n, air, r, slots, s.slots, i, f, b);
      }
    }
  }

  lemma RemembersFront(k: nat, n: nat, air: seq<(nat, nat)>, r: Rx, slots: seq<nat>)
    requires Remembers(k, n, air, r, slots) && |r.queue| > 0
    ensures HandedOver(k, r.queue[0].idx, r.queue[0].toSend, slots)
  {}

  lemma DuplicateRemembers(k: nat, n: nat, air: seq<(nat, nat)>, r: Rx, slots: seq<nat>, i: nat, f: nat)
    requires Remembers(k, n, air, r, slots) && i < |r.queue| && f in r.queue[i].present && r.queue[i].idx <= r.last
    ensures Remembers(k, n, air + [(r.queue[i].idx, f)], r, slots)
  {
    hide HandedOver, Arrived;
    AllArrivals(n, air, r.queue[i].idx, f);
  }

  lemma AllArrivals(n: nat, air: seq<(nat, nat)>, idx: nat, f: nat)
    ensures forall b: nat :: Arrived(n, air + [(idx, f)], b) ==
              Arrived(n, air, b) + (if idx == b && idx <= MAX_BLOCK_IDX && f < n then {f} else {})
  {
    hide Arrived;
    forall b: nat ensures Arrived(n, air + [(idx, f)], b) ==
            Arrived(n, air, b) + (if idx == b && idx <= MAX_BLOCK_IDX && f < n then {f} else {}) {
      ArrivedStep(n, air, idx, f, b);
    }
  }

  lemma DropRemembers(k: nat, n: nat, air: seq<(nat, nat)>, r: Rx, slots: seq<nat>, more: seq<nat>, i: nat, f: nat)
    requires Valid(k, n, r) && Remembers(k, n, air, r, slots) && i < |r.queue|
    ensures Remembers(k, n, air + [(r.queue[i].idx, f)], r.(queue := r.queue[i + 1..]), slots + more)
  {
    hide Arrived, BlockOk, Slot;
    AllArrivals(n, air, r.queue[i].idx, f);
    var q' := r.queue[i + 1..];
    forall j | 0 <= j < |q'| ensures q'[j] == r.queue[i + 1 + j] {}
  }

  lemma UpdateRemembers(k: nat, n: nat, air: seq<(nat, nat)>, r: Rx, slots: seq<nat>, more: seq<nat>, i: nat, f: nat, b: Block)
    requires Valid(k, n, r) && Remembers(k, n, air, r, slots) && i < |r.queue| && f < n && b.idx <= MAX_BLOCK_IDX
    requires b.idx == r.queue[i].idx && b.present == r.queue[i].present + {f}
    requires i == 0 ==> HandedOver(k, b.idx, b.toSend, slots + more)
    ensures Remembers(k, n, air + [(b.idx, f)], r.(queue := r.queue[i := b]), slots + more)
  {
    hide Arrived, BlockOk, Slot;
    AllArrivals(n, air, b.idx, f);
  }

  /** A new block enters a ring that remembers. */
  lemma LocateRemembers(k: nat, n: nat, air: seq<(nat, nat)>, r: Rx, slots: seq<nat>, idx: nat)
    requires Valid(k, n, r) && Remembers(k, n, air, r, slots) && r.last < idx
    ensures var p := Locate(k, r, idx);
            Remembers(k, n, air, p.rx, slots + p.slots)
  {
    hide Slot, Arrived, BlockOk, Locate;
    LocateKeeps(k, n, r, idx);
    var p, d := Locate(k, r, idx), Dropped(r.queue, NewBlocks(r, idx));
    var q' := p.rx.queue;
    forall i | 0 <= i < |q'| ensures q'[i].present == Arrived(n, air, q'[i].idx) {
      if i < |r.queue| - d {
        assert q'[i] == r.queue[d + i];
      } else {
        assert q'[i].idx > r.last;
      }
    }
    if |q'| > 0 && |r.queue| > d {
      assert q'[0] == r.queue[d];
    }
  }

  lemma StepRemembers(k: nat, n: nat, air: seq<(nat, nat)>, r: Rx, slots: seq<nat>, idx: nat, f: nat)
    requires Valid(k, n, r) && Remembers(k, n, air, r, slots)
    ensures var s := Step(k, n, r, idx, f);
            Remembers(k, n, air + [(idx, f)], s.rx, slots + s.slots)
  {
    hide Insert, Locate, Valid, Remembers;
    ValidLast(k, n, r);
    var i := Find(r.queue, idx);
    if idx <= MAX_BLOCK_IDX && f < n && i < |r.queue| {
      InsertRemembers(k, n, air, r, slots, i, f);
    } else if idx <= MAX_BLOCK_IDX && f < n && idx > r.last {
      LocateRemembers(k, n, air, r, slots, idx);
      LocateKeeps(k, n, r, idx);
      var p := Locate(k, r, idx);
      InsertRemembers(k, n, air, p.rx, slots + p.slots, |p.rx.queue| - 1, f);
      var s := Insert(k, p.rx, |p.rx.queue| - 1, f);
      assert slots + (p.slots + s.slots) == slots + p.slots + s.slots;
    } else {
      StepIgnores(k, n, air, r, slots, idx, f);
      assert slots + [] == slots;
    }
  }

  lemma StepIgnores(k: nat, n: nat, air: seq<(nat, nat)>, r: Rx, slots: seq<nat>, idx: nat, f: nat)
    requires Valid(k, n, r) && Remembers(k, n, air, r, slots)
    requires idx > MAX_BLOCK_IDX || f >= n || (idx <= r.last && Find(r.queue, idx) == |r.queue|)
    ensures Remembers(k, n, air + [(idx, f)], r, slots)
  {
    hide Slot, Arrived, BlockOk;
    forall b: nat ensures Arrived(n, air + [(idx, f)], b) ==
            Arrived(n, air, b) + (if idx == b && idx <= MAX_BLOCK_IDX && f < n then {f} else {}) {
      ArrivedStep(n, air, idx, f, b);
    }
  }

  lemma {:induction false} RunRemembers(k: nat, n: nat, air: seq<(nat, nat)>)
    requires 1 <= k <= n
    ensures var s := Run(k, n, air); Remembers(k, n, air, s.rx, s.slots)
  {
    hide Step;
    if |air| > 0 {
      var m := |air| - 1;
      var p := Run(k, n, air[..m]);
      RunRemembers(k, n, air[..m]);
      RunKeeps(k, n, air[..m]);
      StepRemembers(k, n, air[..m], p.rx, p.slots, air[m].0, air[m].1);
      assert air[..m] + [(air[m].0, air[m].1)] == air;
    }
  }

  /** Block b is in the ring, or newer than anything in it. */
  predicate Receivable(r: Rx, b: nat) {
    Find(r.queue, b) < |r.queue| || b > r.last
  }

  /** When the k-th distinct fragment of a receivable block arrives, all k of its slots have been
      handed over and the block has left the ring. */
  lemma KthFragmentCompletes(k: nat, n: nat, air: seq<(nat, nat)>, b: nat, f: nat)
    requires 1 <= k <= n && b <= MAX_BLOCK_IDX && f < n
    requires Receivable(Run(k, n, air).rx, b)
    requires |Arrived(n, air + [(b, f)], b)| >= k
    ensures var s := Run(k, n, air + [(b, f)]);
            HandedOver(k, b, k, s.slots) && Find(s.rx.queue, b) == |s.rx.queue|
  {
    hide Insert, Locate, Arrived, Slots, FlushAll, Slot, RunEnd;
    var p := Run(k, n, air);
    RunKeeps(k, n, air);
    RunRemembers(k, n, air);
    ArrivedStep(n, air, b, f, b);
    assert (air + [(b, f)])[..|air|] == air;
    var i := Find(p.rx.queue, b);
    if i < |p.rx.queue| {
      InsertCompletes(k, n, p.rx, p.slots, i, f);
    } else {
      LocateKeeps(k, n, p.rx, b);
      LocateRemembers(k, n, air, p.rx, p.slots, b);
      var l := Locate(k, p.rx, b);
      InsertCompletes(k, n, l.rx, p.slots + l.slots, |l.rx.queue| - 1, f);
      var s := Insert(k, l.rx, |l.rx.queue| - 1, f);
      assert p.slots + (l.slots + s.slots) == p.slots + l.slots + s.slots;
    }
  }

  lemma GrowsOnlyIfNew(s: set<nat>, f: nat)
    ensures f in s ==> |s + {f}| == |s|
  {
    if f in s {
      assert s + {f} == s;
    }
  }

  lemma InsertCompletes(k: nat, n: nat, r: Rx, slots: seq<nat>, i: nat, f: nat)
    requires Valid(k, n, r) && i < |r.queue| && f < n
    requires |r.queue[i].present + {f}| >= k
    requires HandedOver(k, r.queue[0].idx, r.queue[0].toSend, slots)
    ensures var s := Insert(k, r, i, f);
            HandedOver(k, r.queue[i].idx, k, slots + s.slots) && Find(s.rx.queue, r.queue[i].idx) == |s.rx.queue|
  {
    hide Slots, FlushAll, Slot, Insert, RunEnd;
    var q, s, b := r.queue, Insert(k, r, i, f), Updated(k, r, i, f);
    assert BlockOk(k, n, q[i]);
    GrowsOnlyIfNew(q[i].present, f);
    InsertCases(k, r, i, f);
    UpdatedOk(k, n, r, i, f);
    var ready, rest := Slots(k, b.idx, q[i].toSend, b.toSend), Slots(k, b.idx, b.toSend, k);
    HandOverMore(k, b.idx, q[i].toSend, b.toSend, slots, ready);
    if b.toSend < k {
      HandOverMore(k, b.idx, b.toSend, k, slots + ready, FlushAll(k, q[..i]) + rest);
      assert slots + ready + (FlushAll(k, q[..i]) + rest) == slots + s.slots;
    }
    forall j | 0 <= j < |s.rx.queue| ensures s.rx.queue[j].idx != b.idx {
      assert s.rx.queue[j] == q[i + 1 + j];
    }
  }
}
