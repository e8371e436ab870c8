/** Exactly what the receiver hands over, block by block, over every run. */
module RxOutput {
  import opened RxSpec
  import opened RxWindow

  // ----- which slots the pieces of output contain

  lemma SlotSame(k: nat, b: nat, j: nat, b': nat, j': nat)
    requires j < k && j' < k
    ensures Slot(k, b, j) == Slot(k, b', j') <==> b == b' && j == j'
  {
    hide Base;
    if b < b' {
      BaseNext(k, b);
      BaseLeq(k, b + 1, b');
    } else if b' < b {
      BaseNext(k, b');
      BaseLeq(k, b' + 1, b);
    }
  }

  lemma {:induction false} InSlots(k: nat, idx: nat, lo: nat, hi: nat, b: nat, j: nat)
    requires lo <= hi <= k && j < k
    ensures Slot(k, b, j) in Slots(k, idx, lo, hi) <==> b == idx && lo <= j < hi
    decreases hi - lo
  {
    if lo < hi {
      InSlots(k, idx, lo + 1, hi, b, j);
      SlotSame(k, b, j, idx, lo);
    }
  }

  lemma {:induction false} InFlushFrom(k: nat, blk: Block, f: nat, b: nat, j: nat)
    requires j < k
    ensures Slot(k, b, j) in FlushFrom(k, blk, f) <==> b == blk.idx && f <= j && j in blk.present
    decreases k - f
  {
    if f < k {
      InFlushFrom(k, blk, f + 1, b, j);
      SlotSame(k, b, j, blk.idx, f);
    }
  }

  /** Block b is at position i of the queue and still holds fragment j. */
  predicate HeldAt(q: seq<Block>, i: nat, b: nat, j: nat) {
    i < |q| && q[i].idx == b && q[i].toSend <= j && j in q[i].present
  }

  lemma {:induction false} InFlushAll(k: nat, q: seq<Block>, b: nat, j: nat)
    requires j < k
    ensures Slot(k, b, j) in FlushAll(k, q) <==> exists i: nat :: HeldAt(q, i, b, j)
  {
    hide FlushFrom;
    if |q| > 0 {
      InFlushFrom(k, q[0], q[0].toSend, b, j);
      InFlushAll(k, q[1..], b, j);
      assert Slot(k, b, j) in Flush(k, q[0]) <==> HeldAt(q, 0, b, j);
      if exists i: nat :: HeldAt(q[1..], i, b, j) {
        var i: nat :| HeldAt(q[1..], i, b, j);
        assert HeldAt(q, i + 1, b, j);
      }
      if exists i: nat :: HeldAt(q, i, b, j) {
        var i: nat :| HeldAt(q, i, b, j);
        if i > 0 {
          assert HeldAt(q[1..], i - 1, b, j);
        }
      }
    }
  }

  // ----- what arrived in time

  /** The fragments of block b that arrived in time. */
  ghost function Live(k: nat, n: nat, air: seq<(nat, nat)>, b: nat): set<nat> {
    if |air| == 0 then {}
    else
      var m := |air| - 1;
      var (idx, f) := air[m];
      Live(k, n, air[..m], b) +
      (if idx == b && Counts(n, air[m]) && InTime(k, n, air[..m], b) then {f} else {})
  }

  /** Of a block beyond the newest nothing is out; of a block in the ring what has been sent; of a block
      that has left, or never entered, everything if it had k fragments and otherwise what it had. */
  ghost predicate OutIs(k: nat, r: Rx, b: nat, live: set<nat>, j: nat, out: bool) {
    if b > r.last then !out
    else if b >= First(r) then
      var i := b - First(r);
      i < |r.queue| && (out <==> j < r.queue[i].toSend)
    else out <==> j in live || |live| >= k
  }

  ghost predicate Accounts(k: nat, r: Rx, slots: seq<nat>, b: nat, live: set<nat>) {
    && (b > r.last ==> live == {})
    && (First(r) <= b <= r.last ==> var i := b - First(r); i < |r.queue| && r.queue[i].present == live)
    && forall j :: 0 <= j < k ==> OutIs(k, r, b, live, j, Slot(k, b, j) in slots)
  }

  /** A flushed block leaves all it held among the slots. */
  lemma FlushedOut(k: nat, n: nat, r: Rx, slots: seq<nat>, b: nat, live: set<nat>, d: nat, j: nat)
    requires Valid(k, n, r) && Accounts(k, r, slots, b, live) && d <= |r.queue| && j < k
    ensures var out := Slot(k, b, j) in slots || Slot(k, b, j) in FlushAll(k, r.queue[..d]);
            if First(r) <= b < First(r) + d then out <==> j in live || |live| >= k
            else out <==> Slot(k, b, j) in slots
  {
    hide Slot, FlushAll;
    var q := r.queue;
    InFlushAll(k, q[..d], b, j);
    if First(r) <= b < First(r) + d {
      var i := b - First(r);
      assert BlockOk(k, n, q[i]) && q[i].idx == b;
      assert OutIs(k, r, b, live, j, Slot(k, b, j) in slots);
      if j in live && j >= q[i].toSend {
        assert HeldAt(q[..d], i, b, j);
      }
      if exists x: nat :: HeldAt(q[..d], x, b, j) {
        var x: nat :| HeldAt(q[..d], x, b, j);
        assert q[x].idx == First(r) + x;
      }
    }
  }

  /** Where blocks are after a new one has entered. */
  lemma LocatedBlocks(k: nat, n: nat, r: Rx, idx: nat, b: nat)
    requires Valid(k, n, r) && r.last < idx
    ensures var r', d := Located(r, idx), Dropped(r.queue, NewBlocks(r, idx));
            && d <= |r.queue| && r'.last == idx
            && (b <= r.last ==> (First(r') <= b <==> First(r) + d <= b))
            && (First(r') <= b <= r.last ==> 0 <= b - First(r') < |r'.queue| && r'.queue[b - First(r')] == r.queue[b - First(r)])
            && (r.last < b <= idx && First(r') <= b ==> 0 <= b - First(r') < |r'.queue| && r'.queue[b - First(r')] == Block(b, {}, 0))
  {
    hide BlockOk;
  }

  /** A new block enters: what every block has out stays accounted for. */
  lemma LocateAccounts(k: nat, n: nat, r: Rx, slots: seq<nat>, idx: nat, b: nat, live: set<nat>)
    requires Valid(k, n, r) && r.last < idx && Accounts(k, r, slots, b, live)
    ensures var p := Locate(k, r, idx); Accounts(k, p.rx, slots + p.slots, b, live)
  {
    hide Slot, FlushAll, PushMany, Valid, Located, First;
    LocatedBlocks(k, n, r, idx, b);
    LocatedSlots(k, n, r, idx);
    var d := Dropped(r.queue, NewBlocks(r, idx));
    var p := Locate(k, r, idx);
    forall j | 0 <= j < k ensures OutIs(k, p.rx, b, live, j, Slot(k, b, j) in slots + p.slots) {
      FlushedOut(k, n, r, slots, b, live, d, j);
      assert OutIs(k, r, b, live, j, Slot(k, b, j) in slots);
    }
  }

  lemma LocatedSlots(k: nat, n: nat, r: Rx, idx: nat)
    requires Valid(k, n, r) && r.last < idx
    ensures Locate(k, r, idx) == Result(Located(r, idx), FlushAll(k, r.queue[..Dropped(r.queue, NewBlocks(r, idx))]))
    ensures k >= 1 && r.last >= -1
  {
    hide FlushAll, PushMany, BlockOk;
    var c := NewBlocks(r, idx);
    PushManyKeepsNewest(k, r.(last := idx), idx + 1 - c, c);
  }

  /** The oldest block is sent to its end and leaves. */
  lemma SentAccounts(k: nat, n: nat, r: Rx, slots: seq<nat>, f: nat, b: nat, live: set<nat>)
    requires Valid(k, n, r) && |r.queue| > 0 && f < n && f !in r.queue[0].present && Accounts(k, r, slots, b, live)
    requires Updated(k, r, 0, f).toSend == k
    ensures Accounts(k, r.(queue := r.queue[1..]), slots + Slots(k, r.queue[0].idx, r.queue[0].toSend, k), b,
                     if b == r.queue[0].idx then live + {f} else live)
  {
    hide Slot, Slots, Updated;
    SentAll(k, n, r, f);
    UpdatedPresent(k, r, 0, f);
    assert BlockOk(k, n, r.queue[0]);
    forall j | 0 <= j < k
      ensures OutIs(k, r.(queue := r.queue[1..]), b, if b == r.queue[0].idx then live + {f} else live, j,
                    Slot(k, b, j) in slots + Slots(k, r.queue[0].idx, r.queue[0].toSend, k))
    {
      InSlots(k, r.queue[0].idx, r.queue[0].toSend, k, b, j);
      assert OutIs(k, r, b, live, j, Slot(k, b, j) in slots);
    }
  }

  lemma UpdatedPresent(k: nat, r: Rx, i: nat, f: nat)
    requires i < |r.queue|
    ensures var u := Updated(k, r, i, f); u.idx == r.queue[i].idx && u.present == r.queue[i].present + {f} && u.toSend >= r.queue[i].toSend
  {}

  /** A block is recovered: the blocks before it are flushed, it is sent to its end, and all of them leave. */
  lemma RecoveredAccounts(k: nat, n: nat, r: Rx, slots: seq<nat>, i: nat, f: nat, b: nat, live: set<nat>)
    requires Valid(k, n, r) && i < |r.queue| && f < n && f !in r.queue[i].present && Accounts(k, r, slots, b, live)
    requires var u := Updated(k, r, i, f); u.toSend < k && |u.present| == k
    ensures var u := Updated(k, r, i, f);
            Accounts(k, r.(queue := r.queue[i + 1..]),
                     slots + (Slots(k, u.idx, r.queue[i].toSend, u.toSend) + FlushAll(k, r.queue[..i]) + Slots(k, u.idx, u.toSend, k)), b,
                     if b == r.queue[i].idx then live + {f} else live)
  {
    hide Slot, Slots, FlushAll, Updated;
    var q, u := r.queue, Updated(k, r, i, f);
    UpdatedPresent(k, r, i, f);
    assert BlockOk(k, n, q[i]);
    var more := Slots(k, u.idx, q[i].toSend, u.toSend) + FlushAll(k, q[..i]) + Slots(k, u.idx, u.toSend, k);
    forall j | 0 <= j < k
      ensures OutIs(k, r.(queue := q[i + 1..]), b, if b == q[i].idx then live + {f} else live, j, Slot(k, b, j) in slots + more)
    {
      InSlots(k, u.idx, q[i].toSend, u.toSend, b, j);
      InSlots(k, u.idx, u.toSend, k, b, j);
      FlushedOut(k, n, r, slots, b, live, i, j);
      assert OutIs(k, r, b, live, j, Slot(k, b, j) in slots);
    }
  }

  /** A fragment is stored and what is ready is sent. */
  lemma StoredAccounts(k: nat, n: nat, r: Rx, slots: seq<nat>, i: nat, f: nat, b: nat, live: set<nat>)
    requires Valid(k, n, r) && i < |r.queue| && f < n && f !in r.queue[i].present && Accounts(k, r, slots, b, live)
    requires Updated(k, r, i, f).toSend <= k
    ensures var u := Updated(k, r, i, f);
            Accounts(k, r.(queue := r.queue[i := u]), slots + Slots(k, u.idx, r.queue[i].toSend, u.toSend), b,
                     if b == r.queue[i].idx then live + {f} else live)
  {
    hide Slot, Slots, Updated, BlockOk;
    var q, u := r.queue, Updated(k, r, i, f);
    UpdatedPresent(k, r, i, f);
    var more := Slots(k, u.idx, q[i].toSend, u.toSend);
    forall j | 0 <= j < k
      ensures OutIs(k, r.(queue := q[i := u]), b, if b == q[i].idx then live + {f} else live, j, Slot(k, b, j) in slots + more)
    {
      InSlots(k, u.idx, q[i].toSend, u.toSend, b, j);
      assert OutIs(k, r, b, live, j, Slot(k, b, j) in slots);
    }
  }

  lemma InsertAccounts(k: nat, n: nat, r: Rx, slots: seq<nat>, i: nat, f: nat, b: nat, live: set<nat>)
    requires Valid(k, n, r) && i < |r.queue| && f < n && Accounts(k, r, slots, b, live)
    ensures var s := Insert(k, r, i, f);
            Accounts(k, s.rx, slots + s.slots, b, if b == r.queue[i].idx then live + {f} else live)
  {
    hide Slots, FlushAll, Insert, Updated, BlockOk, OutIs;
    if f in r.queue[i].present {
      InsertNothing(k, r, i, f);
      assert slots + [] == slots;
      if b == r.queue[i].idx {
        assert live + {f} == live;
      }
    } else {
      InsertCases(k, r, i, f);
      UpdatedOk(k, n, r, i, f);
      UpdatedPresent(k, r, i, f);
      var u := Updated(k, r, i, f);
      if i == 0 && u.toSend == k {
        SentAccounts(k, n, r, slots, f, b, live);
      } else if u.toSend < k && |u.present| == k {
        RecoveredAccounts(k, n, r, slots, i, f, b, live);
      } else {
        StoredAccounts(k, n, r, slots, i, f, b, live);
      }
    }
  }

  /** One fragment received. */
  lemma StepAccounts(k: nat, n: nat, r: Rx, slots: seq<nat>, idx: nat, f: nat, b: nat, live: set<nat>)
    requires Valid(k, n, r) && Accounts(k, r, slots, b, live)
    ensures var s := Step(k, n, r, idx, f);
            Accounts(k, s.rx, slots + s.slots, b, if idx == b <= MAX_BLOCK_IDX && f < n && Receivable(r, b) then live + {f} else live)
  {
    hide Insert, Locate, Accounts;
    assert slots + [] == slots;
    if idx <= MAX_BLOCK_IDX && f < n {
      var i := Find(r.queue, idx);
      if i < |r.queue| {
        InsertAccounts(k, n, r, slots, i, f, b, live);
      } else if idx > r.last {
        LocateKeeps(k, n, r, idx);
        LocateAccounts(k, n, r, slots, idx, b, live);
        var p := Locate(k, r, idx);
        InsertAccounts(k, n, p.rx, slots + p.slots, |p.rx.queue| - 1, f, b, live);
        var s := Insert(k, p.rx, |p.rx.queue| - 1, f);
        assert slots + p.slots + s.slots == slots + (p.slots + s.slots);
      }
    }
  }

  /** Exactly what is out, over every run and for every block: of a block in the ring the fragments sent so
      far; of a block that has left the ring, or was jumped over, all of it if k of its fragments arrived in
      time, and otherwise those of its data fragments that did; of a block beyond the newest, nothing. */
  lemma {:induction false} RunAccounts(k: nat, n: nat, air: seq<(nat, nat)>, b: nat)
    requires 1 <= k <= n
    ensures var s := Run(k, n, air); Accounts(k, s.rx, s.slots, b, Live(k, n, air, b))
  {
    if |air| == 0 {
    } else {
      hide Step, Accounts, Receivable, InTime;
      var m := |air| - 1;
      ReceivableExactly(k, n, air[..m], b);
      var p := Run(k, n, air[..m]);
      RunAccounts(k, n, air[..m], b);
      RunKeeps(k, n, air[..m]);
      StepAccounts(k, n, p.rx, p.slots, air[m].0, air[m].1, b, Live(k, n, air[..m], b));
      var live := Live(k, n, air[..m], b);
      assert live + {} == live;
    }
  }

  // ----- the same, said of the arrivals alone

  /** Block b is in time and no older block is. */
  ghost predicate Oldest(k: nat, n: nat, air: seq<(nat, nat)>, b: nat) {
    InTime(k, n, air, b) && forall c: nat :: c < b ==> !InTime(k, n, air, c)
  }

  ghost predicate Gapless(j: nat, s: set<nat>) {
    forall i :: 0 <= i <= j ==> i in s
  }

  lemma OldestIsFirst(k: nat, n: nat, air: seq<(nat, nat)>, b: nat)
    requires 1 <= k <= n
    ensures var r := Run(k, n, air).rx;
            && (InTime(k, n, air, b) <==> First(r) <= b) && First(r) >= 0
            && (Oldest(k, n, air, b) <==> First(r) == b)
  {
    hide Run, InTime, Find, BlockOk;
    RunKeeps(k, n, air);
    var r := Run(k, n, air).rx;
    forall c: nat ensures InTime(k, n, air, c) <==> First(r) <= c {
      ReceivableExactly(k, n, air, c);
      FindsFrom(k, n, r, c);
    }
    assert First(r) >= 0;
    assert InTime(k, n, air, First(r));
  }

  /** Over every run, for every slot: of a block no longer in time, it is out if and only if k fragments of the
      block came in time or its own did; of one in time with an older one before it, it is not out; of the
      oldest in time, it is out only if all fragments up to its own have come. */
  lemma OutputExactly(k: nat, n: nat, air: seq<(nat, nat)>, b: nat, j: nat)
    requires 1 <= k <= n && j < k
    ensures var out := Slot(k, b, j) in Run(k, n, air).slots;
            && (!InTime(k, n, air, b) ==> (out <==> j in Live(k, n, air, b) || |Live(k, n, air, b)| >= k))
            && (InTime(k, n, air, b) && !Oldest(k, n, air, b) ==> !out)
            && (Oldest(k, n, air, b) && out ==> Gapless(j, Arrived(n, air, b)))
  {
    hide Run, InTime, Oldest, Live, Arrived, Slot;
    var r := Run(k, n, air).rx;
    OldestIsFirst(k, n, air, b);
    RunAccounts(k, n, air, b);
    RunKeeps(k, n, air);
    RunRemembers(k, n, air);
    assert OutIs(k, r, b, Live(k, n, air, b), j, Slot(k, b, j) in Run(k, n, air).slots);
    if First(r) <= b <= r.last {
      assert r.queue[b - First(r)].idx == b && BlockOk(k, n, r.queue[b - First(r)]);
    }
  }

  /** What has no gap goes out at once: when a new fragment of the oldest block in time comes and does not complete
      it, exactly the fragments up to the first gap are out. */
  lemma SentAtOnce(k: nat, n: nat, air: seq<(nat, nat)>, b: nat, f: nat, j: nat)
    requires 1 <= k <= n && j < k && Counts(n, (b, f)) && f !in Arrived(n, air, b)
    requires Oldest(k, n, air, b) && |Arrived(n, air + [(b, f)], b)| < k
    ensures Slot(k, b, j) in Run(k, n, air + [(b, f)]).slots <==> Gapless(j, Arrived(n, air + [(b, f)], b))
  {
    hide Run, InTime, Oldest, Live, Arrived, Slot, BlockOk;
    var r, all := Run(k, n, air).rx, air + [(b, f)];
    OldestIsFirst(k, n, air, b);
    RunKeeps(k, n, air);
    RunRemembers(k, n, air);
    RunRemembers(k, n, all);
    RunKeeps(k, n, all);
    RunAccounts(k, n, all, b);
    RunLonger(k, n, air, b, f);
    ArrivedStep(n, air, b, f, b);
    var s := Step(k, n, r, b, f).rx;
    FrontToSend(k, n, r, b, f);
    assert OutIs(k, s, b, Live(k, n, all, b), j, Slot(k, b, j) in Run(k, n, all).slots);
  }

  lemma RunLonger(k: nat, n: nat, air: seq<(nat, nat)>, b: nat, f: nat)
    ensures Run(k, n, air + [(b, f)]).rx == Step(k, n, Run(k, n, air).rx, b, f).rx
  {
    hide Step;
    assert (air + [(b, f)])[..|air|] == air;
  }

  /** The oldest block, or the next one when the ring is empty, after a fragment that does not complete it. */
  lemma FrontToSend(k: nat, n: nat, r: Rx, b: nat, f: nat)
    requires Valid(k, n, r) && First(r) == b && b <= MAX_BLOCK_IDX && f < n
    requires var had := if |r.queue| > 0 then r.queue[0].present else {}; f !in had && |had + {f}| < k
    ensures var s := Step(k, n, r, b, f).rx;
            && First(s) == b <= s.last && |s.queue| > 0
            && s.queue[0].present == (if |r.queue| > 0 then r.queue[0].present else {}) + {f}
            && s.queue[0].toSend <= k
            && forall j :: 0 <= j < k ==> (j < s.queue[0].toSend <==> Gapless(j, s.queue[0].present))
  {
    hide Insert, Locate, BlockOk, RunEnd, Slots, FlushAll;
    FindsFrom(k, n, r, b);
    if |r.queue| > 0 {
      assert Find(r.queue, b) == 0;
      FrontInsert(k, n, r, f);
    } else {
      LocateKeeps(k, n, r, b);
      LocatedAlone(k, n, r, b);
      FrontInsert(k, n, Locate(k, r, b).rx, f);
    }
  }

  lemma LocatedAlone(k: nat, n: nat, r: Rx, b: nat)
    requires Valid(k, n, r) && |r.queue| == 0 && r.last + 1 == b
    ensures Locate(k, r, b).rx == Rx([Block(b, {}, 0)], b)
  {
    hide Locate, BlockOk;
    LocateKeeps(k, n, r, b);
  }

  lemma FrontInsert(k: nat, n: nat, r: Rx, f: nat)
    requires Valid(k, n, r) && |r.queue| > 0 && f < n && f !in r.queue[0].present && |r.queue[0].present + {f}| < k
    ensures var s := Insert(k, r, 0, f).rx;
            && First(s) == First(r) && s.last == r.last && |s.queue| > 0
            && s.queue[0].present == r.queue[0].present + {f} && s.queue[0].toSend <= k
            && forall j :: 0 <= j < k ==> (j < s.queue[0].toSend <==> Gapless(j, s.queue[0].present))
  {
    hide Insert, Slots, FlushAll;
    InsertCases(k, r, 0, f);
    UpdatedOk(k, n, r, 0, f);
    UpdatedRun(k, n, r, f);
    var u := Updated(k, r, 0, f);
    if u.toSend == k {
      FirstsWithin(k, u.present);
    }
    assert BlockOk(k, n, r.queue[0]);
    assert u.toSend !in u.present;
  }
}
