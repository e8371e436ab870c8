/** The receiver's counters of overridden blocks and recovered fragments, and what they count. */
module RxCounters {
  import opened RxSpec
  import opened RxWindow
  import opened RxOutput

  /** The data fragments of a block that are still to be handed over but not there. */
  function Gaps(k: nat, b: Block): (s: set<nat>)
    ensures forall j :: j in s <==> b.toSend <= j < k && j !in b.present
  {
    set j | b.toSend <= j < k && j !in b.present
  }

  /** How many fragments are recovered when fragment f reaches the block at position i. */
  function InsertRebuilds(k: nat, r: Rx, i: nat, f: nat): nat
    requires i < |r.queue|
  {
    var b := Updated(k, r, i, f);
    if f !in r.queue[i].present && b.toSend < k && |b.present| == k then |Gaps(k, b)| else 0
  }

  function StepRebuilds(k: nat, n: nat, r: Rx, idx: nat, f: nat): nat
    requires r.last >= -1
  {
    var i := Find(r.queue, idx);
    if idx > MAX_BLOCK_IDX || f >= n then 0
    else if i < |r.queue| then InsertRebuilds(k, r, i, f)
    else if idx <= r.last then 0
    else var q := Locate(k, r, idx).rx; InsertRebuilds(k, q, |q.queue| - 1, f)
  }

  /** How many blocks are overridden by a fragment. */
  function StepOverrides(n: nat, r: Rx, idx: nat, f: nat): nat
    requires r.last >= -1
  {
    if idx > MAX_BLOCK_IDX || f >= n || idx <= r.last then 0 else Dropped(r.queue, NewBlocks(r, idx))
  }

  // ----- overrides

  /** A fragment overrides exactly the blocks of the ring that are forty or more behind its own block: so many from the
      front. */
  lemma OverridesExactly(k: nat, n: nat, r: Rx, idx: nat, f: nat)
    requires Valid(k, n, r) && idx <= MAX_BLOCK_IDX && f < n
    ensures StepOverrides(n, r, idx, f) <= |r.queue|
    ensures forall i :: 0 <= i < |r.queue| ==> (i < StepOverrides(n, r, idx, f) <==> idx - r.queue[i].idx >= 40)
  {
    hide BlockOk;
  }

  lemma HeldNotNewer(k: nat, n: nat, r: Rx, idx: nat)
    requires Valid(k, n, r) && Find(r.queue, idx) < |r.queue|
    ensures idx <= r.last
  {
    FindsFrom(k, n, r, idx);
  }

  // ----- recovered fragments

  /** The fragment of a slot has arrived. */
  ghost predicate Came(k: nat, n: nat, air: seq<(nat, nat)>, v: nat) {
    exists b: nat, j: nat :: j < k && v == Slot(k, b, j) && j in Arrived(n, air, b)
  }

  lemma CameSlot(k: nat, n: nat, air: seq<(nat, nat)>, b: nat, j: nat)
    requires j < k
    ensures Came(k, n, air, Slot(k, b, j)) <==> j in Arrived(n, air, b)
  {
    hide Arrived, Slot;
    if Came(k, n, air, Slot(k, b, j)) {
      var c: nat, i: nat :| i < k && Slot(k, b, j) == Slot(k, c, i) && i in Arrived(n, air, c);
      SlotSame(k, b, j, c, i);
    }
  }

  lemma SplitSlot(k: nat, v: nat) returns (b: nat, j: nat)
    requires k >= 1
    ensures j < k && v == Slot(k, b, j)
  {
    b, j := v / k, v % k;
  }

  lemma {:induction false} SlotsCount(k: nat, b: nat, s: set<nat>)
    ensures |set j | j in s :: Slot(k, b, j)| == |s|
  {
    var t := set j | j in s :: Slot(k, b, j);
    if s == {} {
      assert t == {};
    } else {
      var j :| j in s;
      SlotsCount(k, b, s - {j});
      var t' := set i | i in s - {j} :: Slot(k, b, i);
      assert t == t' + {Slot(k, b, j)};
    }
  }

  /** The slots among those given whose fragments have not arrived. */
  ghost function Rebuilt(k: nat, n: nat, air: seq<(nat, nat)>, slots: seq<nat>): set<nat> {
    set v | v in slots && !Came(k, n, air, v)
  }

  /** The ring holds what arrived; the arrivals may be those before or after a fragment of another block. */
  ghost predicate Holding(n: nat, air: seq<(nat, nat)>, q: seq<Block>) {
    forall i :: 0 <= i < |q| ==> q[i].present <= Arrived(n, air, q[i].idx)
  }

  /** What is flushed has arrived. */
  lemma FlushCame(k: nat, n: nat, air: seq<(nat, nat)>, q: seq<Block>, b: nat, j: nat)
    requires Holding(n, air, q) && j < k && Slot(k, b, j) in FlushAll(k, q)
    ensures j in Arrived(n, air, b)
  {
    hide FlushAll, Arrived, Slot;
    InFlushAll(k, q, b, j);
  }

  /** Of the slots a fragment makes the receiver hand over, those of gaps have not arrived, and no others. */
  lemma InsertRebuilt(k: nat, n: nat, air: seq<(nat, nat)>, r: Rx, i: nat, f: nat, b: nat, j: nat)
    requires Valid(k, n, r) && i < |r.queue| && j < k
    requires Holding(n, air, r.queue) && Updated(k, r, i, f).present == Arrived(n, air, r.queue[i].idx)
    ensures Slot(k, b, j) in Insert(k, r, i, f).slots && j !in Arrived(n, air, b) <==>
              b == r.queue[i].idx && InsertRebuilds(k, r, i, f) > 0 && j in Gaps(k, Updated(k, r, i, f))
  {
    hide FlushAll, Arrived, Slot, Slots, Insert, Gaps, Updated, BlockOk;
    var q, u := r.queue, Updated(k, r, i, f);
    if f in q[i].present {
      InsertNothing(k, r, i, f);
    } else {
      InsertCases(k, r, i, f);
      ReadyHeld(k, n, r, i, f);
      InSlots(k, u.idx, q[i].toSend, u.toSend, b, j);
      if u.toSend < k && |u.present| == k {
        InSlots(k, u.idx, u.toSend, k, b, j);
        if Slot(k, b, j) in FlushAll(k, q[..i]) {
          FlushCame(k, n, air, q[..i], b, j);
        }
      }
    }
  }

  lemma ReadyHeld(k: nat, n: nat, r: Rx, i: nat, f: nat)
    requires Valid(k, n, r) && i < |r.queue|
    ensures var b := Updated(k, r, i, f);
            r.queue[i].toSend <= b.toSend <= k && forall j :: r.queue[i].toSend <= j < b.toSend ==> j in b.present
  {
    assert BlockOk(k, n, r.queue[i]);
  }

  lemma InsertCounts(k: nat, n: nat, air: seq<(nat, nat)>, r: Rx, i: nat, f: nat)
    requires Valid(k, n, r) && i < |r.queue|
    requires Holding(n, air, r.queue) && Updated(k, r, i, f).present == Arrived(n, air, r.queue[i].idx)
    ensures |Rebuilt(k, n, air, Insert(k, r, i, f).slots)| == InsertRebuilds(k, r, i, f)
  {
    hide Arrived, Slot, Insert, Gaps, Updated, BlockOk, Came, InsertRebuilds, Holding;
    var s, u, b := Insert(k, r, i, f).slots, Updated(k, r, i, f), r.queue[i].idx;
    var t := if InsertRebuilds(k, r, i, f) > 0 then Gaps(k, u) else {};
    var image := set j | j in t :: Slot(k, b, j);
    assert k >= 1;
    RebuildsSize(k, r, i, f);
    forall v ensures v in Rebuilt(k, n, air, s) <==> v in image {
      if v in Rebuilt(k, n, air, s) || v in image {
        var c, j := SplitSlot(k, v);
        CameSlot(k, n, air, c, j);
        InsertRebuilt(k, n, air, r, i, f, c, j);
        if v in image {
          var j' :| j' in t && v == Slot(k, b, j');
          GapsBelow(k, u, j');
          SlotSame(k, b, j', c, j);
        }
      }
    }
    assert Rebuilt(k, n, air, s) == image;
    SlotsCount(k, b, t);
  }

  lemma GapsBelow(k: nat, b: Block, j: nat)
    requires j in Gaps(k, b)
    ensures j < k
  {}

  lemma RebuildsSize(k: nat, r: Rx, i: nat, f: nat)
    requires i < |r.queue|
    ensures InsertRebuilds(k, r, i, f) == if InsertRebuilds(k, r, i, f) > 0 then |Gaps(k, Updated(k, r, i, f))| else 0
  {}

  /** In every run a fragment adds to the recovered ones exactly the slots it makes the receiver hand over though their
      own fragments have not arrived. */
  lemma RecoveredExactly(k: nat, n: nat, air: seq<(nat, nat)>, a: (nat, nat))
    requires 1 <= k <= n
    ensures var r := Run(k, n, air).rx;
            StepRebuilds(k, n, r, a.0, a.1) == |Rebuilt(k, n, air + [a], Step(k, n, r, a.0, a.1).slots)|
  {
    hide Run, Arrived, Insert, Locate, BlockOk, Came, InsertRebuilds, Updated, Find, Slot;
    var (idx, f) := a;
    var p := Run(k, n, air);
    var r := p.rx;
    RunKeeps(k, n, air);
    RunRemembers(k, n, air);
    var i := Find(r.queue, idx);
    if idx > MAX_BLOCK_IDX || f >= n || (i == |r.queue| && idx <= r.last) {
      assert Rebuilt(k, n, air + [a], []) == {};
    } else if i < |r.queue| {
      HoldsAfter(k, n, air, r, p.slots, i, f);
      InsertCounts(k, n, air + [a], r, i, f);
    } else {
      LocateKeeps(k, n, r, idx);
      LocateRemembers(k, n, air, r, p.slots, idx);
      var l := Locate(k, r, idx);
      var m := |l.rx.queue| - 1;
      HoldsAfter(k, n, air, l.rx, p.slots + l.slots, m, f);
      InsertCounts(k, n, air + [a], l.rx, m, f);
      LocateRebuilds(k, n, air, r, p.slots, idx, f);
      var s := Insert(k, l.rx, m, f);
      assert Rebuilt(k, n, air + [a], l.slots + s.slots) == Rebuilt(k, n, air + [a], s.slots);
    }
  }

  lemma HoldsAfter(k: nat, n: nat, air: seq<(nat, nat)>, r: Rx, slots: seq<nat>, i: nat, f: nat)
    requires Valid(k, n, r) && Remembers(k, n, air, r, slots) && i < |r.queue| && r.queue[i].idx <= MAX_BLOCK_IDX && f < n
    ensures var after := air + [(r.queue[i].idx, f)];
            Holding(n, after, r.queue) && Updated(k, r, i, f).present == Arrived(n, after, r.queue[i].idx)
  {
    hide Arrived, BlockOk, Updated;
    forall j | 0 <= j < |r.queue| ensures r.queue[j].present <= Arrived(n, air + [(r.queue[i].idx, f)], r.queue[j].idx) {
      ArrivedStep(n, air, r.queue[i].idx, f, r.queue[j].idx);
    }
    ArrivedStep(n, air, r.queue[i].idx, f, r.queue[i].idx);
  }

  /** Making room rebuilds nothing. */
  lemma LocateRebuilds(k: nat, n: nat, air: seq<(nat, nat)>, r: Rx, slots: seq<nat>, idx: nat, f: nat)
    requires Valid(k, n, r) && Remembers(k, n, air, r, slots) && r.last < idx
    ensures forall v :: v in Locate(k, r, idx).slots ==> Came(k, n, air + [(idx, f)], v)
  {
    hide Arrived, Slot, Locate, FlushAll, Came, BlockOk;
    LocatedSlots(k, n, r, idx);
    var q := r.queue[..Dropped(r.queue, NewBlocks(r, idx))];
    var after := air + [(idx, f)];
    forall i | 0 <= i < |q| ensures q[i].present <= Arrived(n, after, q[i].idx) {
      ArrivedStep(n, air, idx, f, q[i].idx);
    }
    forall v | v in FlushAll(k, q) ensures Came(k, n, after, v) {
      var b, j := SplitSlot(k, v);
      FlushCame(k, n, after, q, b, j);
      CameSlot(k, n, after, b, j);
    }
  }
}
