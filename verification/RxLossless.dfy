/** What the receiver hands over when every fragment arrives, in the order of sending. */
module RxLossless {
  import opened RxSpec

  /** Parity fragments k .. p - 1 of a block. */
  function Parities(k: nat, idx: nat, p: nat): (w: seq<(nat, nat)>)
    requires k <= p
    decreases p
  {
    if p == k then [] else Parities(k, idx, p - 1) + [(idx, p - 1)]
  }

  /** The fragments sent once `idx` blocks are complete and f data fragments of the next are out. */
  function Wire(k: nat, n: nat, idx: nat, f: nat): seq<(nat, nat)>
    requires k <= n
    decreases idx, f
  {
    if f > 0 then Wire(k, n, idx, f - 1) + [(idx, f - 1)]
    else if idx > 0 then Wire(k, n, idx - 1, k) + Parities(k, idx - 1, n)
    else []
  }

  function UpTo(m: nat): (s: seq<nat>)
    ensures |s| == m && forall i :: 0 <= i < m ==> s[i] == i
  {
    seq(m, i requires 0 <= i < m => i)
  }

  function Firsts(f: nat): (s: set<nat>)
    ensures |s| == f && forall j :: j in s <==> 0 <= j < f
  {
    if f == 0 then {} else Firsts(f - 1) + {f - 1}
  }

  /** The receiver between fragments: nothing pending, or the gapless start of one block. */
  function InOrder(k: nat, idx: nat, f: nat): Rx {
    if f == 0 then Rx([], idx - 1)
    else if f >= k then Rx([], idx)
    else Rx([Block(idx, Firsts(f), f)], idx)
  }

  lemma RunSnoc(k: nat, n: nat, air: seq<(nat, nat)>, idx: nat, f: nat)
    ensures var p := Run(k, n, air);
            var s := Step(k, n, p.rx, idx, f);
            Run(k, n, air + [(idx, f)]) == Result(s.rx, p.slots + s.slots)
  {
    hide Step;
    assert (air + [(idx, f)])[..|air|] == air;
  }

  lemma RunOne(k: nat, b: Block, f: nat)
    requires f < k && f !in b.present && f + 1 !in b.present
    ensures RunEnd(k, b.(present := b.present + {f}), f) == f + 1
  {
    var c := b.(present := b.present + {f});
    assert RunEnd(k, c, f + 1) == f + 1;
  }

  lemma OneSlot(k: nat, idx: nat, f: nat)
    ensures Slots(k, idx, f, f + 1) == [Slot(k, idx, f)]
  {
    assert Slots(k, idx, f + 1, f + 1) == [];
  }

  /** The next data fragment in order is handed over at once. */
  lemma InsertInOrder(k: nat, r: Rx, idx: nat, f: nat)
    requires f < k && r.last == idx && r.queue == [Block(idx, Firsts(f), f)]
    ensures Insert(k, r, 0, f) == Result(InOrder(k, idx, f + 1), [Slot(k, idx, f)])
  {
    hide RunEnd, Slots;
    var b := r.queue[0];
    RunOne(k, b, f);
    OneSlot(k, idx, f);
    assert Firsts(f) + {f} == Firsts(f + 1);
    assert r.queue[1..] == [];
    assert r.queue[0 := Block(idx, Firsts(f + 1), f + 1)] == [Block(idx, Firsts(f + 1), f + 1)];
  }

  lemma StepInOrder(k: nat, n: nat, idx: nat, f: nat)
    requires f < k <= n && idx <= MAX_BLOCK_IDX
    ensures Step(k, n, InOrder(k, idx, f), idx, f) == Result(InOrder(k, idx, f + 1), [Slot(k, idx, f)])
  {
    hide Insert;
    var r := InOrder(k, idx, f);
    if f == 0 {
      assert Find(r.queue, idx) == 0;
      var p := Locate(k, r, idx);
      LocateFirst(k, idx);
      assert p == Result(Rx([Block(idx, Firsts(0), 0)], idx), []);
      InsertInOrder(k, p.rx, idx, 0);
      assert [] + [Slot(k, idx, 0)] == [Slot(k, idx, 0)];
    } else {
      InsertInOrder(k, r, idx, f);
    }
  }

  lemma LocateFirst(k: nat, idx: nat)
    ensures Locate(k, Rx([], idx - 1), idx) == Result(Rx([Block(idx, {}, 0)], idx), [])
  {
    var r := Rx([], idx);
    assert NewBlocks(Rx([], idx - 1), idx) == 1;
    var p := Push(k, r, idx);
    assert p == Result(Rx([Block(idx, {}, 0)], idx), []);
    assert PushMany(k, p.rx, idx + 1, 0) == Result(p.rx, []);
  }

  lemma {:induction false} ParitiesIgnored(k: nat, n: nat, air: seq<(nat, nat)>, idx: nat, p: nat)
    requires k <= p <= n
    requires Run(k, n, air).rx == Rx([], idx)
    ensures Run(k, n, air + Parities(k, idx, p)) == Run(k, n, air)
    decreases p
  {
    hide Run;
    if p == k {
      assert air + [] == air;
    } else {
      ParitiesIgnored(k, n, air, idx, p - 1);
      RunSnoc(k, n, air + Parities(k, idx, p - 1), idx, p - 1);
      assert air + Parities(k, idx, p - 1) + [(idx, p - 1)] == air + Parities(k, idx, p);
      var s := Run(k, n, air);
      assert s.slots + [] == s.slots;
    }
  }

  /** Without loss or reordering, exactly the slots of the fragments sent so far are handed over. */
  lemma {:induction false} LosslessRun(k: nat, n: nat, idx: nat, f: nat)
    requires 1 <= k <= n && f <= k && idx <= MAX_BLOCK_IDX
    ensures Run(k, n, Wire(k, n, idx, f)) == Result(InOrder(k, idx, f), UpTo(Slot(k, idx, f)))
    decreases idx, f
  {
    hide Run, Step, InOrder, Base;
    if f > 0 {
      LosslessRun(k, n, idx, f - 1);
      RunSnoc(k, n, Wire(k, n, idx, f - 1), idx, f - 1);
      StepInOrder(k, n, idx, f - 1);
      assert UpTo(Slot(k, idx, f - 1)) + [Slot(k, idx, f - 1)] == UpTo(Slot(k, idx, f));
    } else if idx > 0 {
      LosslessRun(k, n, idx - 1, k);
      BlockDone(k, idx - 1);
      ParitiesIgnored(k, n, Wire(k, n, idx - 1, k), idx - 1, n);
      BaseNext(k, idx - 1);
    } else {
      RunNothing(k, n);
    }
  }

  lemma BlockDone(k: nat, idx: nat)
    requires k >= 1
    ensures InOrder(k, idx, k) == Rx([], idx) == InOrder(k, idx + 1, 0)
  {}

  lemma RunNothing(k: nat, n: nat)
    ensures Run(k, n, []) == Result(InOrder(k, 0, 0), UpTo(Slot(k, 0, 0)))
  {
    assert Slot(k, 0, 0) == 0;
  }
}
