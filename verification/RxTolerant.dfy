/** What the code is for: losses that leave k fragments of each block, in time, cost nothing. */
module RxTolerant {
  import opened RxSpec
  import opened RxLossless
  import opened RxWindow

  /** Blocks arrive in order; within a block, order and repetition do not matter. */
  ghost predicate BlocksInOrder(n: nat, air: seq<(nat, nat)>) {
    && (forall i :: 0 <= i < |air| ==> air[i].0 <= MAX_BLOCK_IDX && air[i].1 < n)
    && forall i, j :: 0 <= i < j < |air| ==> air[i].0 <= air[j].0
  }

  // ----- completeness under any order

  /** At arrival m, block b gets a fragment that makes at least k while it is in time. */
  ghost predicate CompletesAt(k: nat, n: nat, air: seq<(nat, nat)>, b: nat, m: nat) {
    m < |air| && air[m].0 == b && Counts(n, air[m]) && InTime(k, n, air[..m], b) && |Arrived(n, air[..m + 1], b)| >= k
  }

  ghost predicate Completes(k: nat, n: nat, air: seq<(nat, nat)>, b: nat) {
    exists m: nat :: CompletesAt(k, n, air, b, m)
  }

  /** What has been handed over stays handed over. */
  lemma {:induction false} RunExtends(k: nat, n: nat, air: seq<(nat, nat)>, m: nat)
    requires m <= |air|
    ensures Run(k, n, air[..m]).slots <= Run(k, n, air).slots
    decreases |air|
  {
    hide Step;
    if m < |air| {
      var last := |air| - 1;
      RunExtends(k, n, air[..last], m);
      assert air[..last][..m] == air[..m];
    } else {
      assert air[..m] == air;
    }
  }

  /** Whatever the order of arrival, a block that completes in time is handed over whole. */
  lemma CompletesHandsOver(k: nat, n: nat, air: seq<(nat, nat)>, b: nat)
    requires 1 <= k <= n && Completes(k, n, air, b)
    ensures HandedOver(k, b, k, Run(k, n, air).slots)
  {
    hide Run, Arrived;
    var m: nat :| CompletesAt(k, n, air, b, m);
    assert air[..m + 1] == air[..m] + [(b, air[m].1)];
    ReceivableExactly(k, n, air[..m], b);
    KthFragmentCompletes(k, n, air[..m], b, air[m].1);
    RunExtends(k, n, air, m + 1);
    HandedOverPrefix(k, b, k, Run(k, n, air[..m + 1]).slots, Run(k, n, air).slots);
  }

  lemma HandedOverPrefix(k: nat, b: nat, hi: nat, slots: seq<nat>, more: seq<nat>)
    requires HandedOver(k, b, hi, slots) && slots <= more
    ensures HandedOver(k, b, hi, more)
  {
    assert more == slots + more[|slots|..];
    HandedOverStays(k, b, hi, slots, more[|slots|..]);
  }

  lemma HandedOverStays(k: nat, b: nat, hi: nat, slots: seq<nat>, more: seq<nat>)
    requires HandedOver(k, b, hi, slots)
    ensures HandedOver(k, b, hi, slots + more)
  {}

  /** Every one of the first `blocks` blocks completes, and nothing else arrives. */
  ghost predicate AllComplete(k: nat, n: nat, air: seq<(nat, nat)>, blocks: nat) {
    && (forall i :: 0 <= i < |air| ==> air[i].0 < blocks)
    && forall b :: 0 <= b < blocks ==> Completes(k, n, air, b)
  }

  /** Every one of the first `blocks` blocks arrives with at least k of its fragments, and nothing else arrives. */
  ghost predicate Tolerable(k: nat, n: nat, air: seq<(nat, nat)>, blocks: nat) {
    && BlocksInOrder(n, air)
    && (forall i :: 0 <= i < |air| ==> air[i].0 < blocks)
    && forall b :: 0 <= b < blocks ==> |Arrived(n, air, b)| >= k
  }

  lemma {:induction false} AllSlots(s: seq<nat>, m: nat)
    requires Increasing(s, 0, m) && forall v :: 0 <= v < m ==> v in s
    ensures s == UpTo(m)
  {
    if m == 0 {
    } else {
      var last := |s| - 1;
      assert m - 1 in s;
      var i :| 0 <= i < |s| && s[i] == m - 1;
      assert s[i] <= s[last] == m - 1;
      forall v | 0 <= v < m - 1 ensures v in s[..last] {
        assert v in s;
        var j :| 0 <= j < |s| && s[j] == v;
        assert s[..last][j] == v;
      }
      AllSlots(s[..last], m - 1);
      assert s == s[..last] + [m - 1];
    }
  }

  /** Every serial number below a block boundary is a slot of an earlier block. */
  lemma SlotOf(k: nat, blocks: nat, v: nat) returns (b: nat, j: nat)
    requires k >= 1 && v < Base(k, blocks)
    ensures b < blocks && j < k && v == Slot(k, b, j)
  {
    b, j := v / k, v % k;
    if b >= blocks {
      BaseLeq(k, blocks, b);
    }
  }

  lemma FrontierBound(k: nat, n: nat, r: Rx)
    requires Valid(k, n, r)
    ensures Frontier(k, r) <= Base(k, r.last + 1)
  {
    hide Base;
    if |r.queue| > 0 {
      assert BlockOk(k, n, r.queue[0]);
      BaseNext(k, r.queue[0].idx);
      BaseLeq(k, r.queue[0].idx + 1, r.last + 1);
    }
  }

  lemma {:induction false} NewestBelow(n: nat, air: seq<(nat, nat)>, blocks: nat)
    requires forall i :: 0 <= i < |air| ==> air[i].0 < blocks
    ensures Newest(n, air) < blocks
  {
    if |air| > 0 {
      NewestBelow(n, air[..|air| - 1], blocks);
    }
  }

  /** If every block completes, in whatever order fragments arrive, every data fragment is handed over, once and in order. */
  lemma NothingMissing(k: nat, n: nat, air: seq<(nat, nat)>, blocks: nat)
    requires 1 <= k <= n && AllComplete(k, n, air, blocks)
    ensures Run(k, n, air).slots == UpTo(Base(k, blocks))
  {
    hide Run, Arrived, Base, Frontier, Completes, Newest;
    var s := Run(k, n, air);
    RunKeeps(k, n, air);
    FrontierBound(k, n, s.rx);
    NewestBelow(n, air, blocks);
    RunOpens(k, n, air, 0);
    BaseLeq(k, s.rx.last + 1, blocks);
    forall v | 0 <= v < Base(k, blocks) ensures v in s.slots {
      var b, j := SlotOf(k, blocks, v);
      CompletesHandsOver(k, n, air, b);
    }
    AllSlots(s.slots, Base(k, blocks));
  }

  /** The moment a block has k fragments. */
  lemma {:induction false} KthArrival(k: nat, n: nat, air: seq<(nat, nat)>, b: nat) returns (m: nat)
    requires k >= 1 && |Arrived(n, air, b)| >= k
    ensures m < |air| && air[m].0 == b <= MAX_BLOCK_IDX && air[m].1 < n
    ensures |Arrived(n, air[..m], b)| < k <= |Arrived(n, air[..m + 1], b)|
  {
    var last := |air| - 1;
    if |Arrived(n, air[..last], b)| >= k {
      m := KthArrival(k, n, air[..last], b);
      assert air[..last][..m] == air[..m] && air[..last][..m + 1] == air[..m + 1];
    } else {
      m := last;
      assert air[..last + 1] == air;
    }
  }

  /** While blocks arrive in order, the newest is the latest, and blocks beyond it have no fragments. */
  lemma {:induction false} InOrderNewest(n: nat, air: seq<(nat, nat)>)
    requires BlocksInOrder(n, air)
    ensures Newest(n, air) == if |air| == 0 then -1 else air[|air| - 1].0
    ensures forall c: nat :: c > Newest(n, air) ==> Arrived(n, air, c) == {}
  {
    if |air| > 0 {
      InOrderNewest(n, air[..|air| - 1]);
    }
  }

  /** While blocks arrive in order, a block completes as soon as k of its fragments are there. */
  lemma InOrderCompletes(k: nat, n: nat, air: seq<(nat, nat)>, b: nat)
    requires 1 <= k <= n && BlocksInOrder(n, air) && |Arrived(n, air, b)| >= k
    ensures Completes(k, n, air, b)
  {
    hide Arrived, Newest, FirstBlock;
    var m := KthArrival(k, n, air, b);
    var before := air[..m];
    InOrderNewest(n, before);
    FirstNotNewer(n, before);
    if m > 0 {
      assert before[m - 1] == air[m - 1] && air[m - 1].0 <= air[m].0;
    }
    assert InTime(k, n, before, b);
    assert CompletesAt(k, n, air, b, m);
  }

  /** While blocks arrive in order, every block with k fragments has been handed over. */
  lemma RunSettles(k: nat, n: nat, air: seq<(nat, nat)>, b: nat)
    requires 1 <= k <= n && BlocksInOrder(n, air) && |Arrived(n, air, b)| >= k
    ensures HandedOver(k, b, k, Run(k, n, air).slots)
  {
    InOrderCompletes(k, n, air, b);
    CompletesHandsOver(k, n, air, b);
  }

  /** Blocks in order, and at most n - k fragments of each lost: all of them complete. */
  lemma TolerableCompletes(k: nat, n: nat, air: seq<(nat, nat)>, blocks: nat)
    requires 1 <= k <= n && Tolerable(k, n, air, blocks)
    ensures AllComplete(k, n, air, blocks)
  {
    hide Arrived, Completes;
    forall b | 0 <= b < blocks ensures Completes(k, n, air, b) {
      InOrderCompletes(k, n, air, b);
    }
  }
}
