/** Which blocks the receiver can still take, said of the arrivals alone. */
module RxWindow {
  import opened RxSpec

  /** A fragment the receiver looks at. */
  predicate Counts(n: nat, a: (nat, nat)) {
    a.0 <= MAX_BLOCK_IDX && a.1 < n
  }

  /** The newest block among the arrivals, or -1. */
  function Newest(n: nat, air: seq<(nat, nat)>): (b: int)
    ensures b >= -1
  {
    if |air| == 0 then -1
    else
      var b, a := Newest(n, air[..|air| - 1]), air[|air| - 1];
      if Counts(n, a) && a.0 > b then a.0 else b
  }

  /** The block of the first arrival, or -1. */
  function FirstBlock(n: nat, air: seq<(nat, nat)>): (b: int)
    ensures b >= -1
  {
    if |air| == 0 then -1
    else
      var b, a := FirstBlock(n, air[..|air| - 1]), air[|air| - 1];
      if b == -1 && Counts(n, a) then a.0 else b
  }

  /** No block from c on has got k fragments. */
  ghost predicate NoneComplete(k: nat, n: nat, air: seq<(nat, nat)>, c: nat) {
    forall b: nat :: b >= c ==> |Arrived(n, air, b)| < k
  }

  /** Block c is beyond everything so far; or it is not older than the first arrival, fewer than forty blocks
      behind the newest, and neither it nor a block beyond it has got k fragments. */
  ghost predicate InTime(k: nat, n: nat, air: seq<(nat, nat)>, c: nat) {
    c > Newest(n, air) || (FirstBlock(n, air) <= c && Newest(n, air) - c < 40 && NoneComplete(k, n, air, c))
  }

  /** The oldest block of the ring, or the one after the newest. */
  function First(r: Rx): int {
    r.last + 1 - |r.queue|
  }

  // ----- one step

  /** After a jump the ring holds every block from the last newest on that is fewer than forty behind the new one. */
  lemma JumpOpens(k: nat, n: nat, r: Rx, idx: nat, c: nat)
    requires Valid(k, n, r) && 0 <= r.last < c <= idx && idx - c < 40
    ensures Find(Locate(k, r, idx).rx.queue, c) < |Locate(k, r, idx).rx.queue|
  {
    hide Locate, BlockOk;
    LocateKeeps(k, n, r, idx);
    LocateFirst(k, n, r, idx);
    FindsFrom(k, n, Locate(k, r, idx).rx, c);
  }

  lemma FindsFrom(k: nat, n: nat, r: Rx, c: nat)
    requires Valid(k, n, r)
    ensures Find(r.queue, c) < |r.queue| <==> First(r) <= c <= r.last
  {
    hide BlockOk, Find;
    if First(r) <= c <= r.last {
      assert r.queue[c - First(r)].idx == c;
    }
  }

  lemma LocateFirst(k: nat, n: nat, r: Rx, idx: nat)
    requires Valid(k, n, r) && r.last < idx
    ensures First(Locate(k, r, idx).rx) ==
            if r.last == -1 then idx else if First(r) < idx - 39 then idx - 39 else First(r)
  {
    hide Locate, BlockOk, FlushAll;
    LocateKeeps(k, n, r, idx);
  }

  /** A fragment moves the start of the ring only by completing a block: past that block. */
  lemma InsertFirst(k: nat, n: nat, r: Rx, i: nat, f: nat)
    requires Valid(k, n, r) && i < |r.queue| && f < n
    ensures var r' := Insert(k, r, i, f).rx;
            if |r.queue[i].present + {f}| >= k then First(r') == r.queue[i].idx + 1 else First(r') == First(r)
  {
    hide Slots, FlushAll, Insert, RunEnd;
    var q := r.queue;
    assert BlockOk(k, n, q[i]);
    GrowsOnlyIfNew(q[i].present, f);
    if f in q[i].present {
      InsertNothing(k, r, i, f);
    } else {
      InsertCases(k, r, i, f);
      UpdatedOk(k, n, r, i, f);
      if i == 0 && Updated(k, r, 0, f).toSend == k {
        SentAll(k, n, r, f);
      }
    }
  }

  lemma SentAll(k: nat, n: nat, r: Rx, f: nat)
    requires Valid(k, n, r) && |r.queue| > 0 && Updated(k, r, 0, f).toSend == k
    ensures |r.queue[0].present + {f}| >= k
  {
    UpdatedRun(k, n, r, f);
    FirstsWithin(k, Updated(k, r, 0, f).present);
  }

  lemma {:induction false} FirstsWithin(f: nat, s: set<nat>)
    requires forall j :: 0 <= j < f ==> j in s
    ensures |s| >= f
  {
    if f > 0 {
      FirstsWithin(f - 1, s - {f - 1});
    }
  }

  lemma UpdatedRun(k: nat, n: nat, r: Rx, f: nat)
    requires Valid(k, n, r) && |r.queue| > 0
    ensures forall j :: 0 <= j < Updated(k, r, 0, f).toSend ==> j in Updated(k, r, 0, f).present
  {
    assert BlockOk(k, n, r.queue[0]);
  }

  // ----- over every run

  lemma {:induction false} FirstNotNewer(n: nat, air: seq<(nat, nat)>)
    ensures FirstBlock(n, air) <= Newest(n, air) && (FirstBlock(n, air) == -1 <==> Newest(n, air) == -1)
  {
    if |air| > 0 {
      FirstNotNewer(n, air[..|air| - 1]);
    }
  }

  /** What one more fragment does to newest, first and completions. */
  lemma ArrivalStep(k: nat, n: nat, air: seq<(nat, nat)>, a: (nat, nat), c: nat)
    ensures var all := air + [a];
            && Newest(n, all) == (if Counts(n, a) && a.0 > Newest(n, air) then a.0 else Newest(n, air))
            && FirstBlock(n, all) == (if FirstBlock(n, air) == -1 && Counts(n, a) then a.0 else FirstBlock(n, air))
            && (NoneComplete(k, n, all, c) <==>
                  NoneComplete(k, n, air, c) && !(Counts(n, a) && a.0 >= c && |Arrived(n, all, a.0)| >= k))
  {
    hide Arrived;
    var all := air + [a];
    assert all[..|air|] == air;
    AllArrivals(n, air, a.0, a.1);
    assert a == (a.0, a.1);
    forall b: nat ensures |Arrived(n, air, b)| <= |Arrived(n, all, b)| && (b != a.0 || !Counts(n, a) ==> Arrived(n, all, b) == Arrived(n, air, b)) {
      Grows(Arrived(n, air, b), a.1);
    }
  }

  lemma Grows(s: set<nat>, f: nat)
    ensures |s| <= |s + {f}| && s + {} == s
  {
    if f in s {
      assert s + {f} == s;
    }
  }

  /** The start of the ring, said of the arrivals. */
  ghost predicate Opens(k: nat, n: nat, air: seq<(nat, nat)>, r: Rx, c: nat) {
    && r.last == Newest(n, air)
    && (c <= r.last ==> (First(r) <= c <==> FirstBlock(n, air) <= c && Newest(n, air) - c < 40 && NoneComplete(k, n, air, c)))
  }

  lemma HeldOpens(k: nat, n: nat, air: seq<(nat, nat)>, r: Rx, slots: seq<nat>, i: nat, f: nat, c: nat)
    requires Valid(k, n, r) && Remembers(k, n, air, r, slots) && Opens(k, n, air, r, c)
    requires i < |r.queue| && f < n && r.queue[i].idx <= MAX_BLOCK_IDX
    ensures Opens(k, n, air + [(r.queue[i].idx, f)], Insert(k, r, i, f).rx, c)
  {
    hide Insert, Arrived, NoneComplete, BlockOk, FirstBlock, Newest, HandedOver;
    var idx := r.queue[i].idx;
    InsertFirst(k, n, r, i, f);
    ArrivalStep(k, n, air, (idx, f), c);
    ArrivedStep(n, air, idx, f, idx);
    FirstNotNewer(n, air);
  }

  lemma BeyondOpens(k: nat, n: nat, air: seq<(nat, nat)>, r: Rx, slots: seq<nat>, idx: nat, f: nat, c: nat)
    requires Valid(k, n, r) && Remembers(k, n, air, r, slots) && Opens(k, n, air, r, c)
    requires r.last < idx <= MAX_BLOCK_IDX && f < n
    ensures var p := Locate(k, r, idx); Opens(k, n, air + [(idx, f)], Insert(k, p.rx, |p.rx.queue| - 1, f).rx, c)
  {
    hide Insert, Locate, Arrived, BlockOk, FirstBlock, Newest, HandedOver;
    LocateKeeps(k, n, r, idx);
    LocateFirst(k, n, r, idx);
    var l := Locate(k, r, idx).rx;
    InsertFirst(k, n, l, |l.queue| - 1, f);
    ArrivalStep(k, n, air, (idx, f), c);
    ArrivedStep(n, air, idx, f, idx);
    FirstNotNewer(n, air);
    if c > r.last {
      assert NoneComplete(k, n, air, c);
    }
    hide NoneComplete;
    assert Arrived(n, air, idx) == {} && l.queue[|l.queue| - 1].present == {};
  }

  lemma StepOpens(k: nat, n: nat, air: seq<(nat, nat)>, r: Rx, slots: seq<nat>, a: (nat, nat), c: nat)
    requires Valid(k, n, r) && Remembers(k, n, air, r, slots) && Opens(k, n, air, r, c)
    ensures Opens(k, n, air + [a], Step(k, n, r, a.0, a.1).rx, c)
  {
    hide Insert, Locate, Arrived, BlockOk, FirstBlock, Newest, NoneComplete, Remembers, Find;
    assert a == (a.0, a.1);
    ArrivalStep(k, n, air, a, c);
    FirstNotNewer(n, air);
    FindsFrom(k, n, r, a.0);
    if Counts(n, a) {
      if a.0 > r.last {
        BeyondOpens(k, n, air, r, slots, a.0, a.1, c);
      } else if Find(r.queue, a.0) < |r.queue| {
        HeldOpens(k, n, air, r, slots, Find(r.queue, a.0), a.1, c);
      }
    }
  }

  lemma {:induction false} RunOpens(k: nat, n: nat, air: seq<(nat, nat)>, c: nat)
    requires 1 <= k <= n
    ensures Opens(k, n, air, Run(k, n, air).rx, c)
  {
    if |air| > 0 {
      hide Step, Opens;
      var m := |air| - 1;
      RunOpens(k, n, air[..m], c);
      RunKeeps(k, n, air[..m]);
      RunRemembers(k, n, air[..m]);
      var p := Run(k, n, air[..m]);
      StepOpens(k, n, air[..m], p.rx, p.slots, air[m], c);
      assert air[..m] + [air[m]] == air;
    }
  }

  /** Over every run: the receiver takes a block if and only if the block is in time. */
  lemma ReceivableExactly(k: nat, n: nat, air: seq<(nat, nat)>, c: nat)
    requires 1 <= k <= n
    ensures Receivable(Run(k, n, air).rx, c) <==> InTime(k, n, air, c)
  {
    hide Run, FirstBlock, Newest, NoneComplete, Find, BlockOk;
    RunOpens(k, n, air, c);
    RunKeeps(k, n, air);
    FindsFrom(k, n, Run(k, n, air).rx, c);
  }
}
