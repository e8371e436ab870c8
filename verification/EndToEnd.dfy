/** Transmitter, air and receiver together, for the traffic of one session. */
module EndToEnd {
  import opened Gf256
  import opened EncodingMatrix
  import opened RxSpec
  import opened RxLossless
  import opened RxTolerant
  import opened Session
  import GfTables
  import Transmitter
  import Aggregator

  /** What the application is meant to receive. */
  function Payloads(ps: seq<Packet>): seq<seq<gf>> {
    if |ps| == 0 then [] else Payloads(ps[..|ps| - 1]) + Delivery(ps[|ps| - 1])
  }

  /** The packets a transmitter accepts, and how many of them are in the open block. */
  function Accepted(k: nat, ps: seq<Packet>): (r: (seq<Packet>, nat))
    ensures |r.0| <= |ps|
    ensures AllSendable(ps) ==> AllSendable(r.0)
  {
    if |ps| == 0 then ([], 0)
    else
      var a, p := Accepted(k, ps[..|ps| - 1]), ps[|ps| - 1];
      if a.1 == 0 && FecOnly(p) then a
      else (a.0 + [p], if a.1 + 1 < k then a.1 + 1 else 0)
  }

  /** A refused packet is one the application would not have seen. */
  lemma {:induction false} RefusedInvisible(k: nat, ps: seq<Packet>)
    ensures Payloads(Accepted(k, ps).0) == Payloads(ps)
  {
    if |ps| > 0 {
      RefusedInvisible(k, ps[..|ps| - 1]);
      var a, p := Accepted(k, ps[..|ps| - 1]), ps[|ps| - 1];
      assert (a.0 + [p])[..|a.0|] == a.0;
    }
  }

  // ----- subsequences

  ghost predicate Selects<T>(at: seq<nat>, a: seq<T>, b: seq<T>) {
    |at| == |a| && Increasing(at, 0, |b|) && forall i :: 0 <= i < |a| ==> a[i] == b[at[i]]
  }

  /** `a` is some elements of `b`, in the same order. */
  ghost predicate Subsequence<T(!new)>(a: seq<T>, b: seq<T>) {
    exists at: seq<nat> :: Selects(at, a, b)
  }

  lemma SubsequenceOfNothing<T(!new)>()
    ensures Subsequence<T>([], [])
  {
    assert Selects<T>([], [], []);
  }

  lemma SubsequenceLonger<T(!new)>(a: seq<T>, b: seq<T>, c: seq<T>)
    requires Subsequence(a, b)
    ensures Subsequence(a, b + c)
  {
    var at: seq<nat> :| Selects(at, a, b);
    assert Selects(at, a, b + c);
  }

  lemma SubsequenceBoth<T(!new)>(a: seq<T>, b: seq<T>, x: T)
    requires Subsequence(a, b)
    ensures Subsequence(a + [x], b + [x])
  {
    var at: seq<nat> :| Selects(at, a, b);
    assert Selects(at + [|b|], a + [x], b + [x]);
  }

  lemma {:induction false} DeliveredPrefix(log: seq<Packet>, m: nat, slots: seq<nat>)
    requires m <= |log| && forall i :: 0 <= i < |slots| ==> slots[i] < m
    ensures Delivered(log, slots) == Delivered(log[..m], slots)
  {
    if |slots| > 0 {
      DeliveredPrefix(log, m, slots[..|slots| - 1]);
    }
  }

  /** Slots handed over in increasing order deliver payloads in the order of sending. */
  lemma {:induction false} InOrderDelivery(log: seq<Packet>, slots: seq<nat>)
    requires Increasing(slots, 0, |log|)
    ensures Subsequence(Delivered(log, slots), Payloads(log))
  {
    hide Subsequence, Delivered, Payloads, Delivery;
    if |log| == 0 {
      DeliveredNothing();
      SubsequenceOfNothing<seq<gf>>();
    } else {
      var m := |log| - 1;
      PayloadsLast(log);
      if |slots| > 0 && slots[|slots| - 1] == m {
        var s := slots[..|slots| - 1];
        DeliveredLast(log, slots);
        DeliveredPrefix(log, m, s);
        InOrderDelivery(log[..m], s);
        SubsequenceDelivery(Delivered(log[..m], s), Payloads(log[..m]), log[m]);
      } else {
        DeliveredPrefix(log, m, slots);
        InOrderDelivery(log[..m], slots);
        SubsequenceLonger(Delivered(log[..m], slots), Payloads(log[..m]), Delivery(log[m]));
      }
    }
  }

  lemma DeliveredNothing()
    ensures Delivered([], []) == [] && Payloads([]) == []
  {}

  lemma DeliveredLast(log: seq<Packet>, slots: seq<nat>)
    requires |slots| > 0 && forall i :: 0 <= i < |slots| ==> slots[i] < |log|
    ensures Delivered(log, slots) == Delivered(log, slots[..|slots| - 1]) + Delivery(log[slots[|slots| - 1]])
  {}

  lemma PayloadsLast(ps: seq<Packet>)
    requires |ps| > 0
    ensures Payloads(ps) == Payloads(ps[..|ps| - 1]) + Delivery(ps[|ps| - 1])
  {}

  lemma SubsequenceDelivery(a: seq<seq<gf>>, b: seq<seq<gf>>, p: Packet)
    requires Subsequence(a, b)
    ensures Subsequence(a + Delivery(p), b + Delivery(p))
  {
    hide Subsequence;
    if FecOnly(p) {
      assert a + [] == a && b + [] == b;
    } else {
      SubsequenceBoth(a, b, p.payload);
    }
  }

  /** Every slot handed over delivers everything. */
  lemma {:induction false} FullDelivery(log: seq<Packet>)
    ensures Delivered(log, UpTo(|log|)) == Payloads(log)
  {
    if |log| > 0 {
      var m := |log| - 1;
      assert UpTo(|log|)[..m] == UpTo(m);
      DeliveredPrefix(log, m, UpTo(m));
      FullDelivery(log[..m]);
    }
  }

  // ----- the two ends

  /** All that the session sends for these packets. */
  method Transmit(t: GfTables.Tables, k: nat, n: nat, packets: seq<Packet>) returns (wire: seq<Transmitter.Datagram>, b: nat)
    requires t.Valid() && Parameters(k, n) && AllSendable(packets) && |packets| < Base(k, MAX_BLOCK_IDX + 1)
    ensures var (log, f) := Accepted(k, packets);
            && Transmitter.AllAuthentic(k, n, log, wire) && f < k && b <= MAX_BLOCK_IDX
            && Slot(k, b, f) == |log| && Transmitter.Ids(wire) == Wire(k, n, b, f)
  {
    hide Transmitter.Transmitter.Valid, Wire, Transmitter.AllAuthentic, Transmitter.Ids, Base;
    var tx := new Transmitter.Transmitter(t, k, n);
    wire := [];
    for i := 0 to |packets|
      invariant fresh(tx) && fresh(tx.block) && tx.Valid() && tx.k == k && tx.n == n
      invariant wire == tx.wire && (tx.log, tx.fragmentIdx) == Accepted(k, packets[..i])
    {
      assert packets[..i + 1][..i] == packets[..i];
      tx.Where();
      StaysInSession(k, tx.blockIdx, tx.fragmentIdx);
      var accepted, sent := tx.SendPacket(packets[i]);
      wire := wire + sent;
    }
    assert packets[..|packets|] == packets;
    tx.Where();
    b := tx.blockIdx;
  }

  /** The next position is within the session as long as packets are left. */
  lemma StaysInSession(k: nat, b: nat, f: nat)
    requires f < k && b <= MAX_BLOCK_IDX && Slot(k, b, f) + 1 < Base(k, MAX_BLOCK_IDX + 1)
    ensures f + 1 == k ==> b + 1 <= MAX_BLOCK_IDX
  {
    hide Base;
    if f + 1 == k {
      BaseNext(k, b);
    }
  }

  /** The receiver is where the run says, and what it holds and delivered is the traffic of the log. */
  ghost predicate Reached(rx: Aggregator.Aggregator, s: Result, log: seq<Packet>)
    reads rx, rx.ring, rx.enc, rx.t.exp, rx.t.log, rx.t.inverse, rx.t.mul, rx.t.mul16
  {
    rx.Valid() && Result(rx.Abs(), rx.emitted) == s && rx.Agrees(log)
  }

  method NewReceiver(t: GfTables.Tables, k: nat, n: nat, ghost log: seq<Packet>) returns (rx: Aggregator.Aggregator)
    requires t.Valid() && Parameters(k, n)
    ensures fresh(rx) && fresh(rx.ring) && rx.k == k && rx.n == n && Reached(rx, Run(k, n, []), log)
  {
    hide GfTables.Tables.Valid, Aggregator.Aggregator.Coding, RxSpec.Valid;
    rx := new Aggregator.Aggregator(t, k, n);
    assert rx.alloc == |rx.Abs().queue| == 0;
  }

  method Deliver(rx: Aggregator.Aggregator, d: Transmitter.Datagram, ghost s: Result, ghost log: seq<Packet>)
    requires Reached(rx, s, log) && Authentic(rx.k, rx.n, log, Transmitter.Id(d).0, Transmitter.Id(d).1, d.bytes)
    modifies rx, rx.ring
    ensures var r := Step(rx.k, rx.n, s.rx, Transmitter.Id(d).0, Transmitter.Id(d).1);
            Reached(rx, Result(r.rx, s.slots + r.slots), log)
  {
    hide Step, Authentic, Aggregator.Aggregator.Coding, RxSpec.Valid, Aggregator.Aggregator.Agrees;
    KnownParameters(rx);
    AuthenticSize(rx.k, rx.n, log, Transmitter.Id(d).0, Transmitter.Id(d).1, d.bytes);
    rx.ProcessPacket(d.nonce, d.bytes, log);
  }

  lemma KnownParameters(rx: Aggregator.Aggregator)
    requires rx.Valid()
    ensures 1 <= rx.k <= rx.n
  {}

  /** A receiver that gets these datagrams, in this order. */
  method Receive(t: GfTables.Tables, k: nat, n: nat, arrivals: seq<Transmitter.Datagram>, ghost log: seq<Packet>) returns (out: seq<seq<gf>>)
    requires t.Valid() && Parameters(k, n) && Transmitter.AllAuthentic(k, n, log, arrivals)
    ensures var s := Run(k, n, Transmitter.Ids(arrivals)).slots;
            (forall i :: 0 <= i < |s| ==> s[i] < |log|) && out == Delivered(log, s)
  {
    hide GfTables.Tables.Valid, Reached, Run, Step, Authentic, Transmitter.Ids, Transmitter.Id;
    var rx := NewReceiver(t, k, n, log);
    NoIds();
    for i := 0 to |arrivals|
      invariant fresh(rx) && fresh(rx.ring) && rx.k == k && rx.n == n
      invariant Reached(rx, Run(k, n, Transmitter.Ids(arrivals[..i])), log)
    {
      var d := arrivals[i];
      Deliver(rx, d, Run(k, n, Transmitter.Ids(arrivals[..i])), log);
      IdsNext(arrivals, i);
      RunSnoc(k, n, Transmitter.Ids(arrivals[..i]), Transmitter.Id(d).0, Transmitter.Id(d).1);
    }
    assert arrivals[..|arrivals|] == arrivals;
    Delivers(rx, Run(k, n, Transmitter.Ids(arrivals)), log);
    out := rx.out;
  }

  lemma NoIds()
    ensures Transmitter.Ids([]) == []
  {}

  lemma IdsNext(w: seq<Transmitter.Datagram>, i: nat)
    requires i < |w|
    ensures Transmitter.Ids(w[..i + 1]) == Transmitter.Ids(w[..i]) + [(Transmitter.Id(w[i]).0, Transmitter.Id(w[i]).1)]
  {}

  lemma Delivers(rx: Aggregator.Aggregator, s: Result, log: seq<Packet>)
    requires Reached(rx, s, log)
    ensures (forall i :: 0 <= i < |s.slots| ==> s.slots[i] < |log|) && rx.out == Delivered(log, s.slots)
  {}

  // ----- end to end

  /** The datagrams that arrive: losses, repetitions and any order are all possible. */
  function Arrivals(wire: seq<Transmitter.Datagram>, air: seq<nat>): (r: seq<Transmitter.Datagram>)
    ensures forall i :: 0 <= i < |r| ==> r[i] in wire
  {
    if |air| == 0 then []
    else Arrivals(wire, air[..|air| - 1]) + (if air[|air| - 1] < |wire| then [wire[air[|air| - 1]]] else [])
  }

  /** Transmitter, air and receiver. The wire is the session's fragments, and the output is the packets of the
      slots the receiver hands over for what arrives. Whatever happens on the air, that is an in-order
      subsequence of the payloads sent, byte for byte. It is all of them if nothing happens on the air, and
      also if the last block is closed and every block gets k fragments while the receiver can take it, as
      it does when blocks arrive in order and each loses at most n - k fragments. */
  method Link(t: GfTables.Tables, k: nat, n: nat, packets: seq<Packet>, air: seq<nat>)
    returns (wire: seq<Transmitter.Datagram>, out: seq<seq<gf>>, blocks: nat)
    requires t.Valid() && Parameters(k, n) && AllSendable(packets) && |packets| < Base(k, MAX_BLOCK_IDX + 1)
    ensures var (log, f) := Accepted(k, packets);
            && f < k && Slot(k, blocks, f) == |log| && blocks <= MAX_BLOCK_IDX
            && Transmitter.AllAuthentic(k, n, log, wire) && Transmitter.Ids(wire) == Wire(k, n, blocks, f)
    ensures var log := Accepted(k, packets).0;
            var slots := Run(k, n, Transmitter.Ids(Arrivals(wire, air))).slots;
            (forall i :: 0 <= i < |slots| ==> slots[i] < |log|) && out == Delivered(log, slots)
    ensures Subsequence(out, Payloads(packets))
    ensures Arrivals(wire, air) == wire ==> out == Payloads(packets)
    ensures Accepted(k, packets).1 == 0 && AllComplete(k, n, Transmitter.Ids(Arrivals(wire, air)), blocks) ==> out == Payloads(packets)
    ensures Accepted(k, packets).1 == 0 && Tolerable(k, n, Transmitter.Ids(Arrivals(wire, air)), blocks) ==> out == Payloads(packets)
  {
    hide GfTables.Tables.Valid, Authentic, Subsequence, Run, Wire, Transmitter.Ids, Base, Payloads, Accepted, AllComplete, Tolerable;
    wire, blocks := Transmit(t, k, n, packets);
    ghost var (log, f) := Accepted(k, packets);
    var arrivals := Arrivals(wire, air);
    out := Receive(t, k, n, arrivals, log);
    ghost var run := Run(k, n, Transmitter.Ids(arrivals));
    RunKeeps(k, n, Transmitter.Ids(arrivals));
    assert Increasing(run.slots, 0, |log|);
    InOrderDelivery(log, run.slots);
    RefusedInvisible(k, packets);
    FullDelivery(log);
    if arrivals == wire {
      LosslessRun(k, n, blocks, f);
    }
    if Tolerable(k, n, Transmitter.Ids(arrivals), blocks) {
      TolerableCompletes(k, n, Transmitter.Ids(arrivals), blocks);
    }
    if f == 0 && AllComplete(k, n, Transmitter.Ids(arrivals), blocks) {
      NothingMissing(k, n, Transmitter.Ids(arrivals), blocks);
    }
  }
}
