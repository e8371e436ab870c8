/** The loss counter kept by send_packet, on 32-bit serial numbers. */
module LossAccounting {
  import RxSpec

  const WORD: nat := 0x1_0000_0000

  /** The last serial number handed over and the losses counted so far. */
  datatype Account = Account(serial: nat, lost: nat)

  /** One slot handed over. */
  function Charge(a: Account, slot: nat): Account {
    var s := slot % WORD;
    if s > (a.serial + 1) % WORD && a.serial > 0 then
      Account(s, (a.lost + (s - a.serial - 1) % WORD) % WORD)
    else Account(s, a.lost)
  }

  function ChargeAll(a: Account, slots: seq<nat>): Account {
    if |slots| == 0 then a
    else Charge(ChargeAll(a, slots[..|slots| - 1]), slots[|slots| - 1])
  }

  /** The slots between the first and the last that were not handed over. */
  ghost function Skipped(slots: seq<nat>): (g: int)
    requires |slots| > 0
  {
    slots[|slots| - 1] - slots[0] + 1 - |slots|
  }

  lemma {:induction false} SkippedNatural(slots: seq<nat>)
    requires |slots| > 0 && RxSpec.Increasing(slots, 0, WORD)
    ensures 0 <= Skipped(slots) <= slots[|slots| - 1]
  {
    var m := |slots| - 1;
    if m > 0 {
      SkippedNatural(slots[..m]);
      assert slots[..m][m - 1] == slots[m - 1];
    }
  }

  lemma ModuloSum(x: nat, d: nat)
    ensures (x % WORD + d) % WORD == (x + d) % WORD
  {}

  /** Without wrap-around of serial numbers, a gap is charged in full. */
  lemma ChargeGap(a: Account, slot: nat)
    requires 0 < a.serial < slot < WORD && a.lost < WORD
    ensures Charge(a, slot) == Account(slot, (a.lost + (slot - a.serial - 1)) % WORD)
  {
    assert slot % WORD == slot && (a.serial + 1) % WORD == a.serial + 1;
    assert (slot - a.serial - 1) % WORD == slot - a.serial - 1;
  }

  lemma ChargeFirst(lost: nat, slot: nat)
    requires slot < WORD
    ensures Charge(Account(0, lost), slot) == Account(slot, lost)
  {
    assert slot % WORD == slot;
  }

  /** In a session whose first slot is not slot 0, the counter grows by exactly the slots skipped, from
      whatever an earlier session left in it, as long as serial numbers do not wrap. */
  lemma {:induction false} LossesConserved(lost: nat, slots: seq<nat>)
    requires |slots| > 0 && RxSpec.Increasing(slots, 1, WORD) && lost < WORD
    ensures Skipped(slots) >= 0
    ensures ChargeAll(Account(0, lost), slots) == Account(slots[|slots| - 1], (lost + Skipped(slots)) % WORD)
    decreases |slots|
  {
    hide Charge;
    SkippedNatural(slots);
    var m := |slots| - 1;
    if m == 0 {
      assert ChargeAll(Account(0, lost), slots[..0]) == Account(0, lost);
      ChargeFirst(lost, slots[0]);
    } else {
      assert slots[..m][m - 1] == slots[m - 1];
      SkippedNatural(slots[..m]);
      LossesConserved(lost, slots[..m]);
      ChargeGap(ChargeAll(Account(0, lost), slots[..m]), slots[m]);
      ModuloSum(lost + Skipped(slots[..m]), slots[m] - slots[m - 1] - 1);
    }
  }

  /** A session that starts with slot 0: that slot moves nothing, and the account runs from the next one on. */
  lemma FirstSlotUncounted(lost: nat, slots: seq<nat>)
    requires |slots| > 1 && RxSpec.Increasing(slots, 0, WORD) && slots[0] == 0 && lost < WORD
    ensures Skipped(slots[1..]) == Skipped(slots) - (slots[1] - 1) >= 0
    ensures ChargeAll(Account(0, lost), slots) == Account(slots[|slots| - 1], (lost + Skipped(slots[1..])) % WORD)
  {
    ChargeAllFirst(Account(0, lost), slots);
    ChargeFirst(lost, 0);
    SkippedNatural(slots[1..]);
    LossesConserved(lost, slots[1..]);
  }

  lemma {:induction false} ChargeAllFirst(a: Account, slots: seq<nat>)
    requires |slots| > 0
    ensures ChargeAll(a, slots) == ChargeAll(Charge(a, slots[0]), slots[1..])
    decreases |slots|
  {
    var m := |slots| - 1;
    if m > 0 {
      ChargeAllFirst(a, slots[..m]);
      assert slots[..m][1..] == slots[1..][..m - 1];
    }
  }

  /** No gap right after slot 0. */
  predicate StartsCounted(slots: seq<nat>)
    requires |slots| > 0
  {
    slots[0] > 0 || |slots| == 1 || slots[1] == 1
  }

  /** The counter grows by the slots skipped if and only if there is no gap right after slot 0. */
  lemma CountedExactly(lost: nat, slots: seq<nat>)
    requires |slots| > 0 && RxSpec.Increasing(slots, 0, WORD) && lost < WORD
    ensures Skipped(slots) >= 0
    ensures ChargeAll(Account(0, lost), slots).lost == (lost + Skipped(slots)) % WORD <==> StartsCounted(slots)
  {
    hide ChargeAll;
    SkippedNatural(slots);
    if slots[0] > 0 {
      LossesConserved(lost, slots);
    } else if |slots| == 1 {
      ChargeOne(lost, slots);
    } else {
      FirstSlotUncounted(lost, slots);
      SkippedNatural(slots[1..]);
      assert slots[1] <= slots[|slots| - 1];
      ModuloDiffers(lost + Skipped(slots[1..]), slots[1] - 1);
    }
  }

  lemma ChargeOne(lost: nat, slots: seq<nat>)
    requires |slots| == 1 && slots[0] < WORD
    ensures ChargeAll(Account(0, lost), slots) == Account(slots[0], lost)
  {
    assert ChargeAll(Account(0, lost), slots[..0]) == Account(0, lost);
    ChargeFirst(lost, slots[0]);
  }

  lemma ModuloDiffers(x: nat, d: nat)
    requires d < WORD
    ensures x % WORD == (x + d) % WORD <==> d == 0
  {}

  /** Over every run of a receiver: the counter grows by the slots skipped if and only if there is no gap
      right after slot 0, and in any case by those skipped from the first nonzero slot on. */
  lemma RunLosses(k: nat, n: nat, air: seq<(nat, nat)>, lost: nat)
    requires 1 <= k <= n && lost < WORD
    requires var s := RxSpec.Run(k, n, air).slots; |s| > 0 && s[|s| - 1] < WORD
    ensures var s := RxSpec.Run(k, n, air).slots;
            var after := ChargeAll(Account(0, lost), s).lost;
            && Skipped(s) >= 0 && (after == (lost + Skipped(s)) % WORD <==> StartsCounted(s))
            && (s[0] == 0 && |s| > 1 ==> Skipped(s[1..]) >= 0 && after == (lost + Skipped(s[1..])) % WORD)
  {
    hide RxSpec.Run, ChargeAll;
    RxSpec.RunKeeps(k, n, air);
    var s := RxSpec.Run(k, n, air).slots;
    CountedExactly(lost, s);
    if s[0] == 0 && |s| > 1 {
      FirstSlotUncounted(lost, s);
    }
  }

  const GAP_AFTER_ZERO: seq<(nat, nat)> := [(0, 0), (1, 0), (1, 1)]

  const FIRST := RxSpec.Rx([RxSpec.Block(0, {0}, 1)], 0)
  const SECOND := RxSpec.Rx([RxSpec.Block(0, {0}, 1), RxSpec.Block(1, {0}, 0)], 1)

  lemma FirstStep()
    ensures RxSpec.Step(2, 3, RxSpec.INIT, 0, 0) == RxSpec.Result(FIRST, [0])
  {
    var l := RxSpec.Rx([RxSpec.Block(0, {}, 0)], 0);
    assert RxSpec.PushMany(2, RxSpec.Rx([], 0), 0, 1) == RxSpec.Result(l, []);
    assert RxSpec.Locate(2, RxSpec.INIT, 0) == RxSpec.Result(l, []);
    var b := RxSpec.Block(0, {0}, 0);
    assert {} + {0} == {0};
    assert RxSpec.RunEnd(2, b, 1) == 1;
    assert RxSpec.Slots(2, 0, 0, 1) == [0];
    assert RxSpec.Insert(2, l, 0, 0) == RxSpec.Result(FIRST, [0]);
  }

  lemma SecondStep()
    ensures RxSpec.Step(2, 3, FIRST, 1, 0) == RxSpec.Result(SECOND, [])
  {
    var l := RxSpec.Rx([RxSpec.Block(0, {0}, 1), RxSpec.Block(1, {}, 0)], 1);
    assert RxSpec.Find(FIRST.queue, 1) == 1;
    assert RxSpec.PushMany(2, FIRST.(last := 1), 1, 1) == RxSpec.Result(l, []);
    assert RxSpec.Locate(2, FIRST, 1) == RxSpec.Result(l, []);
    assert {} + {0} == {0};
    assert RxSpec.Slots(2, 1, 0, 0) == [];
    assert RxSpec.Insert(2, l, 1, 0) == RxSpec.Result(SECOND, []);
  }

  lemma ThirdStep()
    ensures RxSpec.Step(2, 3, SECOND, 1, 1) == RxSpec.Result(RxSpec.Rx([], 1), [2, 3])
  {
    assert RxSpec.Find(SECOND.queue, 1) == 1;
    assert {0} + {1} == {0, 1};
    assert RxSpec.FlushAll(2, [RxSpec.Block(0, {0}, 1)]) == [] by {
      assert RxSpec.FlushFrom(2, RxSpec.Block(0, {0}, 1), 1) == [];
    }
    assert SECOND.queue[..1] == [RxSpec.Block(0, {0}, 1)] && SECOND.queue[2..] == [];
    assert RxSpec.Slots(2, 1, 0, 0) == [];
    assert RxSpec.Slots(2, 1, 1, 2) == [3];
    assert RxSpec.Slots(2, 1, 0, 2) == [2, 3];
    assert RxSpec.Insert(2, SECOND, 1, 1) == RxSpec.Result(RxSpec.Rx([], 1), [2, 3]);
  }

  lemma RunThree(a: (nat, nat), b: (nat, nat), c: (nat, nat))
    ensures var r1 := RxSpec.Step(2, 3, RxSpec.INIT, a.0, a.1);
            var r2 := RxSpec.Step(2, 3, r1.rx, b.0, b.1);
            var r3 := RxSpec.Step(2, 3, r2.rx, c.0, c.1);
            RxSpec.Run(2, 3, [a, b, c]) == RxSpec.Result(r3.rx, r1.slots + r2.slots + r3.slots)
  {
    hide RxSpec.Step;
    assert [a, b, c][..2] == [a, b] && [a, b][..1] == [a] && [a][..0] == [];
    assert RxSpec.Run(2, 3, []) == RxSpec.Result(RxSpec.INIT, []);
    assert RxSpec.Run(2, 3, [a]).slots == [] + RxSpec.Step(2, 3, RxSpec.INIT, a.0, a.1).slots;
    assert RxSpec.Run(2, 3, [a, b]).rx == RxSpec.Step(2, 3, RxSpec.Run(2, 3, [a]).rx, b.0, b.1).rx;
  }

  /** With k = 2, the first fragment of block 0 and then block 1: slot 1 is lost and not counted. */
  lemma UncountedExample()
    ensures RxSpec.Run(2, 3, GAP_AFTER_ZERO).slots == [0, 2, 3]
    ensures ChargeAll(Account(0, 0), [0, 2, 3]).lost == 0 && Skipped([0, 2, 3]) == 1
  {
    hide RxSpec.Step, RxSpec.Run, ChargeAll;
    FirstStep();
    SecondStep();
    ThirdStep();
    RunThree((0, 0), (1, 0), (1, 1));
    FirstSlotUncounted(0, [0, 2, 3]);
    assert [0, 2, 3][1..] == [2, 3];
  }
}
