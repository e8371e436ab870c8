/** One block in the receiver's ring and the recovery of its missing data fragments. */
module Recovery {
  import opened Gf256
  import opened LinearAlgebra
  import opened Polynomial
  import opened GaussJordan
  import opened EncodingMatrix
  import opened RxSpec
  import opened Session
  import GfTables
  import Codec
  import opened Sequences

  /** A ring entry: buffers, the size of each fragment received (0 if none), the next fragment to
      hand over and the number of fragments received. */
  datatype Item = Item(block: nat, fragments: seq<seq<gf>>, sizes: seq<nat>, toSend: nat, has: nat)

  predicate Shaped(it: Item, n: nat) {
    && |it.fragments| == n && |it.sizes| == n
    && (forall f :: 0 <= f < n ==> |it.fragments[f]| == BUFFER)
    && (forall f :: 0 <= f < n ==> it.sizes[f] <= MAX_FEC_PAYLOAD)
  }

  // ----- counting fragments

  /** How many of the fragments lo .. hi - 1 are there. */
  function Count(sizes: seq<nat>, lo: nat, hi: nat): nat
    requires hi <= |sizes|
    decreases hi
  {
    if hi <= lo then 0 else Count(sizes, lo, hi - 1) + (if sizes[hi - 1] != 0 then 1 else 0)
  }

  lemma {:induction false} CountSplit(sizes: seq<nat>, lo: nat, mid: nat, hi: nat)
    requires lo <= mid <= hi <= |sizes|
    ensures Count(sizes, lo, hi) == Count(sizes, lo, mid) + Count(sizes, mid, hi)
    decreases hi
  {
    if mid < hi {
      CountSplit(sizes, lo, mid, hi - 1);
    }
  }

  lemma {:induction false} CountBound(sizes: seq<nat>, lo: nat, hi: nat)
    requires lo <= hi <= |sizes|
    ensures Count(sizes, lo, hi) <= hi - lo
    ensures Count(sizes, lo, hi) == hi - lo <==> forall f :: lo <= f < hi ==> sizes[f] != 0
    ensures Count(sizes, lo, hi) == 0 <==> forall f :: lo <= f < hi ==> sizes[f] == 0
    decreases hi
  {
    if lo < hi {
      CountBound(sizes, lo, hi - 1);
    }
  }

  function Present(sizes: seq<nat>, m: nat): (s: set<nat>)
    requires m <= |sizes|
    ensures forall f :: f in s <==> 0 <= f < m && sizes[f] != 0
    ensures |s| == Count(sizes, 0, m)
  {
    if m == 0 then {} else Present(sizes, m - 1) + (if sizes[m - 1] != 0 then {m - 1} else {})
  }

  // ----- what an item holds

  /** Every fragment of the item is authentic and sits in a cleared buffer. */
  ghost predicate Stored(k: nat, n: nat, log: seq<Packet>, it: Item)
    requires Shaped(it, n)
  {
    forall f :: 0 <= f < n && it.sizes[f] != 0 ==>
      Authentic(k, n, log, it.block, f, it.fragments[f][..it.sizes[f]]) &&
      it.fragments[f][it.sizes[f]..MAX_FEC_PAYLOAD] == Zeros(MAX_FEC_PAYLOAD - it.sizes[f])
  }

  lemma DataPadded(k: nat, n: nat, log: seq<Packet>, it: Item, f: nat)
    requires k <= n && Shaped(it, n) && Stored(k, n, log, it) && f < k && it.sizes[f] != 0
    ensures Slot(k, it.block, f) < |log| && Sendable(log[Slot(k, it.block, f)])
    ensures it.fragments[f][..MAX_FEC_PAYLOAD] == Padded(log[Slot(k, it.block, f)])
    ensures Holds(it.fragments[f], log[Slot(k, it.block, f)])
  {
    hide Slot, EncodingRow;
    var buf, m, p := it.fragments[f], it.sizes[f], log[Slot(k, it.block, f)];
    assert buf[..m] == Body(p);
    assert buf[..MAX_FEC_PAYLOAD] == buf[..m] + buf[m..MAX_FEC_PAYLOAD];
  }

  /** Byte t of fragment f is row f of the encoding matrix times byte t of the padded packets. */
  lemma FragmentEncodes(k: nat, n: nat, log: seq<Packet>, it: Item, f: nat, t: nat)
    requires Parameters(k, n) && Shaped(it, n) && Stored(k, n, log, it) && f < n && it.sizes[f] != 0
    requires Base(k, it.block) + k <= |log| && AllSendable(log)
    requires t < LargestBody(BlockPackets(k, log, it.block), k)
    ensures it.fragments[f][t] == Dot(EncodingRow(k, f), PaddedColumn(BlockPackets(k, log, it.block), t))
  {
    hide Dot, EncodingRow, Padded, LargestBody, Body, Base;
    var ps := BlockPackets(k, log, it.block);
    var d := PaddedColumn(ps, t);
    if f < k {
      DataPadded(k, n, log, it, f);
      Systematic(k, f);
      DotUnit(d, f);
      assert ps[f] == log[Slot(k, it.block, f)];
      assert it.fragments[f][t] == it.fragments[f][..MAX_FEC_PAYLOAD][t];
    } else {
      assert it.fragments[f][t] == it.fragments[f][..it.sizes[f]][t];
    }
  }

  lemma ParityMeansComplete(k: nat, n: nat, log: seq<Packet>, it: Item, f: nat)
    requires 1 <= k <= f < n && Shaped(it, n) && Stored(k, n, log, it) && it.sizes[f] != 0
    ensures Base(k, it.block) + k <= |log| && AllSendable(log)
    ensures it.sizes[f] == LargestBody(BlockPackets(k, log, it.block), k)
  {
    hide EncodingRow;
    assert |it.fragments[f][..it.sizes[f]]| == it.sizes[f];
  }

  // ----- choosing k fragments

  /** The fragment used in place i: the data fragment itself, or the next unused parity fragment. */
  ghost predicate Chosen(it: Item, k: nat, n: nat, index: seq<nat>, m: nat, j: nat)
    requires Shaped(it, n) && k <= n
  {
    && m <= |index| && m <= k <= j <= n
    && (forall i :: 0 <= i < m ==> index[i] < n && it.sizes[index[i]] != 0)
    && (forall i :: 0 <= i < m ==> if it.sizes[i] != 0 then index[i] == i else k <= index[i] < j)
    && (forall a, b :: 0 <= a < b < m && it.sizes[a] == 0 && it.sizes[b] == 0 ==> index[a] < index[b])
  }

  lemma ChosenMissing(it: Item, k: nat, n: nat, index: seq<nat>, j: nat, r: nat)
    requires Shaped(it, n) && k <= n && |index| == k && Chosen(it, k, n, index, k, j) && r < k
    ensures r in index <==> it.sizes[r] != 0
  {
    if it.sizes[r] != 0 {
      assert index[r] == r;
    }
  }

  /** Pick k fragments: each data fragment that is there, and a parity fragment for each that is not.
      The assertion that one is always left cannot fail. */
  method ChooseFragments(it: Item, k: nat, n: nat) returns (index: array<nat>, lost: seq<nat>, maxSize: nat)
    requires 1 <= k <= n && Shaped(it, n) && Count(it.sizes, 0, n) == k
    ensures fresh(index) && index.Length == k && Chosen(it, k, n, index[..], k, n)
    ensures lost == Codec.Missing(index[..], k) && |lost| <= n - k
    ensures maxSize <= MAX_FEC_PAYLOAD
    ensures |lost| > 0 ==> exists j :: k <= j < n && it.sizes[j] != 0 && it.sizes[j] == maxSize
  {
    hide Codec.Missing, Count, Chosen, LostBelow;
    index := new nat[k](_ => 0);
    lost, maxSize := [], 0;
    ghost var widest := 0;
    var j := k;
    CountSplit(it.sizes, 0, k, n);
    CountBound(it.sizes, 0, k);
    ChosenNone(it, k, n, index[..]);
    LostNone(it.sizes);
    for i := 0 to k
      invariant k <= j <= n && Chosen(it, k, n, index[..], i, j)
      invariant Count(it.sizes, j, n) == k - i - Count(it.sizes, i, k)
      invariant lost == LostBelow(it.sizes, i)
      invariant maxSize <= MAX_FEC_PAYLOAD
      invariant maxSize > 0 ==> k <= widest < n && it.sizes[widest] == maxSize
      invariant |lost| > 0 ==> maxSize > 0
    {
      CountSplit(it.sizes, i, i + 1, k);
      CountOne(it.sizes, i);
      LostNext(it.sizes, i);
      ghost var chosen, j0 := index[..], j;
      if it.sizes[i] != 0 {
        index[i] := i;
        ChosenNext(it, k, n, chosen, index[..], i, j0, j);
      } else {
        j := NextParity(it, k, n, i, j);
        if maxSize < it.sizes[j] {
          maxSize, widest := it.sizes[j], j;
        }
        lost := lost + [i];
        index[i] := j;
        ChosenNext(it, k, n, chosen, index[..], i, j0, j + 1);
        CountSplit(it.sizes, j, j + 1, n);
        CountOne(it.sizes, j);
        j := j + 1;
      }
    }
    LostIsMissing(it, k, n, index[..], j, k);
    ChosenWiden(it, k, n, index[..], j);
    LostCount(it.sizes, k);
    CountBound(it.sizes, k, n);
  }

  lemma ChosenNone(it: Item, k: nat, n: nat, index: seq<nat>)
    requires Shaped(it, n) && k <= n && |index| == k
    ensures Chosen(it, k, n, index, 0, k)
  {}

  lemma ChosenNext(it: Item, k: nat, n: nat, index: seq<nat>, index': seq<nat>, i: nat, j: nat, j': nat)
    requires Shaped(it, n) && k <= n && |index| == |index'| == k && i < k && j <= j' <= n
    requires Chosen(it, k, n, index, i, j)
    requires forall l :: 0 <= l < i ==> index'[l] == index[l]
    requires if it.sizes[i] != 0 then index'[i] == i else j <= index'[i] < j' && it.sizes[index'[i]] != 0
    ensures Chosen(it, k, n, index', i + 1, j')
  {}

  lemma ChosenWiden(it: Item, k: nat, n: nat, index: seq<nat>, j: nat)
    requires Shaped(it, n) && k <= n && |index| == k && Chosen(it, k, n, index, k, j)
    ensures Chosen(it, k, n, index, k, n)
  {}

  lemma CountOne(sizes: seq<nat>, i: nat)
    requires i < |sizes|
    ensures Count(sizes, i, i + 1) == if sizes[i] != 0 then 1 else 0
  {}

  /** Skip to the next parity fragment that is there. */
  method NextParity(it: Item, k: nat, n: nat, i: nat, j0: nat) returns (j: nat)
    requires i < k <= j0 <= n && Shaped(it, n) && it.sizes[i] == 0
    requires Count(it.sizes, j0, n) == k - i - Count(it.sizes, i, k)
    ensures j0 <= j < n && it.sizes[j] != 0 && Count(it.sizes, j, n) == Count(it.sizes, j0, n)
  {
    hide Count;
    j := j0;
    while j < n && it.sizes[j] == 0
      invariant j0 <= j <= n && Count(it.sizes, j, n) == Count(it.sizes, j0, n)
    {
      CountSplit(it.sizes, j, j + 1, n);
      CountOne(it.sizes, j);
      j := j + 1;
    }
    CountBound(it.sizes, i, k);
    CountBound(it.sizes, j, n);
    assert j < n;
  }

  /** The data fragments below m that did not arrive. */
  function LostBelow(sizes: seq<nat>, m: nat): seq<nat>
    requires m <= |sizes|
  {
    if m == 0 then [] else LostBelow(sizes, m - 1) + (if sizes[m - 1] == 0 then [m - 1] else [])
  }

  lemma {:induction false} LostCount(sizes: seq<nat>, m: nat)
    requires m <= |sizes|
    ensures |LostBelow(sizes, m)| + Count(sizes, 0, m) == m
  {
    if m > 0 {
      LostCount(sizes, m - 1);
    }
  }

  lemma LostNone(sizes: seq<nat>)
    ensures LostBelow(sizes, 0) == []
  {}

  lemma LostNext(sizes: seq<nat>, m: nat)
    requires m < |sizes|
    ensures LostBelow(sizes, m + 1) == if sizes[m] == 0 then LostBelow(sizes, m) + [m] else LostBelow(sizes, m)
  {}

  lemma {:induction false} LostIsMissing(it: Item, k: nat, n: nat, index: seq<nat>, j: nat, m: nat)
    requires Shaped(it, n) && k <= n && |index| == k && Chosen(it, k, n, index, k, j) && m <= k
    ensures LostBelow(it.sizes, m) == Codec.Missing(index, m)
  {
    hide Chosen;
    if m > 0 {
      LostIsMissing(it, k, n, index, j, m - 1);
      ChosenMissing(it, k, n, index, j, m - 1);
    }
  }

  lemma {:induction false} LostNonempty(sizes: seq<nat>, f: nat, m: nat)
    requires f < m <= |sizes| && sizes[f] == 0
    ensures |LostBelow(sizes, m)| > 0
  {
    if f < m - 1 {
      LostNonempty(sizes, f, m - 1);
    }
  }

  lemma {:induction false} LostProperties(sizes: seq<nat>, m: nat)
    requires m <= |sizes|
    ensures forall o :: 0 <= o < |LostBelow(sizes, m)| ==> LostBelow(sizes, m)[o] < m && sizes[LostBelow(sizes, m)[o]] == 0
    ensures forall f :: 0 <= f < m && sizes[f] == 0 ==> f in LostBelow(sizes, m)
    ensures Distinct(LostBelow(sizes, m))
  {
    if m > 0 {
      LostProperties(sizes, m - 1);
    }
  }

  lemma ChosenDistinct(it: Item, k: nat, n: nat, index: seq<nat>)
    requires Shaped(it, n) && k <= n && |index| == k && Chosen(it, k, n, index, k, n)
    ensures Distinct(index) && !Codec.Conflict(index, k)
  {}

  /** The fragments chosen, in order. */
  function ChosenData(it: Item, index: seq<nat>): (r: seq<seq<gf>>)
    requires forall i :: 0 <= i < |index| ==> index[i] < |it.fragments|
    ensures |r| == |index|
  {
    seq(|index|, i requires 0 <= i < |index| => it.fragments[index[i]])
  }

  /** Out of authentic fragments the decoder produces the bodies of the lost packets. */
  lemma DecodedHolds(k: nat, n: nat, log: seq<Packet>, it: Item, index: seq<nat>, lost: seq<nat>, out: seq<seq<gf>>, j: nat, o: nat)
    requires Parameters(k, n) && Shaped(it, n) && Stored(k, n, log, it)
    requires |index| == k && Chosen(it, k, n, index, k, n) && lost == Codec.Missing(index, k)
    requires k <= j < n && it.sizes[j] != 0
    requires Codec.Recovered(out, ChosenData(it, index), index, k, RoundUpSimd(it.sizes[j]))
    requires o < |lost| && |out[o]| == BUFFER
    ensures Slot(k, it.block, lost[o]) < |log| && Holds(out[o], log[Slot(k, it.block, lost[o])])
  {
    hide EncodingRow, Dot, Padded, LargestBody, Base, Codec.Missing, Chosen, Stored, Body;
    ParityMeansComplete(k, n, log, it, j);
    LostProvided(it, k, n, index, lost);
    var ps := BlockPackets(k, log, it.block);
    var p := ps[lost[o]];
    assert p == log[Slot(k, it.block, lost[o])];
    var b := Body(p);
    forall t | 0 <= t < |b| ensures out[o][t] == b[t] {
      ChosenCarries(k, n, log, it, index, t);
      var d := PaddedColumn(ps, t);
      assert Codec.Carries(ChosenData(it, index), index, t, d);
      assert out[o][t] == d[lost[o]];
      PaddedStarts(p, t);
    }
    assert out[o][..|b|] == b;
  }

  lemma PaddedStarts(p: Packet, t: nat)
    requires Sendable(p) && t < |Body(p)|
    ensures Padded(p)[t] == Body(p)[t]
  {}

  lemma ChosenCarries(k: nat, n: nat, log: seq<Packet>, it: Item, index: seq<nat>, t: nat)
    requires Parameters(k, n) && Shaped(it, n) && Stored(k, n, log, it)
    requires |index| == k && Chosen(it, k, n, index, k, n)
    requires Base(k, it.block) + k <= |log| && AllSendable(log)
    requires t < LargestBody(BlockPackets(k, log, it.block), k)
    ensures Codec.Carries(ChosenData(it, index), index, t, PaddedColumn(BlockPackets(k, log, it.block), t))
  {
    hide EncodingRow, Dot, Stored, LargestBody, Base, PaddedColumn;
    var d := PaddedColumn(BlockPackets(k, log, it.block), t);
    forall i | 0 <= i < k ensures ChosenData(it, index)[i][t] == Dot(EncodingRow(k, index[i]), d) {
      FragmentEncodes(k, n, log, it, index[i], t);
    }
  }

  /** Put the decoded packets into the buffers of the lost fragments. */
  method WriteBack(it: Item, n: nat, lost: seq<nat>, outs: seq<array<gf>>) returns (fragments: seq<seq<gf>>)
    requires Shaped(it, n) && |outs| == |lost| && Distinct(lost) && forall o :: 0 <= o < |lost| ==> lost[o] < n
    ensures |fragments| == n
    ensures forall o :: 0 <= o < |lost| ==> fragments[lost[o]] == outs[o][..]
    ensures forall f :: 0 <= f < n && f !in lost ==> fragments[f] == it.fragments[f]
  {
    fragments := it.fragments;
    for o := 0 to |lost|
      invariant |fragments| == n
      invariant forall l :: 0 <= l < o ==> fragments[lost[l]] == outs[l][..]
      invariant forall f :: 0 <= f < n && f !in lost ==> fragments[f] == it.fragments[f]
    {
      fragments := fragments[lost[o] := outs[o][..]];
    }
  }

  lemma LostProvided(it: Item, k: nat, n: nat, index: seq<nat>, lost: seq<nat>)
    requires Shaped(it, n) && k <= n && |index| == k && Chosen(it, k, n, index, k, n) && lost == Codec.Missing(index, k)
    ensures forall i :: 0 <= i < k ==> index[i] < n
    ensures Distinct(lost) && forall o :: 0 <= o < |lost| ==> lost[o] < k && it.sizes[lost[o]] == 0
    ensures forall f :: 0 <= f < k && it.sizes[f] == 0 ==> f in lost
  {
    hide LostBelow;
    LostIsMissing(it, k, n, index, n, k);
    LostProperties(it.sizes, k);
  }

  /** Decode the lost data fragments into fresh buffers. */
  method Decode(t: GfTables.Tables, enc: array2<gf>, k: nat, n: nat, it: Item, index: array<nat>, lost: seq<nat>, sz: nat) returns (outs: seq<array<gf>>)
    requires t.Valid() && Parameters(k, n) && enc.Length0 == n && enc.Length1 == k && Rows(enc) == Matrix(k, n)
    requires Shaped(it, n) && index.Length == k && index != t.log && Chosen(it, k, n, index[..], k, n)
    requires lost == Codec.Missing(index[..], k) && sz <= BUFFER
    modifies index
    ensures |outs| == |lost| && forall o :: 0 <= o < |outs| ==> outs[o].Length == BUFFER
    ensures forall i :: 0 <= i < k ==> old(index[i]) < n
    ensures Codec.Recovered(Codec.Contents(outs), ChosenData(it, old(index[..])), old(index[..]), k, sz)
  {
    hide Codec.Missing, Chosen, Codec.Recovered, Codec.Conflict, Matrix, GfTables.Tables.Valid, Codec.Separate;
    LostProvided(it, k, n, index[..], lost);
    ChosenDistinct(it, k, n, index[..]);
    ghost var idx := index[..];
    var ins;
    ins, outs := DecodeBuffers(t, k, n, it, index, lost);
    var inpkts := new array<gf>[k](i requires 0 <= i < k => ins[i]);
    assert inpkts[..] == ins && index[..] == idx;
    var ok := Codec.FecDecode(t, enc, k, n, inpkts, outs, index, sz);
    assert ok;
  }

  /** The chosen fragments as inputs, and the buffers of the lost ones as outputs. */
  method DecodeBuffers(t: GfTables.Tables, k: nat, n: nat, it: Item, index: array<nat>, lost: seq<nat>)
    returns (ins: seq<array<gf>>, outs: seq<array<gf>>)
    requires Shaped(it, n) && index.Length == k && (forall i :: 0 <= i < k ==> index[i] < n)
    requires forall o :: 0 <= o < |lost| ==> lost[o] < n
    ensures |ins| == k && |outs| == |lost| && fresh(outs) && Codec.Contents(ins) == ChosenData(it, index[..])
    ensures Codec.LongEnough(Codec.Contents(ins), BUFFER) && Codec.LongEnough(Codec.Contents(outs), BUFFER)
    ensures Codec.Separate(ins, outs, t) && forall o :: 0 <= o < |outs| ==> outs[o].Length == BUFFER
  {
    ins := Codec.Buffers(ChosenData(it, index[..]));
    outs := Codec.Buffers(seq(|lost|, o requires 0 <= o < |lost| => it.fragments[lost[o]]));
    assert forall o :: 0 <= o < |outs| ==> outs[o].Length == |Codec.Contents(outs)[o]|;
  }

  /** The buffers after recovery: what was received stays, and if the fragments are authentic every
      data buffer now starts with the body of its packet. */
  method ApplyFec(t: GfTables.Tables, enc: array2<gf>, k: nat, n: nat, it: Item, ghost log: seq<Packet>) returns (fragments: seq<seq<gf>>)
    requires t.Valid() && Parameters(k, n) && enc.Length0 == n && enc.Length1 == k && Rows(enc) == Matrix(k, n)
    requires Shaped(it, n) && Count(it.sizes, 0, n) == k
    requires exists f :: 0 <= f < k && it.sizes[f] == 0
    ensures |fragments| == n && forall f :: 0 <= f < n ==> |fragments[f]| == BUFFER
    ensures forall f :: 0 <= f < n && (f >= k || it.sizes[f] != 0) ==> fragments[f] == it.fragments[f]
    ensures Stored(k, n, log, it) ==> forall f :: 0 <= f < k ==>
              Slot(k, it.block, f) < |log| && Holds(fragments[f], log[Slot(k, it.block, f)])
  {
    hide Codec.Missing, Chosen, Stored, Codec.Recovered, Holds, Slot, Matrix, GfTables.Tables.Valid;
    var index, lost, maxSize := ChooseFragments(it, k, n);
    ghost var idx := index[..];
    LostProvided(it, k, n, idx, lost);
    ghost var f0 :| 0 <= f0 < k && it.sizes[f0] == 0;
    assert f0 in lost;
    ghost var j :| k <= j < n && it.sizes[j] != 0 && it.sizes[j] == maxSize;
    var outs := Decode(t, enc, k, n, it, index, lost, RoundUpSimd(maxSize));
    fragments := WriteBack(it, n, lost, outs);
    if Stored(k, n, log, it) {
      forall f | 0 <= f < k ensures Slot(k, it.block, f) < |log| && Holds(fragments[f], log[Slot(k, it.block, f)]) {
        if it.sizes[f] != 0 {
          DataPadded(k, n, log, it, f);
        } else {
          var o :| 0 <= o < |lost| && lost[o] == f;
          DecodedHolds(k, n, log, it, idx, lost, Codec.Contents(outs), j, o);
        }
      }
    }
  }
}
