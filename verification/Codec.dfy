/** Encoding and decoding of blocks of packets. */
module Codec {
  import opened Gf256
  import opened LinearAlgebra
  import opened Polynomial
  import GfTables
  import Kernels
  import opened GaussJordan
  import opened EncodingMatrix
  import opened Sequences

  /** The packets' contents as values. */
  ghost function Contents(pkts: seq<array<gf>>): (r: seq<seq<gf>>)
    reads pkts
    ensures |r| == |pkts| && forall j :: 0 <= j < |pkts| ==> r[j] == pkts[j][..]
  {
    seq(|pkts|, j requires 0 <= j < |pkts| reads pkts => pkts[j][..])
  }

  ghost predicate LongEnough(data: seq<seq<gf>>, sz: nat) {
    forall j :: 0 <= j < |data| ==> sz <= |data[j]|
  }

  /** Byte b of every packet. */
  ghost function ByteColumn(data: seq<seq<gf>>, b: nat): (v: Vec)
    requires LongEnough(data, b + 1)
    ensures |v| == |data|
  {
    seq(|data|, j requires 0 <= j < |data| => data[j][b])
  }

  /** Fresh buffers with the given contents. */
  method Buffers(contents: seq<seq<gf>>) returns (bufs: seq<array<gf>>)
    ensures |bufs| == |contents| && fresh(bufs) && Contents(bufs) == contents
    ensures forall i, j :: 0 <= i < j < |bufs| ==> bufs[i] != bufs[j]
  {
    bufs := [];
    for m := 0 to |contents|
      invariant |bufs| == m && fresh(bufs)
      invariant forall j :: 0 <= j < m ==> bufs[j][..] == contents[j]
      invariant forall i, j :: 0 <= i < j < m ==> bufs[i] != bufs[j]
    {
      var a := new gf[|contents[m]|](i requires 0 <= i < |contents[m]| => contents[m][i]);
      assert a[..] == contents[m];
      bufs := bufs + [a];
    }
  }

  const STRIDE := 8192

  // ----- encoding

  method Clear(fec: array<gf>, lo: nat, hi: nat)
    requires lo <= hi <= fec.Length
    modifies fec
    ensures forall b :: 0 <= b < fec.Length ==> fec[b] == if lo <= b < hi then 0 else old(fec[b])
  {
    for i := lo to hi
      invariant forall b :: 0 <= b < fec.Length ==> fec[b] == if lo <= b < i then 0 else old(fec[b])
    {
      fec[i] := 0;
    }
  }

  /** sums[b] is the product of the first j coefficients with byte b of the first j packets, on [lo, hi). */
  ghost predicate PartialSums(sums: seq<gf>, before: seq<gf>, row: Vec, data: seq<seq<gf>>, j: nat, lo: nat, hi: nat) {
    && |sums| == |before| && hi <= |sums| && j <= |data| == |row| && LongEnough(data, hi)
    && forall b :: 0 <= b < |sums| ==>
         sums[b] == if lo <= b < hi then DotTo(row, ByteColumn(data, b), j) else before[b]
  }

  lemma PartialSumsStep(s: seq<gf>, s': seq<gf>, before: seq<gf>, row: Vec, data: seq<seq<gf>>, j: nat, lo: nat, hi: nat)
    requires PartialSums(s, before, row, data, j, lo, hi) && j < |data|
    requires if row[j] == 0 then s' == s else Kernels.Accumulated(s', s, data[j], row[j], lo, hi)
    ensures PartialSums(s', before, row, data, j + 1, lo, hi)
  {
    hide Mul, Add, DotTo;
    forall b | lo <= b < hi ensures s'[b] == DotTo(row, ByteColumn(data, b), j + 1) {
      DotNext(row, ByteColumn(data, b), j);
      MulZero(data[j][b]);
      AddIdentity(s[b]);
    }
  }

  lemma PartialSumsStart(s: seq<gf>, before: seq<gf>, row: Vec, data: seq<seq<gf>>, lo: nat, hi: nat)
    requires |s| == |before| && hi <= |s| && |data| == |row| && LongEnough(data, hi)
    requires forall b :: 0 <= b < |s| ==> s[b] == if lo <= b < hi then 0 else before[b]
    ensures PartialSums(s, before, row, data, 0, lo, hi)
  {}

  /** One output packet on one range of bytes: clear it, then add every input times its coefficient. */
  method Combine(t: GfTables.Tables, m: array2<gf>, row: nat, inpkts: seq<array<gf>>, out: array<gf>, lo: nat, hi: nat)
    requires t.Valid() && row < m.Length0 && m.Length1 == |inpkts|
    requires lo <= hi <= out.Length && out !in inpkts && out != t.exp && out != t.inverse
    requires LongEnough(Contents(inpkts), hi)
    modifies out
    ensures PartialSums(out[..], old(out[..]), Rows(m)[row], Contents(inpkts), |inpkts|, lo, hi)
  {
    hide PartialSums, Kernels.Accumulated, GfTables.Tables.Valid;
    ghost var data, r := Contents(inpkts), Rows(m)[row];
    Clear(out, lo, hi);
    PartialSumsStart(out[..], old(out[..]), r, data, lo, hi);
    for j := 0 to |inpkts|
      invariant t.Valid() && Contents(inpkts) == data && Rows(m)[row] == r
      invariant PartialSums(out[..], old(out[..]), r, data, j, lo, hi)
    {
      ghost var s := out[..];
      if m[row, j] != 0 {
        Kernels.AddMulSimd(t, out, inpkts[j], lo, hi - lo, m[row, j]);
      }
      PartialSumsStep(s, out[..], old(out[..]), r, data, j, lo, hi);
    }
  }

  lemma PartialSumsExtend(s: seq<gf>, s': seq<gf>, before: seq<gf>, row: Vec, data: seq<seq<gf>>, j: nat, mid: nat, hi: nat)
    requires mid <= hi && PartialSums(s, before, row, data, j, 0, mid) && PartialSums(s', s, row, data, j, mid, hi)
    ensures PartialSums(s', before, row, data, j, 0, hi)
  {
    hide DotTo;
  }

  ghost predicate Separate(inpkts: seq<array<gf>>, outpkts: seq<array<gf>>, t: GfTables.Tables) {
    && (forall i, j :: 0 <= i < j < |outpkts| ==> outpkts[i] != outpkts[j])
    && (forall i :: 0 <= i < |outpkts| ==> outpkts[i] !in inpkts && outpkts[i] != t.exp && outpkts[i] != t.inverse)
  }

  lemma SeparateAt(inpkts: seq<array<gf>>, outpkts: seq<array<gf>>, t: GfTables.Tables, i: nat)
    requires Separate(inpkts, outpkts, t) && i < |outpkts|
    ensures outpkts[i] !in inpkts && outpkts[i] != t.exp && outpkts[i] != t.inverse
    ensures forall l :: 0 <= l < |outpkts| && l != i ==> outpkts[l] != outpkts[i]
  {}

  /** Output packet i holds, on its first hi bytes, row (first + i) of the matrix times the data. */
  ghost predicate RowsDone(out: seq<seq<gf>>, before: seq<seq<gf>>, m: Mat, first: nat, data: seq<seq<gf>>, count: nat, hi: nat, hi': nat) {
    && |out| == |before| && first + |out| <= |m|
    && forall i :: 0 <= i < |out| ==>
         PartialSums(out[i], before[i], m[first + i], data, |data|, 0, if i < count then hi' else hi)
  }

  lemma RowsDoneStep(out: seq<seq<gf>>, out': seq<seq<gf>>, before: seq<seq<gf>>, m: Mat, first: nat, data: seq<seq<gf>>, i: nat, hi: nat, hi': nat)
    requires hi <= hi' && i < |out| == |out'| && RowsDone(out, before, m, first, data, i, hi, hi')
    requires forall l :: 0 <= l < |out| && l != i ==> out'[l] == out[l]
    requires PartialSums(out'[i], out[i], m[first + i], data, |data|, hi, hi')
    ensures RowsDone(out', before, m, first, data, i + 1, hi, hi')
  {
    hide PartialSums;
    PartialSumsExtend(out[i], out'[i], before[i], m[first + i], data, |data|, hi, hi');
  }

  lemma RowsDoneStart(out: seq<seq<gf>>, m: Mat, first: nat, data: seq<seq<gf>>)
    requires first + |out| <= |m| && forall r :: 0 <= r < |m| ==> |m[r]| == |data|
    ensures RowsDone(out, out, m, first, data, 0, 0, 0)
  {}

  method EncodeStride(t: GfTables.Tables, enc: array2<gf>, k: nat, inpkts: seq<array<gf>>, fecs: seq<array<gf>>, lo: nat, hi: nat, ghost before: seq<seq<gf>>)
    requires t.Valid() && enc.Length0 == k + |fecs| && enc.Length1 == |inpkts| == k && lo <= hi
    requires Separate(inpkts, fecs, t) && LongEnough(Contents(inpkts), hi) && LongEnough(Contents(fecs), hi)
    requires RowsDone(Contents(fecs), before, Rows(enc), k, Contents(inpkts), 0, lo, lo)
    modifies fecs
    ensures t.Valid() && Contents(inpkts) == old(Contents(inpkts)) && LongEnough(Contents(fecs), hi)
    ensures RowsDone(Contents(fecs), before, Rows(enc), k, Contents(inpkts), 0, hi, hi)
  {
    hide RowsDone, PartialSums, GfTables.Tables.Valid, Separate;
    ghost var data, m := Contents(inpkts), Rows(enc);
    RowsDoneWiden(Contents(fecs), before, m, k, data, lo, hi);
    for i := 0 to |fecs|
      invariant t.Valid() && Contents(inpkts) == data
      invariant RowsDone(Contents(fecs), before, m, k, data, i, lo, hi)
    {
      ghost var out := Contents(fecs);
      SeparateAt(inpkts, fecs, t, i);
      Combine(t, enc, k + i, inpkts, fecs[i], lo, hi);
      RowsDoneStep(out, Contents(fecs), before, m, k, data, i, lo, hi);
    }
    RowsDoneAll(Contents(fecs), before, m, k, data, lo, hi);
  }

  /** The parity packets: stride by stride, every row of the matrix below the identity. */
  method FecEncode(t: GfTables.Tables, enc: array2<gf>, k: nat, n: nat, inpkts: seq<array<gf>>, fecs: seq<array<gf>>, sz: nat)
    requires t.Valid() && Parameters(k, n) && enc.Length0 == n && enc.Length1 == k && Rows(enc) == Matrix(k, n)
    requires |inpkts| == k && |fecs| == n - k && Separate(inpkts, fecs, t)
    requires LongEnough(Contents(inpkts), sz) && LongEnough(Contents(fecs), sz)
    modifies fecs
    ensures Contents(inpkts) == old(Contents(inpkts)) && t.Valid()
    ensures Encoded(Contents(fecs), old(Contents(fecs)), k, Contents(inpkts), sz)
  {
    hide RowsDone, Matrix, GfTables.Tables.Valid, Separate, Encoded;
    ghost var data, before := Contents(inpkts), Contents(fecs);
    RowsDoneStart(before, Rows(enc), k, data);
    var k0 := 0;
    while k0 < sz
      invariant 0 <= k0 <= sz
      invariant t.Valid() && Contents(inpkts) == data
      invariant RowsDone(Contents(fecs), before, Rows(enc), k, data, 0, k0, k0)
    {
      var stride := if sz - k0 < STRIDE then sz - k0 else STRIDE;
      EncodeStride(t, enc, k, inpkts, fecs, k0, k0 + stride, before);
      k0 := k0 + stride;
    }
    RowsDoneMeaning(Contents(fecs), before, k, n, data, sz);
  }

  lemma RowsDoneWiden(out: seq<seq<gf>>, before: seq<seq<gf>>, m: Mat, first: nat, data: seq<seq<gf>>, hi: nat, hi': nat)
    requires RowsDone(out, before, m, first, data, 0, hi, hi)
    ensures RowsDone(out, before, m, first, data, 0, hi, hi')
  {
    hide PartialSums;
  }

  lemma RowsDoneAll(out: seq<seq<gf>>, before: seq<seq<gf>>, m: Mat, first: nat, data: seq<seq<gf>>, hi: nat, hi': nat)
    requires RowsDone(out, before, m, first, data, |out|, hi, hi')
    ensures RowsDone(out, before, m, first, data, 0, hi', hi')
  {
    hide PartialSums;
  }

  /** The parity packets of the data: their first sz bytes, the rest of the buffers untouched. */
  ghost predicate Encoded(out: seq<seq<gf>>, before: seq<seq<gf>>, k: nat, data: seq<seq<gf>>, sz: nat) {
    && |out| == |before| && |data| == k && LongEnough(data, sz)
    && forall i :: 0 <= i < |out| ==>
         && |out[i]| == |before[i]| && sz <= |out[i]|
         && (forall b :: 0 <= b < sz ==> out[i][b] == Dot(EncodingRow(k, k + i), ByteColumn(data, b)))
         && out[i][sz..] == before[i][sz..]
  }

  lemma RowsDoneMeaning(out: seq<seq<gf>>, before: seq<seq<gf>>, k: nat, n: nat, data: seq<seq<gf>>, sz: nat)
    requires Parameters(k, n) && |data| == k && |out| == n - k && LongEnough(data, sz)
    requires RowsDone(out, before, Matrix(k, n), k, data, 0, sz, sz)
    ensures Encoded(out, before, k, data, sz)
  {
    hide DotTo, EncodingRow;
    forall i | 0 <= i < |out|
      ensures |out[i]| == |before[i]| && sz <= |out[i]|
      ensures forall b :: 0 <= b < sz ==> out[i][b] == Dot(EncodingRow(k, k + i), ByteColumn(data, b))
      ensures out[i][sz..] == before[i][sz..]
    {
      assert PartialSums(out[i], before[i], Matrix(k, n)[k + i], data, k, 0, sz);
    }
  }

  // ----- putting received packets in place

  /** Two packets claim the same data block. */
  predicate Conflict(index: seq<nat>, k: nat) {
    exists i, j :: 0 <= i < j < |index| && index[i] == index[j] < k
  }

  function Zip<T>(pkt: seq<T>, index: seq<nat>): (r: seq<(T, nat)>)
    requires |pkt| == |index|
    ensures |r| == |pkt|
  {
    seq(|pkt|, i requires 0 <= i < |pkt| => (pkt[i], index[i]))
  }

  function Fixed(index: seq<nat>, n: nat): nat
    requires n <= |index|
  {
    if n == 0 then 0 else Fixed(index, n - 1) + (if index[n - 1] == n - 1 then 1 else 0)
  }

  lemma {:induction false} FixedBound(index: seq<nat>, n: nat)
    requires n <= |index|
    ensures Fixed(index, n) <= n
  {
    if n > 0 {
      FixedBound(index, n - 1);
    }
  }

  /** Sending packet i to its place c makes one more packet fixed. */
  lemma {:induction false} FixedGrows(index: seq<nat>, i: nat, c: nat, n: nat)
    requires n <= |index| && i < |index| && c < |index| && i != c && index[i] == c && index[c] != c
    ensures Fixed(Swapped(index, i, c), n) >= Fixed(index, n) + (if c < n then 1 else 0)
  {
    if n > 0 {
      FixedGrows(index, i, c, n - 1);
    }
  }

  lemma ConflictSwapped(index: seq<nat>, k: nat, i: nat, c: nat)
    requires i < |index| && c < |index| && Conflict(index, k)
    ensures Conflict(Swapped(index, i, c), k)
  {
    var a, b :| 0 <= a < b < |index| && index[a] == index[b] < k;
    var a' := if a == i then c else if a == c then i else a;
    var b' := if b == i then c else if b == c then i else b;
    var s := Swapped(index, i, c);
    assert s[a'] == index[a] && s[b'] == index[b];
    if a' < b' {
      assert s[a'] == s[b'];
    } else {
      assert s[b'] == s[a'];
    }
  }

  lemma SwapTwice<T>(s: seq<T>, i: nat, c: nat)
    requires i < |s| && c < |s|
    ensures Swapped(Swapped(s, i, c), i, c) == s
  {}

  lemma SwapKeepsPairs<T>(pkt: seq<T>, index: seq<nat>, i: nat, c: nat)
    requires |pkt| == |index| && i < |pkt| && c < |pkt|
    ensures multiset(Zip(Swapped(pkt, i, c), Swapped(index, i, c))) == multiset(Zip(pkt, index))
  {
    var z := Zip(pkt, index);
    assert Zip(Swapped(pkt, i, c), Swapped(index, i, c)) == Swapped(z, i, c);
    if i != c {
      assert z[i := z[c]][c] == z[c];
    }
  }

  /** Packets are permuted with their numbers until every present data block is in its own place;
      this succeeds exactly when no data block is claimed twice. */
  method Shuffle<T>(pkt: array<T>, index: array<nat>) returns (ok: bool)
    requires pkt.Length == index.Length && pkt as object != index
    modifies pkt, index
    ensures ok <==> !Conflict(old(index[..]), index.Length)
    ensures ok ==> forall j :: 0 <= j < index.Length ==> index[j] >= index.Length || index[j] == j
    ensures multiset(Zip(pkt[..], index[..])) == multiset(Zip(old(pkt[..]), old(index[..])))
    ensures forall m: nat :: Conflict(index[..], m) <==> Conflict(old(index[..]), m)
  {
    hide Conflict, Fixed;
    var k := index.Length;
    var i := 0;
    while i < k
      invariant 0 <= i <= k
      invariant forall j :: 0 <= j < i ==> index[j] >= k || index[j] == j
      invariant forall m: nat :: Conflict(index[..], m) <==> Conflict(old(index[..]), m)
      invariant multiset(Zip(pkt[..], index[..])) == multiset(Zip(old(pkt[..]), old(index[..])))
      decreases k - Fixed(index[..], k), k - i
    {
      if index[i] >= k || index[i] == i {
        i := i + 1;
      } else {
        var c := index[i];
        ghost var s, z := index[..], pkt[..];
        if index[c] == c {
          TwoClaims(s, k, i, c);
          return false;
        }
        FixedGrows(s, i, c, k);
        FixedBound(Swapped(s, i, c), k);
        index[i], index[c] := index[c], index[i];
        pkt[i], pkt[c] := pkt[c], pkt[i];
        assert index[..] == Swapped(s, i, c) && pkt[..] == Swapped(z, i, c);
        SwapKeepsPairs(z, s, i, c);
        forall m: nat ensures Conflict(index[..], m) <==> Conflict(s, m) { SameConflict(s, m, i, c); }
      }
    }
    InPlaceNoConflict(index[..], k);
    ok := true;
  }

  lemma TwoClaims(index: seq<nat>, k: nat, i: nat, c: nat)
    requires i < |index| && c < |index| && i != c && index[i] == c == index[c] < k
    ensures Conflict(index, k)
  {
    if i < c {
      assert index[i] == index[c];
    } else {
      assert index[c] == index[i];
    }
  }

  lemma SameConflict(index: seq<nat>, k: nat, i: nat, c: nat)
    requires i < |index| && c < |index|
    ensures Conflict(Swapped(index, i, c), k) <==> Conflict(index, k)
  {
    hide Conflict;
    if Conflict(index, k) {
      ConflictSwapped(index, k, i, c);
    }
    if Conflict(Swapped(index, i, c), k) {
      ConflictSwapped(Swapped(index, i, c), k, i, c);
      SwapTwice(index, i, c);
    }
  }

  lemma InPlaceNoConflict(index: seq<nat>, k: nat)
    requires k == |index| && forall j :: 0 <= j < k ==> index[j] >= k || index[j] == j
    ensures !Conflict(index, k)
  {}

  // ----- decoding

  /** The data blocks below r that no packet carries, in increasing order. */
  function Missing(index: seq<nat>, r: nat): (m: seq<nat>)
    ensures |m| <= r && forall i :: 0 <= i < |m| ==> m[i] < r
  {
    if r == 0 then [] else Missing(index, r - 1) + (if r - 1 in index then [] else [r - 1])
  }

  /** Byte b of the packets is what the data column d encodes to under the packets' numbers. */
  ghost predicate Carries(data: seq<seq<gf>>, index: seq<nat>, b: nat, d: Vec) {
    && |data| == |index| == |d| && LongEnough(data, b + 1)
    && forall i :: 0 <= i < |index| ==> data[i][b] == Dot(EncodingRow(|d|, index[i]), d)
  }

  /** Whatever data the packets encode, the outputs are its missing blocks. */
  ghost predicate Recovered(out: seq<seq<gf>>, data: seq<seq<gf>>, index: seq<nat>, k: nat, sz: nat) {
    var miss := Missing(index, k);
    && |miss| <= |out| && LongEnough(out, sz)
    && forall b, d: Vec :: 0 <= b < sz && |d| == k && Carries(data, index, b, d) ==>
         forall o :: 0 <= o < |miss| ==> out[o][b] == d[miss[o]]
  }

  lemma PairFrom<T>(pkt: seq<T>, index: seq<nat>, pkt': seq<T>, index': seq<nat>, i: nat) returns (j: nat)
    requires |pkt| == |index| && |pkt'| == |index'|
    requires multiset(Zip(pkt', index')) == multiset(Zip(pkt, index)) && i < |pkt'|
    ensures j < |pkt| && pkt[j] == pkt'[i] && index[j] == index'[i]
  {
    var p := Zip(pkt', index')[i];
    assert p in multiset(Zip(pkt', index'));
    assert p in Zip(pkt, index);
    j :| 0 <= j < |pkt| && Zip(pkt, index)[j] == p;
  }

  lemma SameNumbers<T>(pkt: seq<T>, index: seq<nat>, pkt': seq<T>, index': seq<nat>, v: nat)
    requires |pkt| == |index| && |pkt'| == |index'|
    requires multiset(Zip(pkt', index')) == multiset(Zip(pkt, index))
    ensures v in index' <==> v in index
  {
    if v in index' {
      var i :| 0 <= i < |index'| && index'[i] == v;
      var j := PairFrom(pkt, index, pkt', index', i);
    }
    if v in index {
      var i :| 0 <= i < |index| && index[i] == v;
      var j := PairFrom(pkt', index', pkt, index, i);
    }
  }

  lemma {:induction false} MissingSame(index: seq<nat>, index': seq<nat>, r: nat)
    requires forall v: nat :: v in index' <==> v in index
    ensures Missing(index', r) == Missing(index, r)
  {
    if r > 0 {
      MissingSame(index, index', r - 1);
    }
  }

  lemma StillDistinct(index: seq<nat>, index': seq<nat>, k: nat)
    requires forall m: nat :: Conflict(index', m) <==> Conflict(index, m)
    requires !Conflict(index, k)
    requires forall i, j :: 0 <= i < j < |index| && index[i] == index[j] ==> index[i] < k
    ensures Distinct(index')
  {
    forall i, j | 0 <= i < j < |index'| ensures index'[i] != index'[j] {
      if index'[i] == index'[j] {
        assert Conflict(index', index'[i] + 1);
      }
    }
  }

  /** Rows of the encoding matrix for the packets at hand, inverted. */
  method DecodeMatrix(t: GfTables.Tables, enc: array2<gf>, k: nat, n: nat, index: array<nat>) returns (m: array2<gf>)
    requires t.Valid() && Parameters(k, n) && enc.Length0 == n && enc.Length1 == k && Rows(enc) == Matrix(k, n)
    requires index.Length == k && Distinct(index[..]) && forall i :: 0 <= i < k ==> index[i] < n
    requires forall i :: 0 <= i < k ==> index[i] >= k || index[i] == i
    ensures fresh(m) && m.Length0 == m.Length1 == k && Inverses(Select(k, index[..]), Rows(m), k)
  {
    hide EncodingRow, Nonsingular, Inverses, GfTables.Tables.Valid;
    m := new gf[k, k]((_, _) => 0);
    for i := 0 to k
      invariant forall r :: 0 <= r < i ==> Rows(m)[r] == EncodingRow(k, index[r])
    {
      ghost var before := Rows(m);
      if index[i] < k {
        FillUnitRow(m, i, k);
        Systematic(k, i);
      } else {
        CopyRow(m, i, enc, index[i], k);
      }
      forall r | 0 <= r <= i ensures Rows(m)[r] == EncodingRow(k, index[r]) {
        if r < i {
          assert before[r] == EncodingRow(k, index[r]);
        }
      }
    }
    assert Rows(m) == Select(k, index[..]);
    AnyRowsNonsingular(k, index[..]);
    InvertMat(t, m);
  }

  method FillUnitRow(m: array2<gf>, i: nat, k: nat)
    requires m.Length0 == m.Length1 == k && i < k
    modifies m
    ensures Rows(m)[i] == Unit(k, i)
    ensures forall r :: 0 <= r < k && r != i ==> Rows(m)[r] == old(Rows(m))[r]
  {
    for j := 0 to k
      invariant forall s :: 0 <= s < j ==> m[i, s] == 0
      invariant forall r, s :: 0 <= r < k && 0 <= s < k && r != i ==> m[r, s] == old(m[r, s])
    {
      m[i, j] := 0;
    }
    m[i, i] := 1;
    assert Rows(m)[i] == Unit(k, i);
    forall r | 0 <= r < k && r != i ensures Rows(m)[r] == old(Rows(m))[r] {
    }
  }

  method CopyRow(m: array2<gf>, i: nat, enc: array2<gf>, row: nat, k: nat)
    requires m.Length0 == m.Length1 == enc.Length1 == k && i < k && row < enc.Length0 && m != enc
    modifies m
    ensures Rows(m)[i] == Rows(enc)[row]
    ensures forall r :: 0 <= r < k && r != i ==> Rows(m)[r] == old(Rows(m))[r]
  {
    for j := 0 to k
      invariant forall s :: 0 <= s < j ==> m[i, s] == enc[row, s]
      invariant forall r, s :: 0 <= r < k && 0 <= s < k && r != i ==> m[r, s] == old(m[r, s])
    {
      m[i, j] := enc[row, j];
    }
    assert Rows(m)[i] == Rows(enc)[row];
    forall r | 0 <= r < k && r != i ensures Rows(m)[r] == old(Rows(m))[r] {
    }
  }

  /** Packet o of the outputs is row miss[o] of the matrix times the inputs, for the first rows of miss. */
  ghost predicate OutputsDone(out: seq<seq<gf>>, data: seq<seq<gf>>, m: Mat, miss: seq<nat>, sz: nat) {
    && |miss| <= |out| && LongEnough(out, sz) && LongEnough(data, sz)
    && (forall r :: 0 <= r < |m| ==> |m[r]| == |data|)
    && (forall o :: 0 <= o < |miss| ==> miss[o] < |m|)
    && forall o, b :: 0 <= o < |miss| && 0 <= b < sz ==> out[o][b] == Dot(m[miss[o]], ByteColumn(data, b))
  }

  lemma OutputsDoneStep(out: seq<seq<gf>>, out': seq<seq<gf>>, data: seq<seq<gf>>, m: Mat, miss: seq<nat>, row: nat, sz: nat)
    requires OutputsDone(out, data, m, miss, sz) && |miss| < |out| == |out'| && row < |m| && LongEnough(out', sz)
    requires forall o :: 0 <= o < |out| && o != |miss| ==> out'[o] == out[o]
    requires PartialSums(out'[|miss|], out[|miss|], m[row], data, |data|, 0, sz)
    ensures OutputsDone(out', data, m, miss + [row], sz)
  {
    hide DotTo;
  }

  /** Any data the packets carry comes out of the inverse matrix. */
  lemma OutputsRecover(out: seq<seq<gf>>, data: seq<seq<gf>>, index: seq<nat>, m: Mat, k: nat, sz: nat)
    requires |index| == |data| == k && Square(m, k) && Inverses(Select(k, index), m, k)
    requires OutputsDone(out, data, m, Missing(index, k), sz)
    ensures Recovered(out, data, index, k, sz)
  {
    hide EncodingRow, Dot;
    var miss := Missing(index, k);
    forall b, d: Vec | 0 <= b < sz && |d| == k && Carries(data, index, b, d)
      ensures forall o :: 0 <= o < |miss| ==> out[o][b] == d[miss[o]]
    {
      var y := ByteColumn(data, b);
      assert Maps(Select(k, index), d, y);
      assert Maps(m, y, d);
    }
  }

  /** Shuffling the packets with their numbers does not change what they carry. */
  lemma RecoveredBeforeShuffle(out: seq<seq<gf>>, pkt: seq<array<gf>>, index: seq<nat>, pkt': seq<array<gf>>, index': seq<nat>, k: nat, sz: nat)
    requires |pkt| == |index| == |pkt'| == |index'| == k
    requires multiset(Zip(pkt', index')) == multiset(Zip(pkt, index))
    requires Recovered(out, Contents(pkt'), index', k, sz)
    ensures Recovered(out, Contents(pkt), index, k, sz)
  {
    hide EncodingRow, Dot;
    forall v: nat ensures v in index' <==> v in index { SameNumbers(pkt, index, pkt', index', v); }
    MissingSame(index, index', k);
    var miss := Missing(index, k);
    forall b, d: Vec | 0 <= b < sz && |d| == k && Carries(Contents(pkt), index, b, d)
      ensures forall o :: 0 <= o < |miss| ==> out[o][b] == d[miss[o]]
    {
      forall i | 0 <= i < k ensures b < |Contents(pkt')[i]| && Contents(pkt')[i][b] == Dot(EncodingRow(k, index'[i]), d) {
        var j := PairFrom(pkt, index, pkt', index', i);
        assert Contents(pkt)[j][b] == Dot(EncodingRow(k, index[j]), d);
      }
      assert Carries(Contents(pkt'), index', b, d);
    }
  }

  lemma {:induction false} MissingStep(index: seq<nat>, row: nat)
    requires row < |index| && forall i :: 0 <= i < |index| ==> index[i] >= |index| || index[i] == i
    ensures Missing(index, row + 1) == Missing(index, row) + (if index[row] >= |index| then [row] else [])
  {
    if index[row] < |index| {
      assert row in index;
    }
  }

  lemma {:induction false} MissingMonotone(index: seq<nat>, r: nat, k: nat)
    requires r <= k
    ensures |Missing(index, r)| <= |Missing(index, k)|
  {
    if r < k {
      MissingMonotone(index, r, k - 1);
    }
  }

  method WriteMissing(t: GfTables.Tables, m: array2<gf>, row: nat, inpkts: seq<array<gf>>, outpkts: seq<array<gf>>, outix: nat, sz: nat, ghost miss: seq<nat>)
    requires t.Valid() && row < m.Length0 && m.Length1 == |inpkts| && outix == |miss| < |outpkts|
    requires Separate(inpkts, outpkts, t)
    requires OutputsDone(Contents(outpkts), Contents(inpkts), Rows(m), miss, sz)
    modifies outpkts[outix]
    ensures t.Valid() && Contents(inpkts) == old(Contents(inpkts))
    ensures OutputsDone(Contents(outpkts), Contents(inpkts), Rows(m), miss + [row], sz)
  {
    hide PartialSums, GfTables.Tables.Valid, Separate;
    ghost var out := Contents(outpkts);
    SeparateAt(inpkts, outpkts, t, outix);
    Combine(t, m, row, inpkts, outpkts[outix], 0, sz);
    OutputsDoneStep(out, Contents(outpkts), Contents(inpkts), Rows(m), miss, row, sz);
  }

  /** The missing rows, one output packet each. */
  method ComputeMissing(t: GfTables.Tables, m: array2<gf>, k: nat, inpkts: seq<array<gf>>, outpkts: seq<array<gf>>, index: array<nat>, sz: nat)
    requires t.Valid() && m.Length0 == m.Length1 == |inpkts| == index.Length == k
    requires forall i :: 0 <= i < k ==> index[i] >= k || index[i] == i
    requires Separate(inpkts, outpkts, t) && LongEnough(Contents(inpkts), sz) && LongEnough(Contents(outpkts), sz)
    requires |Missing(index[..], k)| <= |outpkts|
    modifies outpkts
    ensures t.Valid() && Contents(inpkts) == old(Contents(inpkts))
    ensures OutputsDone(Contents(outpkts), Contents(inpkts), Rows(m), Missing(index[..], k), sz)
  {
    hide OutputsDone, GfTables.Tables.Valid, Separate, LongEnough, Missing;
    ghost var data, a, idx := Contents(inpkts), Rows(m), index[..];
    NoneDone(Contents(outpkts), data, a, sz, idx);
    var outix := 0;
    for row := 0 to k
      invariant t.Valid() && Contents(inpkts) == data && index[..] == idx
      invariant outix == |Missing(idx, row)|
      invariant OutputsDone(Contents(outpkts), data, a, Missing(idx, row), sz)
    {
      assert index[row] >= k || index[row] == row;
      MissingStep(idx, row);
      MissingMonotone(idx, row + 1, k);
      if index[row] >= k {
        WriteMissing(t, m, row, inpkts, outpkts, outix, sz, Missing(idx, row));
        outix := outix + 1;
      } else {
        assert Missing(idx, row + 1) == Missing(idx, row);
      }
    }
  }

  lemma NoneDone(out: seq<seq<gf>>, data: seq<seq<gf>>, m: Mat, sz: nat, index: seq<nat>)
    requires LongEnough(out, sz) && LongEnough(data, sz) && forall r :: 0 <= r < |m| ==> |m[r]| == |data|
    ensures OutputsDone(out, data, m, Missing(index, 0), sz) && |Missing(index, 0)| == 0
  {}

  lemma ShuffleKeeps(pkt: seq<array<gf>>, index: seq<nat>, pkt': seq<array<gf>>, index': seq<nat>, outpkts: seq<array<gf>>, t: GfTables.Tables, n: nat, sz: nat)
    requires |pkt| == |index| == |pkt'| == |index'|
    requires multiset(Zip(pkt', index')) == multiset(Zip(pkt, index))
    requires Separate(pkt, outpkts, t) && LongEnough(Contents(pkt), sz)
    requires forall i :: 0 <= i < |index| ==> index[i] < n
    ensures Separate(pkt', outpkts, t) && LongEnough(Contents(pkt'), sz)
    ensures forall i :: 0 <= i < |index'| ==> index'[i] < n
    ensures Missing(index', |index|) == Missing(index, |index|)
  {
    forall i | 0 <= i < |pkt'| ensures pkt'[i] in pkt && sz <= pkt'[i].Length && index'[i] < n {
      var j := PairFrom(pkt, index, pkt', index', i);
      assert sz <= |Contents(pkt)[j]|;
    }
    forall v: nat ensures v in index' <==> v in index { SameNumbers(pkt, index, pkt', index', v); }
    MissingSame(index, index', |index|);
  }

  lemma InputsKept(pkt: seq<array<gf>>, outpkts: seq<array<gf>>, t: GfTables.Tables)
    requires Separate(pkt, outpkts, t)
    ensures forall p :: p in pkt ==> p !in outpkts
  {}

  /** Decoding fails exactly when two packets claim the same data block; otherwise every missing
      data block is written out, in increasing order. */
  method FecDecode(t: GfTables.Tables, enc: array2<gf>, k: nat, n: nat, inpkts: array<array<gf>>, outpkts: seq<array<gf>>, index: array<nat>, sz: nat)
    returns (ok: bool)
    requires t.Valid() && Parameters(k, n) && enc.Length0 == n && enc.Length1 == k && Rows(enc) == Matrix(k, n)
    requires inpkts.Length == index.Length == k && index != t.log
    requires forall i :: 0 <= i < k ==> index[i] < n
    requires forall i, j :: 0 <= i < j < k && index[i] == index[j] ==> index[i] < k
    requires Separate(inpkts[..], outpkts, t)
    requires LongEnough(Contents(inpkts[..]), sz) && LongEnough(Contents(outpkts), sz)
    requires |Missing(index[..], k)| <= |outpkts|
    modifies inpkts, index, outpkts
    ensures t.Valid()
    ensures ok <==> !Conflict(old(index[..]), k)
    ensures ok ==> Recovered(Contents(outpkts), old(Contents(inpkts[..])), old(index[..]), k, sz)
  {
    hide Conflict, Missing, Separate, LongEnough, Zip, Recovered, OutputsDone, Inverses, Select, Matrix, GfTables.Tables.Valid;
    ghost var pkt, idx, data := inpkts[..], index[..], Contents(inpkts[..]);
    ok := Shuffle(inpkts, index);
    if ok {
      ghost var pkt', idx' := inpkts[..], index[..];
      assert Contents(pkt) == data;
      ShuffleKeeps(pkt, idx, pkt', idx', outpkts, t, n, sz);
      StillDistinct(idx, idx', k);
      var m := DecodeMatrix(t, enc, k, n, index);
      assert Contents(pkt) == data;
      InputsKept(pkt, outpkts, t);
      assert forall j :: 0 <= j < k ==> pkt[j][..] == data[j];
      ComputeMissing(t, m, k, inpkts[..], outpkts, index, sz);
      forall j | 0 <= j < k ensures pkt[j][..] == data[j] {
        assert pkt[j] in pkt;
      }
      assert Contents(pkt) == data;
      OutputsRecover(Contents(outpkts), Contents(pkt'), idx', Rows(m), k, sz);
      RecoveredBeforeShuffle(Contents(outpkts), pkt, idx, pkt', idx', k, sz);
    }
  }
}
