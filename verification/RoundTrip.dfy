/** Encode, lose all but k fragments, decode. */
module RoundTrip {
  import opened Gf256
  import opened LinearAlgebra
  import opened GaussJordan
  import opened EncodingMatrix
  import opened Codec
  import GfTables

  function Cleared(count: nat, sz: nat): (r: seq<seq<gf>>)
    ensures |r| == count && forall i :: 0 <= i < count ==> |r[i]| == sz
  {
    seq(count, _ => Zeros(sz))
  }

  /** The n fragments of a block. */
  ghost predicate Fragments(frags: seq<seq<gf>>, k: nat, n: nat, blocks: seq<seq<gf>>, sz: nat) {
    && |frags| == n && |blocks| == k <= n && LongEnough(blocks, sz) && LongEnough(frags, sz)
    && forall f, b :: 0 <= f < n && 0 <= b < sz ==> frags[f][b] == Dot(EncodingRow(k, f), ByteColumn(blocks, b))
  }

  lemma EncodedFragments(k: nat, n: nat, blocks: seq<seq<gf>>, parity: seq<seq<gf>>, before: seq<seq<gf>>, sz: nat)
    requires Parameters(k, n) && |blocks| == k && |parity| == n - k && LongEnough(blocks, sz)
    requires Encoded(parity, before, k, blocks, sz)
    ensures Fragments(blocks + parity, k, n, blocks, sz)
  {
    hide EncodingRow, Dot;
    var frags := blocks + parity;
    forall f, b | 0 <= f < n && 0 <= b < sz ensures frags[f][b] == Dot(EncodingRow(k, f), ByteColumn(blocks, b)) {
      if f < k {
        Systematic(k, f);
        DotUnit(ByteColumn(blocks, b), f);
      } else {
        assert frags[f] == parity[f - k];
      }
    }
  }

  method Encode(t: GfTables.Tables, enc: array2<gf>, k: nat, n: nat, blocks: seq<seq<gf>>, sz: nat) returns (frags: seq<array<gf>>)
    requires t.Valid() && Parameters(k, n) && enc.Length0 == n && enc.Length1 == k && Rows(enc) == Matrix(k, n)
    requires |blocks| == k && LongEnough(blocks, sz)
    ensures |frags| == n && fresh(frags) && Fragments(Contents(frags), k, n, blocks, sz)
  {
    hide GfTables.Tables.Valid, Matrix, Encoded;
    var data := Buffers(blocks);
    var parity := Buffers(Cleared(n - k, sz));
    ghost var before := Contents(parity);
    FecEncode(t, enc, k, n, data, parity, sz);
    frags := data + parity;
    EncodedFragments(k, n, blocks, Contents(parity), before, sz);
    assert Contents(frags) == blocks + Contents(parity);
  }

  /** The survivors carry the data. */
  lemma SurvivorsCarry(k: nat, n: nat, blocks: seq<seq<gf>>, frags: seq<seq<gf>>, sz: nat, survivors: seq<nat>, pkts: seq<seq<gf>>, b: nat)
    requires Fragments(frags, k, n, blocks, sz) && b < sz && |survivors| == |pkts| == k
    requires forall i :: 0 <= i < k ==> survivors[i] < n && pkts[i] == frags[survivors[i]]
    ensures Carries(pkts, survivors, b, ByteColumn(blocks, b))
  {
    hide EncodingRow, Dot;
  }

  lemma RecoveredBlocks(k: nat, n: nat, blocks: seq<seq<gf>>, frags: seq<seq<gf>>, sz: nat, survivors: seq<nat>, pkts: seq<seq<gf>>, out: seq<seq<gf>>)
    requires Fragments(frags, k, n, blocks, sz) && |blocks| == |survivors| == |pkts| == k
    requires forall i :: 0 <= i < k ==> survivors[i] < n && pkts[i] == frags[survivors[i]]
    requires forall j :: 0 <= j < k ==> |blocks[j]| == sz
    requires Recovered(out, pkts, survivors, k, sz) && forall o :: 0 <= o < |out| ==> |out[o]| == sz
    ensures forall o :: 0 <= o < |Missing(survivors, k)| ==> out[o] == blocks[Missing(survivors, k)[o]]
  {
    hide Fragments, Carries, Missing;
    var miss := Missing(survivors, k);
    forall o | 0 <= o < |miss| ensures out[o] == blocks[miss[o]] {
      forall b | 0 <= b < sz ensures out[o][b] == blocks[miss[o]][b] {
        SurvivorsCarry(k, n, blocks, frags, sz, survivors, pkts, b);
      }
    }
  }

  lemma NoConflict(k: nat, survivors: seq<nat>)
    requires |survivors| == k && forall i, j :: 0 <= i < j < k ==> survivors[i] != survivors[j]
    ensures !Conflict(survivors, k)
  {}

  method Decode(t: GfTables.Tables, enc: array2<gf>, k: nat, n: nat, pkts: seq<array<gf>>, survivors: seq<nat>, sz: nat) returns (out: seq<array<gf>>)
    requires t.Valid() && Parameters(k, n) && enc.Length0 == n && enc.Length1 == k && Rows(enc) == Matrix(k, n)
    requires |pkts| == |survivors| == k && LongEnough(Contents(pkts), sz)
    requires forall i :: 0 <= i < k ==> survivors[i] < n
    requires forall i, j :: 0 <= i < j < k ==> survivors[i] != survivors[j]
    ensures |out| == |Missing(survivors, k)| && Recovered(Contents(out), old(Contents(pkts)), survivors, k, sz)
    ensures forall o :: 0 <= o < |out| ==> out[o].Length == sz
  {
    hide GfTables.Tables.Valid, Matrix, Recovered, Missing, Conflict;
    var inpkts := new array<gf>[k](i requires 0 <= i < k => pkts[i]);
    var index := new nat[k](i requires 0 <= i < k => survivors[i]);
    assert inpkts[..] == pkts && index[..] == survivors;
    out := Buffers(Cleared(|Missing(survivors, k)|, sz));
    assert forall o :: 0 <= o < |out| ==> |Contents(out)[o]| == sz;
    NoConflict(k, survivors);
    assert inpkts[..] == pkts && index[..] == survivors;
    assert Contents(pkts) == old(Contents(pkts));
    var ok := FecDecode(t, enc, k, n, inpkts, out, index, sz);
  }

  /** For every code, all contents and any k distinct fragments in any order, decoding writes exactly
      the missing data blocks, in increasing order. */
  method LoseAndRecover(t: GfTables.Tables, k: nat, n: nat, blocks: seq<seq<gf>>, sz: nat, survivors: seq<nat>) returns (recovered: seq<seq<gf>>)
    requires t.Valid() && Parameters(k, n) && |blocks| == k && forall j :: 0 <= j < k ==> |blocks[j]| == sz
    requires |survivors| == k && forall i :: 0 <= i < k ==> survivors[i] < n
    requires forall i, j :: 0 <= i < j < k ==> survivors[i] != survivors[j]
    ensures var miss := Missing(survivors, k);
            |recovered| == |miss| && forall o :: 0 <= o < |miss| ==> recovered[o] == blocks[miss[o]]
  {
    hide GfTables.Tables.Valid, Matrix, Recovered, Missing, Fragments;
    var enc := FecNew(t, k, n);
    var frags := Encode(t, enc, k, n, blocks, sz);
    FragmentsLong(Contents(frags), k, n, blocks, sz);
    var pkts := seq(k, i requires 0 <= i < k => frags[survivors[i]]);
    ghost var held, all := Contents(pkts), Contents(frags);
    var out := Decode(t, enc, k, n, pkts, survivors, sz);
    recovered := seq(|out|, i requires 0 <= i < |out| reads out => out[i][..]);
    assert recovered == Contents(out);
    RecoveredBlocks(k, n, blocks, all, sz, survivors, held, recovered);
  }

  lemma FragmentsLong(frags: seq<seq<gf>>, k: nat, n: nat, blocks: seq<seq<gf>>, sz: nat)
    requires Fragments(frags, k, n, blocks, sz)
    ensures LongEnough(frags, sz) && |frags| == n
  {}

  /** The missing blocks are those without a survivor, in increasing order. */
  lemma {:induction false} MissingMeans(survivors: seq<nat>, r: nat)
    ensures var m := Missing(survivors, r);
            && (forall i, j :: 0 <= i < j < |m| ==> m[i] < m[j])
            && (forall v :: v in m <==> 0 <= v < r && v !in survivors)
  {
    if r > 0 {
      MissingMeans(survivors, r - 1);
    }
  }
}
