/** dst[] += c * src[]: the plain loop, its unrolled form and the nibble-table form. */
module Kernels {
  import opened Gf256
  import GfTables

  /** Every byte of the range [lo, hi) has received c times its source byte; the others are untouched. */
  ghost predicate Accumulated(dst: seq<gf>, before: seq<gf>, src: seq<gf>, c: gf, lo: nat, hi: nat) {
    && |dst| == |before| && hi <= |dst| && hi <= |src|
    && forall i :: 0 <= i < |dst| ==> dst[i] == if lo <= i < hi then Add(before[i], Mul(c, src[i])) else before[i]
  }

  /** A product splits into the products of the two nibbles. */
  lemma NibbleSplit(c: gf, x: gf)
    ensures Add(Mul(c, x % 16), Mul(c, 16 * (x / 16))) == Mul(c, x)
  {
    hide Mul;
    assert Pow2(4) == 16;
    XorDisjoint(x / 16, x % 16, 4);
    AddCommutes(x % 16, 16 * (x / 16));
    MulAddRight(c, x % 16, 16 * (x / 16));
  }

  const UNROLL := 16
  const VECTOR := 16
  const TILE := 128

  /** The scalar kernel: tiles of sixteen bytes, then the remaining ones. */
  method AddMul(t: GfTables.Tables, dst: array<gf>, src: array<gf>, lo: nat, sz: nat, c: gf)
    requires t.Valid() && dst != src && dst != t.exp && dst != t.inverse
    requires lo + sz <= dst.Length && lo + sz <= src.Length
    modifies dst
    ensures Accumulated(dst[..], old(dst[..]), src[..], c, lo, lo + sz)
  {
    hide Mul, Add;
    var d, end := lo, lo + sz;
    while d + UNROLL <= end
      invariant lo <= d <= end
      invariant Accumulated(dst[..], old(dst[..]), src[..], c, lo, d)
    {
      for i := 0 to UNROLL
        invariant Accumulated(dst[..], old(dst[..]), src[..], c, lo, d + i)
      {
        dst[d + i] := Add(dst[d + i], t.mul[c, src[d + i]]);
      }
      d := d + UNROLL;
    }
    while d < end
      invariant lo <= d <= end
      invariant Accumulated(dst[..], old(dst[..]), src[..], c, lo, d)
    {
      dst[d] := Add(dst[d], t.mul[c, src[d]]);
      d := d + 1;
    }
  }

  /** One vector register of the nibble form, with the lanes from `lanes` on masked away. */
  method NibbleKernel(t: GfTables.Tables, dst: array<gf>, src: array<gf>, d: nat, lanes: nat, c: gf)
    requires t.Valid() && dst != src && dst != t.exp && dst != t.inverse
    requires lanes <= VECTOR && d + lanes <= dst.Length && d + lanes <= src.Length
    modifies dst
    ensures Accumulated(dst[..], old(dst[..]), src[..], c, d, d + lanes)
  {
    hide Mul, Add;
    for i := 0 to lanes
      invariant Accumulated(dst[..], old(dst[..]), src[..], c, d, d + i)
    {
      var x := src[d + i];
      NibbleSplit(c, x);
      dst[d + i] := Add(dst[d + i], Add(t.mul[c, x % 16], t.mul16[c, x / 16]));
    }
  }

  lemma AccumulateMore(a: seq<gf>, b: seq<gf>, e: seq<gf>, src: seq<gf>, c: gf, lo: nat, mid: nat, hi: nat)
    requires lo <= mid <= hi
    requires Accumulated(b, a, src, c, lo, mid) && Accumulated(e, b, src, c, mid, hi)
    ensures Accumulated(e, a, src, c, lo, hi)
  {
    hide Mul, Add;
  }

  /** The vector kernel: tiles of eight registers, single registers, then a masked tail. */
  method AddMulSimd(t: GfTables.Tables, dst: array<gf>, src: array<gf>, lo: nat, sz: nat, c: gf)
    requires t.Valid() && dst != src && dst != t.exp && dst != t.inverse
    requires lo + sz <= dst.Length && lo + sz <= src.Length
    modifies dst
    ensures Accumulated(dst[..], old(dst[..]), src[..], c, lo, lo + sz)
  {
    hide Mul, Add, GfTables.Tables.Valid, Accumulated;
    var d, end := lo, lo + sz;
    AccumulateNone(dst[..], src[..], c, lo);
    while d + TILE <= end
      invariant lo <= d <= end && t.Valid()
      invariant Accumulated(dst[..], old(dst[..]), src[..], c, lo, d)
    {
      for i := 0 to TILE / VECTOR
        invariant t.Valid() && Accumulated(dst[..], old(dst[..]), src[..], c, lo, d + i * VECTOR)
      {
        Extend(t, dst, src, lo, d + i * VECTOR, VECTOR, c, old(dst[..]));
      }
      d := d + TILE;
    }
    while d + VECTOR <= end
      invariant lo <= d <= end && t.Valid()
      invariant Accumulated(dst[..], old(dst[..]), src[..], c, lo, d)
    {
      Extend(t, dst, src, lo, d, VECTOR, c, old(dst[..]));
      d := d + VECTOR;
    }
    if d < end {
      Extend(t, dst, src, lo, d, end - d, c, old(dst[..]));
    }
  }

  lemma AccumulateNone(a: seq<gf>, src: seq<gf>, c: gf, lo: nat)
    requires lo <= |a| && lo <= |src|
    ensures Accumulated(a, a, src, c, lo, lo)
  {}

  method Extend(t: GfTables.Tables, dst: array<gf>, src: array<gf>, lo: nat, d: nat, lanes: nat, c: gf, ghost before: seq<gf>)
    requires t.Valid() && dst != src && dst != t.exp && dst != t.inverse
    requires lanes <= VECTOR && lo <= d && d + lanes <= dst.Length && d + lanes <= src.Length
    requires Accumulated(dst[..], before, src[..], c, lo, d)
    modifies dst
    ensures t.Valid() && Accumulated(dst[..], before, src[..], c, lo, d + lanes)
  {
    hide Mul, Add, GfTables.Tables.Valid, Accumulated;
    ghost var mid := dst[..];
    NibbleKernel(t, dst, src, d, lanes, c);
    AccumulateMore(before, mid, dst[..], src[..], c, lo, d, d + lanes);
  }
}
