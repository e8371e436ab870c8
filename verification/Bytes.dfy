/** Bytes and the length-prefixed packets of the two tunnels. */
module Bytes {
  import opened Sequences

  type byte = x: int | 0 <= x < 256

  // ----- length-prefixed packets

  const PREFIX := 2

  predicate Packable(p: seq<byte>) {
    |p| < 0x1_0000
  }

  /** Big-endian length, then the packet. */
  function Pack(p: seq<byte>): (r: seq<byte>)
    requires Packable(p)
    ensures |r| == PREFIX + |p|
  {
    [|p| / 256, |p| % 256] + p
  }

  function LengthAt(s: seq<byte>, i: nat): (n: nat)
    requires i + PREFIX <= |s|
    ensures n < 0x1_0000
  {
    var hi: int := s[i];
    256 * hi + s[i + 1]
  }

  predicate AllPackable(ps: seq<seq<byte>>) {
    forall i :: 0 <= i < |ps| ==> Packable(ps[i])
  }

  function PackAll(ps: seq<seq<byte>>): (r: seq<byte>)
    requires AllPackable(ps)
  {
    if |ps| == 0 then [] else Pack(ps[0]) + PackAll(ps[1..])
  }

  /** The packets of a batch; a damaged tail is dropped. */
  function Unpack(s: seq<byte>): (ps: seq<seq<byte>>)
    decreases |s|
  {
    if |s| < PREFIX then []
    else
      var n := LengthAt(s, 0);
      if |s| - PREFIX < n then [] else [s[PREFIX..PREFIX + n]] + Unpack(s[PREFIX + n..])
  }

  lemma PackPrefix(p: seq<byte>, rest: seq<byte>)
    requires Packable(p)
    ensures var s := Pack(p) + rest;
            LengthAt(s, 0) == |p| && s[PREFIX..PREFIX + |p|] == p && s[PREFIX + |p|..] == rest
  {}

  /** The length comes with its high byte first. */
  lemma PrefixFormat(p: seq<byte>, s: seq<byte>, i: nat)
    requires Packable(p) && i + PREFIX <= |s|
    ensures BigEndian(Pack(p)[..2]) == |p| && Pack(p)[2..] == p && LengthAt(s, i) == BigEndian(s[i..i + 2])
  {
    BigEndianTwo(Pack(p)[..2]);
    BigEndianTwo(s[i..i + 2]);
  }

  /** Unpacking undoes packing. */
  lemma {:induction false} UnpackPacked(ps: seq<seq<byte>>)
    requires AllPackable(ps)
    ensures Unpack(PackAll(ps)) == ps
  {
    if |ps| > 0 {
      PackPrefix(ps[0], PackAll(ps[1..]));
      UnpackPacked(ps[1..]);
      assert ps == [ps[0]] + ps[1..];
    }
  }

  lemma {:induction false} PackAllConcat(ps: seq<seq<byte>>, qs: seq<seq<byte>>)
    requires AllPackable(ps) && AllPackable(qs)
    ensures PackAll(ps + qs) == PackAll(ps) + PackAll(qs)
  {
    if |ps| == 0 {
      assert ps + qs == qs;
    } else {
      PackAllConcat(ps[1..], qs);
      assert (ps + qs)[1..] == ps[1..] + qs;
    }
  }

  lemma PackAllSnoc(ps: seq<seq<byte>>, p: seq<byte>)
    requires AllPackable(ps) && Packable(p)
    ensures PackAll(ps + [p]) == PackAll(ps) + Pack(p)
  {
    PackAllConcat(ps, [p]);
    assert PackAll([p]) == Pack(p) + PackAll([]);
  }

  /** The packets of several batches. */
  function UnpackAll(ds: seq<seq<byte>>): seq<seq<byte>> {
    if |ds| == 0 then [] else Unpack(ds[0]) + UnpackAll(ds[1..])
  }

  lemma {:induction false} UnpackAllSnoc(ds: seq<seq<byte>>, d: seq<byte>)
    ensures UnpackAll(ds + [d]) == UnpackAll(ds) + Unpack(d)
  {
    hide Unpack;
    if |ds| == 0 {
      assert ds + [d] == [d];
      assert UnpackAll([d]) == Unpack(d) + [] == [] + Unpack(d);
    } else {
      UnpackAllSnoc(ds[1..], d);
      assert (ds + [d])[1..] == ds[1..] + [d];
      Associates(Unpack(ds[0]), UnpackAll(ds[1..]), Unpack(d));
    }
  }

  /** The first packet of the batch is whole. */
  predicate FirstWhole(s: seq<byte>) {
    |s| >= PREFIX && PREFIX + LengthAt(s, 0) <= |s|
  }

  /** The batch is nothing but whole packets. */
  predicate Clean(s: seq<byte>)
    decreases |s|
  {
    s == [] || (FirstWhole(s) && Clean(s[PREFIX + LengthAt(s, 0)..]))
  }

  lemma {:induction false} PackedIsClean(ps: seq<seq<byte>>)
    requires AllPackable(ps)
    ensures Clean(PackAll(ps))
  {
    if |ps| > 0 {
      PackPrefix(ps[0], PackAll(ps[1..]));
      PackedIsClean(ps[1..]);
    }
  }

  lemma {:induction false} CleanIsPacked(s: seq<byte>)
    requires Clean(s)
    ensures AllPackable(Unpack(s)) && PackAll(Unpack(s)) == s
    decreases |s|
  {
    if s != [] {
      var n := LengthAt(s, 0);
      CleanIsPacked(s[PREFIX + n..]);
      var p, ps := s[PREFIX..PREFIX + n], Unpack(s[PREFIX + n..]);
      assert Unpack(s) == [p] + ps;
      PackAllCons(p, ps);
      Repacked(s, n);
    }
  }

  lemma PackAllCons(p: seq<byte>, ps: seq<seq<byte>>)
    requires Packable(p) && AllPackable(ps)
    ensures PackAll([p] + ps) == Pack(p) + PackAll(ps)
  {
    assert ([p] + ps)[1..] == ps;
  }

  lemma Repacked(s: seq<byte>, n: nat)
    requires FirstWhole(s) && n == LengthAt(s, 0)
    ensures Pack(s[PREFIX..PREFIX + n]) + s[PREFIX + n..] == s
  {
    assert s[..PREFIX] == [n / 256, n % 256];
  }
}
