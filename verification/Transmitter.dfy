/** The transmitter: packets become data fragments at once and parity fragments when a block is full. */
module Transmitter {
  import opened Gf256
  import opened LinearAlgebra
  import opened GaussJordan
  import opened EncodingMatrix
  import opened RxSpec
  import opened RxLossless
  import opened Session
  import GfTables
  import Codec

  /** A data packet on the air: its nonce and its (decrypted) contents. */
  datatype Datagram = Datagram(nonce: nat, bytes: seq<gf>)

  /** The block and fragment number a receiver reads from the nonce. */
  function Id(d: Datagram): (nat, nat) {
    (d.nonce / 256, d.nonce % 256)
  }

  function Ids(w: seq<Datagram>): (r: seq<(nat, nat)>)
    ensures |r| == |w|
  {
    seq(|w|, i requires 0 <= i < |w| => Id(w[i]))
  }

  lemma IdsConcat(v: seq<Datagram>, w: seq<Datagram>)
    ensures Ids(v + w) == Ids(v) + Ids(w)
  {}

  ghost predicate AllAuthentic(k: nat, n: nat, log: seq<Packet>, w: seq<Datagram>) {
    forall i :: 0 <= i < |w| ==> Authentic(k, n, log, Id(w[i]).0, Id(w[i]).1, w[i].bytes)
  }

  /** The buffers of the open block hold its packets so far. */
  ghost predicate OpenBlock(k: nat, log: seq<Packet>, base: nat, m: nat, bufs: seq<seq<gf>>) {
    && AllSendable(log) && base + m == |log| && m <= k <= |bufs|
    && forall j :: 0 <= j < m ==> |bufs[j]| == BUFFER && bufs[j][..MAX_FEC_PAYLOAD] == Padded(log[base + j])
  }

  /** The empty packet that only fills up a block. */
  const CLOSER := Packet(1, [])

  function Closers(m: nat): (s: seq<Packet>)
    ensures |s| == m
  {
    seq(m, _ => CLOSER)
  }

  lemma ClosersNext(log: seq<Packet>, m: nat)
    ensures log + Closers(m) + [CLOSER] == log + Closers(m + 1)
  {}

  class Transmitter {
    const t: GfTables.Tables
    var k: nat
    var n: nat
    var enc: array2<gf>
    var block: seq<array<gf>>
    var blockIdx: nat
    var fragmentIdx: nat
    var maxPacketSize: nat
    /** How many session keys have been drawn. */
    var session: nat
    /** The packets sent under the current key, and the datagrams they became. */
    ghost var log: seq<Packet>
    ghost var wire: seq<Datagram>

    ghost predicate Buffers()
      reads this`k, this`n, this`enc, this`block
    {
      && Parameters(k, n) && |block| == n && enc.Length0 == n && enc.Length1 == k
      && (forall i :: 0 <= i < n ==> block[i].Length == BUFFER && block[i] != t.exp && block[i] != t.inverse)
      && (forall i, j :: 0 <= i < j < n ==> block[i] != block[j])
    }

    ghost predicate Coding()
      reads this`k, this`n, this`enc, this`block, enc, t.exp, t.log, t.inverse, t.mul, t.mul16
    {
      Buffers() && t.Valid() && Rows(enc) == Matrix(k, n)
    }

    /** Log and wire agree with the position in the block. */
    ghost predicate Position()
      reads this
    {
      && 1 <= k <= n < 256 && fragmentIdx < k && blockIdx <= MAX_BLOCK_IDX
      && Slot(k, blockIdx, fragmentIdx) == |log| && AllSendable(log)
      && Ids(wire) == Wire(k, n, blockIdx, fragmentIdx) && AllAuthentic(k, n, log, wire)
    }

    ghost predicate Valid()
      reads this, block, enc, t.exp, t.log, t.inverse, t.mul, t.mul16
    {
      && Coding() && Position()
      && OpenBlock(k, log, Base(k, blockIdx), fragmentIdx, Codec.Contents(block))
      && maxPacketSize == LargestBody(log[Base(k, blockIdx)..], fragmentIdx)
    }

    constructor (t: GfTables.Tables, k: nat, n: nat)
      requires t.Valid() && Parameters(k, n)
      ensures Valid() && this.t == t && this.k == k && this.n == n && session == 0 && log == [] && wire == []
      ensures blockIdx == 0 && fragmentIdx == 0
      ensures fresh(block) && fresh(enc)
    {
      this.t := t;
      this.k, this.n := k, n;
      var matrix := FecNew(t, k, n);
      enc := matrix;
      var bufs := NewBuffers(n);
      block := bufs;
      blockIdx, fragmentIdx, maxPacketSize, session := 0, 0, 0, 0;
      log, wire := [], [];
    }

    /** Fill the buffer of the next data fragment. */
    method FillBuffer(p: Packet)
      requires Coding() && fragmentIdx < k && Sendable(p)
      modifies block[fragmentIdx]
      ensures Coding()
      ensures block[fragmentIdx][..MAX_FEC_PAYLOAD] == Padded(p)
      ensures forall j :: 0 <= j < n && j != fragmentIdx ==> Codec.Contents(block)[j] == old(Codec.Contents(block))[j]
    {
      hide GfTables.Tables.Valid, Matrix;
      var buf, size := block[fragmentIdx], |p.payload|;
      buf[0] := p.flags;
      buf[1] := size / 256;
      buf[2] := size % 256;
      for i := 0 to size
        invariant buf[0] == p.flags && buf[1] == size / 256 && buf[2] == size % 256
        invariant forall j :: 0 <= j < i ==> buf[HEADER + j] == p.payload[j]
      {
        buf[HEADER + i] := p.payload[i];
      }
      for i := HEADER + size to MAX_FEC_PAYLOAD
        invariant buf[0] == p.flags && buf[1] == size / 256 && buf[2] == size % 256
        invariant forall j :: 0 <= j < size ==> buf[HEADER + j] == p.payload[j]
        invariant forall j :: HEADER + size <= j < i ==> buf[j] == 0
      {
        buf[i] := 0;
      }
      assert buf[..MAX_FEC_PAYLOAD] == Padded(p);
    }

    /** The next fragment of the block, its first `size` bytes. */
    method SendBlockFragment(size: nat) returns (d: Datagram)
      requires Buffers() && fragmentIdx < n && size <= MAX_FEC_PAYLOAD
      ensures d == Datagram(Nonce(blockIdx, fragmentIdx), block[fragmentIdx][..size])
    {
      d := Datagram(blockIdx % BLOCK_IDX_LIMIT * 256 + fragmentIdx, block[fragmentIdx][..size]);
    }

    /** Every parity buffer, cut to the largest body, is the authentic parity fragment. */
    ghost predicate ParityReady()
      requires Buffers() && maxPacketSize <= MAX_FEC_PAYLOAD
      reads this`k, this`n, this`enc, this`block, this`blockIdx, this`log, this`maxPacketSize, block
    {
      forall f :: k <= f < n ==> Authentic(k, n, log, blockIdx, f, block[f][..maxPacketSize])
    }

    method RunEncoder(sz: nat) returns (ghost before: seq<seq<gf>>)
      requires Coding() && sz <= BUFFER
      modifies block
      ensures Coding() && Codec.Contents(block[..k]) == old(Codec.Contents(block[..k]))
      ensures Codec.Encoded(Codec.Contents(block[k..]), before, k, Codec.Contents(block[..k]), sz)
    {
      hide GfTables.Tables.Valid, GfTables.Tables.Shape, Matrix, Codec.Encoded, Codec.Separate;
      SplitBuffers(block, k, t);
      before := Codec.Contents(block[k..]);
      Codec.FecEncode(t, enc, k, n, block[..k], block[k..], sz);
    }

    /** Compute the parity fragments of a full block. */
    method EncodeBlock()
      requires Coding() && OpenBlock(k, log, Base(k, blockIdx), k, Codec.Contents(block))
      requires maxPacketSize == LargestBody(log[Base(k, blockIdx)..], k)
      modifies block
      ensures Coding() && ParityReady()
    {
      hide GfTables.Tables.Valid, Coding, Codec.Encoded, LargestBody, Padded, Authentic, Base;
      assert Buffers() by { CodingBuffers(); }
      ghost var data := Codec.Contents(block[..k]);
      assert forall j :: 0 <= j < k ==> data[j] == block[j][..];
      ghost var before := RunEncoder(RoundUpSimd(maxPacketSize));
      ghost var parity := Codec.Contents(block[k..]);
      forall f | k <= f < n ensures Authentic(k, n, log, blockIdx, f, block[f][..maxPacketSize]) {
        ParityAuthentic(k, n, log, blockIdx, f, data, parity, before, maxPacketSize);
        assert parity[f - k] == block[f][..];
        assert parity[f - k][..maxPacketSize] == block[f][..maxPacketSize];
      }
    }

    lemma CodingBuffers()
      requires Coding()
      ensures Buffers()
    {}

    lemma Invariants()
      requires Valid()
      ensures Coding() && Buffers() && fragmentIdx < k <= n == |block| && blockIdx <= MAX_BLOCK_IDX
      ensures fragmentIdx == 0 ==> maxPacketSize == 0
    {}

    /** Where a transmitter stands in its session. */
    lemma Where()
      requires Valid()
      ensures fragmentIdx < k <= n < 256 && blockIdx <= MAX_BLOCK_IDX && Slot(k, blockIdx, fragmentIdx) == |log|
      ensures Ids(wire) == Wire(k, n, blockIdx, fragmentIdx) && AllAuthentic(k, n, log, wire)
    {}

    lemma TablesValid()
      requires Coding()
      ensures t.Valid() && Parameters(k, n)
    {}

    /** Send the parity fragments of a full block. */
    method SendParity() returns (sent: seq<Datagram>)
      requires Buffers() && fragmentIdx == k && blockIdx <= MAX_BLOCK_IDX && maxPacketSize <= MAX_FEC_PAYLOAD && ParityReady()
      modifies this`fragmentIdx
      ensures fragmentIdx == n
      ensures Ids(sent) == Parities(k, blockIdx, n) && AllAuthentic(k, n, log, sent)
    {
      hide Authentic, AllAuthentic, Parities, GfTables.Tables.Shape;
      sent := [];
      NoParities(k, n, blockIdx, log);
      while fragmentIdx < n
        invariant k <= fragmentIdx <= n
        invariant Ids(sent) == Parities(k, blockIdx, fragmentIdx) && AllAuthentic(k, n, log, sent)
      {
        var d := SendBlockFragment(maxPacketSize);
        ParitySent(k, n, log, blockIdx, fragmentIdx, sent, d);
        sent := sent + [d];
        fragmentIdx := fragmentIdx + 1;
      }
    }

    /** A new session: new key, new code, empty block. The size of the largest packet is not reset here;
        every caller has left it at zero. */
    method InitSession(k: nat, n: nat)
      requires t.Valid() && Parameters(k, n) && maxPacketSize == 0
      modifies this
      ensures Valid() && this.k == k && this.n == n && session == old(session) + 1
      ensures log == [] && wire == [] && blockIdx == 0 && fragmentIdx == 0
      ensures fresh(block) && fresh(enc)
    {
      hide *;
      NewCode(k, n);
      ResetPosition();
    }

    method NewCode(k: nat, n: nat)
      requires t.Valid() && Parameters(k, n)
      modifies this`k, this`n, this`enc, this`block
      ensures Coding() && this.k == k && this.n == n && fresh(block) && fresh(enc)
    {
      hide GfTables.Tables.Valid, Matrix;
      var matrix := FecNew(t, k, n);
      var bufs := NewBuffers(n);
      this.k, this.n, enc, block := k, n, matrix, bufs;
    }

    method ResetPosition()
      requires Coding() && maxPacketSize == 0
      modifies this`blockIdx, this`fragmentIdx, this`session, this`log, this`wire
      ensures Valid() && session == old(session) + 1
      ensures log == [] && wire == [] && blockIdx == 0 && fragmentIdx == 0
    {
      hide GfTables.Tables.Valid, Matrix, Wire, Ids, Base, AllAuthentic, LargestBody;
      NothingSent(k, n);
      blockIdx, fragmentIdx, session := 0, 0, session + 1;
      log, wire := [], [];
      assert Coding();
    }

    /** Send one data fragment. */
    method SendData(p: Packet) returns (d: Datagram)
      requires Valid() && Sendable(p)
      modifies this`fragmentIdx, this`maxPacketSize, this`log, this`wire, block[fragmentIdx]
      ensures Coding() && fragmentIdx == old(fragmentIdx) + 1 && log == old(log) + [p] && wire == old(wire) + [d]
      ensures OpenBlock(k, log, Base(k, blockIdx), fragmentIdx, Codec.Contents(block))
      ensures maxPacketSize == LargestBody(log[Base(k, blockIdx)..], fragmentIdx)
      ensures Ids(wire) == Wire(k, n, blockIdx, fragmentIdx) && AllAuthentic(k, n, log, wire)
      ensures fragmentIdx < k ==> Valid()
    {
      hide Coding, Padded, Authentic, AllAuthentic, Wire, Base, LargestBody, Body;
      CodingBuffers();
      ghost var bufs := Codec.Contents(block);
      FillBuffer(p);
      var size := HEADER + |p.payload|;
      d := SendBlockFragment(size);
      BodyOfPadded(block[fragmentIdx][..], p);
      DataSent(k, n, log, wire, blockIdx, fragmentIdx, p, d);
      NextBuffer(k, log, Base(k, blockIdx), fragmentIdx, bufs, Codec.Contents(block), p);
      LargestNext(log, Base(k, blockIdx), fragmentIdx, p);
      maxPacketSize := if maxPacketSize < size then size else maxPacketSize;
      fragmentIdx := fragmentIdx + 1;
      log, wire := log + [p], wire + [d];
    }

    /** The parity fragments of a full block, and the position after it. */
    method FinishBlock() returns (sent: seq<Datagram>)
      requires Coding() && fragmentIdx == k && blockIdx <= MAX_BLOCK_IDX
      requires OpenBlock(k, log, Base(k, blockIdx), k, Codec.Contents(block))
      requires maxPacketSize == LargestBody(log[Base(k, blockIdx)..], k)
      requires Ids(wire) == Wire(k, n, blockIdx, k) && AllAuthentic(k, n, log, wire)
      modifies this`blockIdx, this`fragmentIdx, this`maxPacketSize, this`wire, block
      ensures Coding() && blockIdx == old(blockIdx) + 1 && fragmentIdx == 0 && maxPacketSize == 0 && wire == old(wire) + sent
      ensures Ids(wire) == Wire(k, n, blockIdx, 0) && AllAuthentic(k, n, log, wire)
      ensures blockIdx <= MAX_BLOCK_IDX ==> Valid()
    {
      hide Coding, Codec.Contents, AllAuthentic, Wire, Ids, Base, LargestBody;
      CodingBuffers();
      EncodeBlock();
      CodingBuffers();
      sent := SendParity();
      BlockSent(k, n, log, wire, blockIdx, sent);
      BaseNext(k, blockIdx);
      blockIdx, fragmentIdx, maxPacketSize := blockIdx + 1, 0, 0;
      wire := wire + sent;
      NothingOpen(k, log, Base(k, blockIdx), Codec.Contents(block));
    }

    /** Where the next fragment goes after one more packet. */
    ghost function Next(): (nat, nat)
      reads this
    {
      if fragmentIdx + 1 < k then (blockIdx, fragmentIdx + 1) else (blockIdx + 1, 0)
    }

    method SendPacket(p: Packet) returns (accepted: bool, sent: seq<Datagram>)
      requires Valid() && Sendable(p)
      modifies this, block
      ensures Valid() && k == old(k) && n == old(n)
      ensures accepted <==> !(old(fragmentIdx) == 0 && FecOnly(p))
      ensures !accepted ==> sent == [] && unchanged(this) && unchanged(block)
      ensures accepted ==> Ids(old(wire) + sent) == Wire(k, n, old(Next()).0, old(Next()).1)
      ensures accepted ==> AllAuthentic(k, n, old(log) + [p], old(wire) + sent)
      ensures accepted && old(Next()).0 <= MAX_BLOCK_IDX ==>
                && session == old(session) && log == old(log) + [p] && wire == old(wire) + sent
                && (blockIdx, fragmentIdx) == old(Next()) && block == old(block) && enc == old(enc)
      ensures accepted && old(Next()).0 > MAX_BLOCK_IDX ==>
                && session == old(session) + 1 && log == [] && wire == [] && blockIdx == 0 && fragmentIdx == 0
                && fresh(block) && fresh(enc)
    {
      hide Valid, Coding, Buffers, Parameters, Position, OpenBlock, Ids, Wire, AllAuthentic, AllSendable, Codec.Contents, LargestBody, Base, GfTables.Tables.Valid;
      Invariants();
      if fragmentIdx == 0 && FecOnly(p) {
        return false, [];
      }
      var d := SendData(p);
      accepted, sent := true, [d];
      if fragmentIdx < k {
        return;
      }
      var parity := FinishBlock();
      sent := sent + parity;
      assert wire == old(wire) + sent;
      if blockIdx > MAX_BLOCK_IDX {
        TablesValid();
        InitSession(k, n);
      }
    }

    /** Empty closing packets until one is refused: the open block is filled up and the session stays intact. */
    method CloseBlock() returns (calls: nat, sent: seq<Datagram>)
      requires Valid()
      modifies this, block
      ensures Valid() && k == old(k) && n == old(n) && fragmentIdx == 0
      ensures calls == if old(fragmentIdx) == 0 then 1 else k - old(fragmentIdx) + 1
      ensures old(fragmentIdx) == 0 ==> sent == [] && unchanged(this) && unchanged(block)
      ensures old(fragmentIdx) > 0 ==>
                && Ids(old(wire) + sent) == Wire(k, n, old(blockIdx) + 1, 0)
                && AllAuthentic(k, n, old(log) + Closers(k - old(fragmentIdx)), old(wire) + sent)
      ensures block == old(block) || fresh(block)
    {
      hide Valid, Coding, Buffers, Parameters, Position, OpenBlock, Ids, Wire, AllAuthentic, AllSendable, Codec.Contents, LargestBody, Base, GfTables.Tables.Valid;
      Invariants();
      calls, sent := 0, [];
      var more := true;
      assert log + Closers(0) == log && wire + sent == wire;
      while more
        invariant Valid() && k == old(k) && n == old(n) && (block == old(block) || fresh(block))
        invariant if old(fragmentIdx) == 0 then unchanged(this) && unchanged(block) && calls == (if more then 0 else 1) && sent == []
                  else Closing(old(log), old(wire), old(blockIdx), old(fragmentIdx), if more then calls else calls - 1, sent)
        invariant !more ==> fragmentIdx == 0 && calls >= 1 && (old(fragmentIdx) > 0 ==> calls == k - old(fragmentIdx) + 1)
        decreases more, k - calls
      {
        Invariants();
        var fragments;
        more, fragments := SendPacket(CLOSER);
        if more {
          ClosersNext(old(log), calls);
          assert old(wire) + (sent + fragments) == old(wire) + sent + fragments;
        } else {
          assert sent + fragments == sent;
        }
        sent := sent + fragments;
        calls := calls + 1;
      }
    }

    /** `c` closing packets after the position (b0, f0) with the given log and wire. */
    ghost predicate Closing(log0: seq<Packet>, wire0: seq<Datagram>, b0: nat, f0: nat, c: int, sent: seq<Datagram>)
      reads this
    {
      && k <= n && 0 <= c <= k - f0
      && (c < k - f0 ==> blockIdx == b0 && fragmentIdx == f0 + c && log == log0 + Closers(c) && wire == wire0 + sent)
      && (c == k - f0 ==>
            && fragmentIdx == 0
            && Ids(wire0 + sent) == Wire(k, n, b0 + 1, 0) && AllAuthentic(k, n, log0 + Closers(c), wire0 + sent))
    }

    /** The command that changes the code: bad parameters are refused, an open block is closed first. */
    method SetFec(k: int, n: int) returns (ok: bool, sent: seq<Datagram>)
      requires Valid()
      modifies this, block
      ensures Valid()
      ensures ok <==> 1 <= k <= n < 256
      ensures !ok ==> sent == [] && unchanged(this) && unchanged(block)
      ensures ok ==> this.k == k && this.n == n && log == [] && wire == [] && blockIdx == 0 && fragmentIdx == 0
      ensures ok && old(fragmentIdx) > 0 ==>
                && old(this.k <= this.n && fragmentIdx < this.k)
                && Ids(old(wire) + sent) == Wire(old(this.k), old(this.n), old(blockIdx) + 1, 0)
                && AllAuthentic(old(this.k), old(this.n), old(log) + Closers(old(this.k - fragmentIdx)), old(wire) + sent)
    {
      hide Valid, Coding, Buffers, Parameters, Position, OpenBlock, Ids, Wire, AllAuthentic, AllSendable, Codec.Contents, LargestBody, Base, GfTables.Tables.Valid;
      Invariants();
      if !(k <= n && k >= 1 && n >= 1 && n < 256) {
        return false, [];
      }
      var calls;
      calls, sent := CloseBlock();
      Invariants();
      TablesValid();
      ParametersOk(k, n);
      InitSession(k, n);
      ok := true;
    }
  }

  lemma ParametersOk(k: nat, n: nat)
    requires 1 <= k <= n < 256
    ensures Parameters(k, n)
  {}

  /** Fragments leave in increasing order of block and fragment number. */
  ghost predicate Ordered(w: seq<(nat, nat)>, b: nat, f: nat) {
    && (forall i :: 0 <= i < |w| ==> Before(w[i], (b, f)))
    && forall i, j :: 0 <= i < j < |w| ==> Before(w[i], w[j])
  }

  predicate Before(x: (nat, nat), y: (nat, nat)) {
    x.0 < y.0 || (x.0 == y.0 && x.1 < y.1)
  }

  lemma {:induction false} ParitiesOrdered(k: nat, b: nat, p: nat)
    requires k <= p
    ensures Ordered(Parities(k, b, p), b, p) && forall i :: 0 <= i < |Parities(k, b, p)| ==> Parities(k, b, p)[i].0 == b && Parities(k, b, p)[i].1 >= k
    decreases p
  {
    if p > k {
      ParitiesOrdered(k, b, p - 1);
    }
  }

  lemma {:induction false} WireOrdered(k: nat, n: nat, b: nat, f: nat)
    requires k <= n && f <= k
    ensures Ordered(Wire(k, n, b, f), b, f)
    decreases b, f
  {
    if f > 0 {
      WireOrdered(k, n, b, f - 1);
    } else if b > 0 {
      WireOrdered(k, n, b - 1, k);
      ParitiesOrdered(k, b - 1, n);
    }
  }

  /** No nonce is used twice in a session: nonces grow from each fragment to the next. */
  lemma NoncesIncrease(k: nat, n: nat, b: nat, f: nat, w: seq<Datagram>)
    requires k <= n && f <= k && Ids(w) == Wire(k, n, b, f)
    ensures forall i, j :: 0 <= i < j < |w| ==> w[i].nonce < w[j].nonce
  {
    WireOrdered(k, n, b, f);
    forall i, j | 0 <= i < j < |w| ensures w[i].nonce < w[j].nonce {
      assert Before(Ids(w)[i], Ids(w)[j]);
    }
  }

  lemma NothingSent(k: nat, n: nat)
    requires k <= n
    ensures Wire(k, n, 0, 0) == Ids([]) && Base(k, 0) == 0 && AllAuthentic(k, n, [], []) && LargestBody([][0..], 0) == 0
  {}

  lemma NothingOpen(k: nat, log: seq<Packet>, base: nat, bufs: seq<seq<gf>>)
    requires AllSendable(log) && base == |log| && k <= |bufs|
    ensures OpenBlock(k, log, base, 0, bufs) && LargestBody(log[base..], 0) == 0
  {}

  /** A block of k data fragments and its parities make the next position of the wire. */
  lemma BlockSent(k: nat, n: nat, log: seq<Packet>, w: seq<Datagram>, b: nat, sent: seq<Datagram>)
    requires k <= n && Ids(w) == Wire(k, n, b, k) && AllAuthentic(k, n, log, w)
    requires Ids(sent) == Parities(k, b, n) && AllAuthentic(k, n, log, sent)
    ensures Ids(w + sent) == Wire(k, n, b + 1, 0) && AllAuthentic(k, n, log, w + sent)
  {
    hide Authentic, Ids, Parities;
    IdsConcat(w, sent);
  }

  lemma BodyOfPadded(buf: seq<gf>, p: Packet)
    requires Sendable(p) && |buf| >= MAX_FEC_PAYLOAD && buf[..MAX_FEC_PAYLOAD] == Padded(p)
    ensures buf[..HEADER + |p.payload|] == Body(p)
  {
    assert buf[..|Body(p)|] == buf[..MAX_FEC_PAYLOAD][..|Body(p)|];
  }

  /** One more data fragment is what the wire holds at the next position. */
  lemma DataSent(k: nat, n: nat, log: seq<Packet>, w: seq<Datagram>, b: nat, f: nat, p: Packet, d: Datagram)
    requires f < k <= n < 256 && b <= MAX_BLOCK_IDX && Slot(k, b, f) == |log| && AllSendable(log) && Sendable(p)
    requires d == Datagram(Nonce(b, f), Body(p))
    requires Ids(w) == Wire(k, n, b, f) && AllAuthentic(k, n, log, w)
    ensures Ids(w + [d]) == Wire(k, n, b, f + 1) && AllAuthentic(k, n, log + [p], w + [d])
  {
    hide Base;
    NonceSplits(b, f);
    IdsConcat(w, [d]);
    assert Ids([d]) == [(b, f)];
    LongerLog(k, n, log, log + [p], w);
    assert Authentic(k, n, log + [p], b, f, d.bytes);
  }

  lemma LongerLog(k: nat, n: nat, log: seq<Packet>, log': seq<Packet>, w: seq<Datagram>)
    requires AllAuthentic(k, n, log, w) && log <= log' && AllSendable(log')
    ensures AllAuthentic(k, n, log', w)
  {
    hide Authentic;
    forall i | 0 <= i < |w| ensures Authentic(k, n, log', Id(w[i]).0, Id(w[i]).1, w[i].bytes) {
      AuthenticLonger(k, n, log, log', Id(w[i]).0, Id(w[i]).1, w[i].bytes);
    }
  }

  lemma NextBuffer(k: nat, log: seq<Packet>, base: nat, f: nat, bufs: seq<seq<gf>>, bufs': seq<seq<gf>>, p: Packet)
    requires OpenBlock(k, log, base, f, bufs) && f < k && |bufs'| == |bufs| && Sendable(p)
    requires forall j :: 0 <= j < |bufs| && j != f ==> bufs'[j] == bufs[j]
    requires |bufs'[f]| == BUFFER && bufs'[f][..MAX_FEC_PAYLOAD] == Padded(p)
    ensures OpenBlock(k, log + [p], base, f + 1, bufs')
  {
    hide Padded;
  }

  lemma LargestNext(log: seq<Packet>, base: nat, f: nat, p: Packet)
    requires AllSendable(log) && Sendable(p) && base + f == |log|
    ensures LargestBody((log + [p])[base..], f + 1) ==
            var s, c := LargestBody(log[base..], f), HEADER + |p.payload|; if s < c then c else s
  {
    LargestCongruent(log[base..], (log + [p])[base..], f);
  }

  lemma {:induction false} LargestCongruent(ps: seq<Packet>, qs: seq<Packet>, m: nat)
    requires AllSendable(ps) && AllSendable(qs) && m <= |ps| && m <= |qs| && ps[..m] == qs[..m]
    ensures LargestBody(ps, m) == LargestBody(qs, m)
  {
    if m > 0 {
      assert ps[..m - 1] == ps[..m][..m - 1] && qs[..m - 1] == qs[..m][..m - 1];
      assert ps[m - 1] == ps[..m][m - 1] && qs[m - 1] == qs[..m][m - 1];
      LargestCongruent(ps, qs, m - 1);
    }
  }

  lemma SplitBuffers(block: seq<array<gf>>, k: nat, t: GfTables.Tables)
    requires k <= |block|
    requires forall i :: 0 <= i < |block| ==> block[i].Length == BUFFER && block[i] != t.exp && block[i] != t.inverse
    requires forall i, j :: 0 <= i < j < |block| ==> block[i] != block[j]
    ensures Codec.Separate(block[..k], block[k..], t)
    ensures Codec.LongEnough(Codec.Contents(block[..k]), BUFFER) && Codec.LongEnough(Codec.Contents(block[k..]), BUFFER)
  {}

  lemma NoParities(k: nat, n: nat, idx: nat, log: seq<Packet>)
    ensures Parities(k, idx, k) == [] && AllAuthentic(k, n, log, [])
  {}

  /** The encoder's output for fragment f, cut to the largest body, is the authentic parity fragment. */
  lemma ParityAuthentic(k: nat, n: nat, log: seq<Packet>, b: nat, f: nat, data: seq<seq<gf>>, parity: seq<seq<gf>>, before: seq<seq<gf>>, m: nat)
    requires Parameters(k, n) && k <= f < n && |data| == k && |parity| == n - k
    requires OpenBlock(k, log, Base(k, b), k, data)
    requires m == LargestBody(log[Base(k, b)..], k)
    requires Codec.Encoded(parity, before, k, data, RoundUpSimd(m))
    ensures m <= |parity[f - k]| && Authentic(k, n, log, b, f, parity[f - k][..m])
  {
    hide Dot, EncodingRow, Padded, LargestBody, Base;
    var ps := BlockPackets(k, log, b);
    assert ps == log[Base(k, b)..];
    var bytes := parity[f - k][..m];
    forall t | 0 <= t < m ensures bytes[t] == ParityBytes(k, f, ps)[t] {
      assert Codec.ByteColumn(data, t) == PaddedColumn(ps, t) by {
        forall j | 0 <= j < k ensures data[j][t] == Padded(ps[j])[t] {
          assert data[j][t] == data[j][..MAX_FEC_PAYLOAD][t];
        }
      }
    }
    assert bytes == ParityBytes(k, f, ps);
  }

  lemma ParitySent(k: nat, n: nat, log: seq<Packet>, b: nat, f: nat, sent: seq<Datagram>, d: Datagram)
    requires k <= f < n < 256 && b <= MAX_BLOCK_IDX && d.nonce == Nonce(b, f)
    requires Ids(sent) == Parities(k, b, f) && AllAuthentic(k, n, log, sent) && Authentic(k, n, log, b, f, d.bytes)
    ensures Ids(sent + [d]) == Parities(k, b, f + 1) && AllAuthentic(k, n, log, sent + [d])
  {
    hide Authentic;
    NonceSplits(b, f);
    IdsConcat(sent, [d]);
    assert Ids([d]) == [(b, f)];
  }

  method NewBuffers(n: nat) returns (bufs: seq<array<gf>>)
    ensures |bufs| == n
    ensures forall i :: 0 <= i < n ==> fresh(bufs[i]) && bufs[i].Length == BUFFER
    ensures forall i, j :: 0 <= i < j < n ==> bufs[i] != bufs[j]
  {
    bufs := [];
    for i := 0 to n
      invariant |bufs| == i
      invariant forall j :: 0 <= j < i ==> fresh(bufs[j]) && bufs[j].Length == BUFFER
      invariant forall a, b :: 0 <= a < b < i ==> bufs[a] != bufs[b]
    {
      var b := new gf[BUFFER](_ => 0);
      bufs := bufs + [b];
    }
  }
}
