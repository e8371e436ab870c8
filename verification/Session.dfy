/** Packets, fragments and what it means for a fragment to belong to a session's traffic. */
module Session {
  import opened Gf256
  import opened LinearAlgebra
  import opened EncodingMatrix
  import opened RxSpec
  import opened Sequences

  const HEADER := 3
  const MAX_PAYLOAD := 3993
  const MAX_FEC_PAYLOAD := 3996
  /** Fragment buffers are rounded up to whole vector registers. */
  const BUFFER := 4000

  function RoundUpSimd(x: nat): (r: nat)
    ensures x <= r < x + 16 && r % 16 == 0
  {
    (x + 15) / 16 * 16
  }

  datatype Packet = Packet(flags: gf, payload: seq<gf>)

  predicate Sendable(p: Packet) {
    |p.payload| <= MAX_PAYLOAD
  }

  /** The packet only closes a block and is not for the application. */
  predicate FecOnly(p: Packet) {
    p.flags % 2 == 1
  }

  /** Header (flags and big-endian size) and payload. */
  function Body(p: Packet): (b: seq<gf>)
    requires Sendable(p)
    ensures |b| == HEADER + |p.payload| <= MAX_FEC_PAYLOAD
  {
    [p.flags, |p.payload| / 256, |p.payload| % 256] + p.payload
  }

  /** The body in a cleared buffer. */
  function Padded(p: Packet): (b: seq<gf>)
    requires Sendable(p)
    ensures |b| == MAX_FEC_PAYLOAD
  {
    Body(p) + Zeros(MAX_FEC_PAYLOAD - |Body(p)|)
  }

  predicate AllSendable(log: seq<Packet>) {
    forall i :: 0 <= i < |log| ==> Sendable(log[i])
  }

  // ----- reading a packet back

  /** The big-endian size field. */
  function SizeField(buf: seq<gf>): nat
    requires |buf| >= HEADER
  {
    var hi: int := buf[1];
    256 * hi + buf[2]
  }

  /** On the air: flags, size with its high byte first, payload. */
  lemma BodyFormat(p: Packet)
    requires Sendable(p)
    ensures Body(p)[0] == p.flags && BigEndian(Body(p)[1..3]) == |p.payload| && Body(p)[3..] == p.payload
  {
    BigEndianTwo(Body(p)[1..3]);
  }

  lemma SizeFieldFormat(buf: seq<gf>)
    requires |buf| >= HEADER
    ensures SizeField(buf) == BigEndian(buf[1..3])
  {
    BigEndianTwo(buf[1..3]);
  }

  /** What the receiver hands to the application from a fragment buffer. */
  function Extract(buf: seq<gf>): seq<seq<gf>>
    requires |buf| >= MAX_FEC_PAYLOAD
  {
    var size := SizeField(buf);
    if size > MAX_PAYLOAD || buf[0] % 2 == 1 then [] else [buf[HEADER..HEADER + size]]
  }

  function Delivery(p: Packet): seq<seq<gf>> {
    if FecOnly(p) then [] else [p.payload]
  }

  ghost predicate Holds(buf: seq<gf>, p: Packet) {
    Sendable(p) && |buf| >= MAX_FEC_PAYLOAD && buf[..|Body(p)|] == Body(p)
  }

  /** A buffer that starts with a packet's body yields that packet. */
  lemma ExtractHeld(buf: seq<gf>, p: Packet)
    requires Holds(buf, p)
    ensures Extract(buf) == Delivery(p)
  {
    var b := Body(p);
    assert buf[0] == b[0] && buf[1] == b[1] && buf[2] == b[2];
    assert SizeField(buf) == |p.payload|;
    assert buf[HEADER..|b|] == b[HEADER..] == p.payload;
  }

  /** The application's view of the slots handed over. */
  function Delivered(log: seq<Packet>, slots: seq<nat>): seq<seq<gf>>
    requires forall i :: 0 <= i < |slots| ==> slots[i] < |log|
  {
    if |slots| == 0 then []
    else Delivered(log, slots[..|slots| - 1]) + Delivery(log[slots[|slots| - 1]])
  }

  // ----- fragments

  /** The k packets of block b. */
  function BlockPackets(k: nat, log: seq<Packet>, b: nat): (ps: seq<Packet>)
    requires Base(k, b) + k <= |log|
    ensures |ps| == k
    ensures AllSendable(log) ==> AllSendable(ps)
  {
    log[Base(k, b)..Base(k, b) + k]
  }

  /** Byte t of the padded packets. */
  function PaddedColumn(ps: seq<Packet>, t: nat): (v: Vec)
    requires AllSendable(ps) && t < MAX_FEC_PAYLOAD
    ensures |v| == |ps|
  {
    seq(|ps|, j requires 0 <= j < |ps| => Padded(ps[j])[t])
  }

  /** The size of the largest body among the first m packets. */
  function LargestBody(ps: seq<Packet>, m: nat): (s: nat)
    requires AllSendable(ps) && m <= |ps|
    ensures s <= MAX_FEC_PAYLOAD && forall j :: 0 <= j < m ==> |Body(ps[j])| <= s
    ensures m > 0 ==> s >= HEADER
  {
    if m == 0 then 0
    else
      var s, c := LargestBody(ps, m - 1), |Body(ps[m - 1])|;
      if s < c then c else s
  }

  ghost function ParityBytes(k: nat, f: nat, ps: seq<Packet>): (bytes: seq<gf>)
    requires |ps| == k && AllSendable(ps)
    ensures |bytes| == LargestBody(ps, k)
  {
    seq(LargestBody(ps, k), t requires 0 <= t < LargestBody(ps, k) => Dot(EncodingRow(k, f), PaddedColumn(ps, t)))
  }

  /** Fragment f of block b carries these bytes in a session that sent the packets of the log. */
  ghost predicate Authentic(k: nat, n: nat, log: seq<Packet>, b: nat, f: nat, bytes: seq<gf>) {
    && AllSendable(log) && f < n
    && if f < k then Slot(k, b, f) < |log| && bytes == Body(log[Slot(k, b, f)])
       else Base(k, b) + k <= |log| && bytes == ParityBytes(k, f, BlockPackets(k, log, b))
  }

  lemma AuthenticSize(k: nat, n: nat, log: seq<Packet>, b: nat, f: nat, bytes: seq<gf>)
    requires 1 <= k <= n && Authentic(k, n, log, b, f, bytes)
    ensures HEADER <= |bytes| <= MAX_FEC_PAYLOAD
  {
    hide EncodingRow;
  }

  lemma {:induction false} LargestAttained(ps: seq<Packet>, m: nat) returns (j: nat)
    requires AllSendable(ps) && 0 < m <= |ps|
    ensures j < m && |Body(ps[j])| == LargestBody(ps, m)
  {
    hide Body;
    if m == 1 {
      assert LargestBody(ps, 0) == 0;
      j := 0;
    } else {
      j := LargestAttained(ps, m - 1);
      if |Body(ps[j])| < |Body(ps[m - 1])| {
        j := m - 1;
      }
    }
  }

  /** A parity fragment is exactly as long as the longest data fragment of its block. */
  lemma ParitySize(k: nat, n: nat, log: seq<Packet>, b: nat, f: nat, bytes: seq<gf>) returns (longest: nat)
    requires 1 <= k <= f < n && Authentic(k, n, log, b, f, bytes)
    ensures longest < k && |bytes| == |Body(log[Slot(k, b, longest)])|
    ensures forall j :: 0 <= j < k ==> |Body(log[Slot(k, b, j)])| <= |bytes|
  {
    hide EncodingRow, LargestBody, Base;
    var ps := BlockPackets(k, log, b);
    longest := LargestAttained(ps, k);
    forall j | 0 <= j < k ensures |Body(log[Slot(k, b, j)])| <= |bytes| {
      assert ps[j] == log[Slot(k, b, j)];
    }
  }

  /** More traffic does not make a fragment less authentic. */
  lemma AuthenticLonger(k: nat, n: nat, log: seq<Packet>, log': seq<Packet>, b: nat, f: nat, bytes: seq<gf>)
    requires Authentic(k, n, log, b, f, bytes) && log <= log' && AllSendable(log')
    ensures Authentic(k, n, log', b, f, bytes)
  {
    hide EncodingRow;
    if f >= k {
      assert BlockPackets(k, log', b) == BlockPackets(k, log, b);
    }
  }

  // ----- the 64-bit nonce

  const BLOCK_IDX_LIMIT: nat := 0x100_0000_0000_0000

  /** Block and fragment number in one word, as the transmitter packs them. */
  function Nonce(b: nat, f: nat): nat {
    b % BLOCK_IDX_LIMIT * 256 + f
  }

  /** The receiver's shift and mask undo the packing. */
  lemma NonceSplits(b: nat, f: nat)
    requires b < BLOCK_IDX_LIMIT && f < 256
    ensures Nonce(b, f) / 256 == b && Nonce(b, f) % 256 == f && Nonce(b, f) < 0x1_0000_0000_0000_0000
  {}

  /** Nonces increase with block and fragment number, so none is used twice. */
  lemma NonceIncreases(b: nat, f: nat, b': nat, f': nat)
    requires b < BLOCK_IDX_LIMIT && b' < BLOCK_IDX_LIMIT && f < 256 && f' < 256
    ensures Nonce(b, f) < Nonce(b', f') <==> b < b' || (b == b' && f < f')
  {}
}
