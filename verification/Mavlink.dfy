/** The resynchronising MAVLink splitter. */
module Mavlink {
  import opened Bytes
  import opened Sequences

  const V1: byte := 0xfe
  const V2: byte := 0xfd
  const SHORTEST := 8
  const TRIM := 4096

  /** What the stream is cut into. */
  datatype Piece = Message(bytes: seq<byte>) | Junk(b: byte)

  datatype Scanned = Scanned(pieces: seq<Piece>, rest: seq<byte>)

  predicate Synced(s: seq<byte>) {
    |s| >= SHORTEST && (s[0] == V1 || s[0] == V2)
  }

  /** The length of the frame that starts here: signed version-2 frames carry a signature. */
  function FrameLength(s: seq<byte>): (n: nat)
    requires Synced(s)
    ensures n >= SHORTEST
  {
    var len: int := s[1];
    if s[0] == V1 then 8 + len else len + (if s[2] % 2 == 1 then 25 else 12)
  }

  /** The whole stream at once: bytes that start no frame are junk, a frame is taken when complete. */
  function Scan(s: seq<byte>): Scanned
    decreases |s|
  {
    if |s| < SHORTEST then Scanned([], s)
    else if !Synced(s) then
      var r := Scan(s[1..]);
      Scanned([Junk(s[0])] + r.pieces, r.rest)
    else if |s| < FrameLength(s) then Scanned([], s)
    else
      var n := FrameLength(s);
      var r := Scan(s[n..]);
      Scanned([Message(s[..n])] + r.pieces, r.rest)
  }

  lemma ScanWaiting(s: seq<byte>)
    requires Waiting(s)
    ensures Scan(s) == Scanned([], s)
  {}

  lemma ScanJunk(s: seq<byte>)
    requires |s| >= SHORTEST && !Synced(s)
    ensures Scan(s) == Scanned([Junk(s[0])] + Scan(s[1..]).pieces, Scan(s[1..]).rest)
  {}

  lemma ScanFrame(s: seq<byte>, n: nat)
    requires Synced(s) && n == FrameLength(s) <= |s|
    ensures Scan(s) == Scanned([Message(s[..n])] + Scan(s[n..]).pieces, Scan(s[n..]).rest)
  {}

  lemma SyncedLonger(a: seq<byte>, b: seq<byte>)
    requires |a| >= SHORTEST
    ensures Synced(a + b) == Synced(a) && (Synced(a) ==> FrameLength(a + b) == FrameLength(a))
  {}

  function Messages(ps: seq<Piece>): seq<seq<byte>> {
    if |ps| == 0 then []
    else Messages(ps[..|ps| - 1]) + (if ps[|ps| - 1].Message? then [ps[|ps| - 1].bytes] else [])
  }

  lemma {:induction false} MessagesConcat(a: seq<Piece>, b: seq<Piece>)
    ensures Messages(a + b) == Messages(a) + Messages(b)
  {
    if |b| == 0 {
      assert a + b == a;
    } else {
      var m := |b| - 1;
      MessagesConcat(a, b[..m]);
      assert (a + b)[..|a| + m] == a + b[..m];
    }
  }

  // ----- nothing is lost, nothing is invented

  function PieceBytes(p: Piece): seq<byte> {
    match p
    case Message(bytes) => bytes
    case Junk(b) => [b]
  }

  function AllBytes(ps: seq<Piece>): seq<byte> {
    if |ps| == 0 then [] else PieceBytes(ps[0]) + AllBytes(ps[1..])
  }

  predicate Frame(m: seq<byte>) {
    Synced(m) && |m| == FrameLength(m)
  }

  /** No frame can be taken from here without more bytes. */
  predicate Waiting(s: seq<byte>) {
    |s| < SHORTEST || (Synced(s) && |s| < FrameLength(s))
  }

  /** Every byte is in exactly one message, skipped, or still waiting; messages are whole frames and
      skipped bytes start none. */
  lemma {:induction false} BytesPartitioned(s: seq<byte>)
    ensures var r := Scan(s);
            AllBytes(r.pieces) + r.rest == s && Waiting(r.rest) && forall i :: 0 <= i < |r.pieces| ==> Proper(r.pieces[i])
    decreases |s|
  {
    hide Scan, Synced, FrameLength;
    if Waiting(s) {
      ScanWaiting(s);
      assert [] + s == s;
    } else if !Synced(s) {
      ScanJunk(s);
      BytesPartitioned(s[1..]);
      FirstPiece(Junk(s[0]), Scan(s[1..]), s[1..]);
      NotSynced(s);
      assert [s[0]] + s[1..] == s;
    } else {
      var n := FrameLength(s);
      ScanFrame(s, n);
      BytesPartitioned(s[n..]);
      FirstPiece(Message(s[..n]), Scan(s[n..]), s[n..]);
      SyncedLonger(s[..n], s[n..]);
      assert s[..n] + s[n..] == s;
    }
  }

  predicate Proper(p: Piece) {
    match p
    case Message(m) => Frame(m)
    case Junk(b) => b != V1 && b != V2
  }

  lemma NotSynced(s: seq<byte>)
    requires |s| >= SHORTEST && !Synced(s)
    ensures s[0] != V1 && s[0] != V2
  {}

  lemma FirstPiece(p: Piece, r: Scanned, s: seq<byte>)
    requires AllBytes(r.pieces) + r.rest == s
    ensures AllBytes([p] + r.pieces) + r.rest == PieceBytes(p) + s
  {
    assert ([p] + r.pieces)[1..] == r.pieces;
    Associates(PieceBytes(p), AllBytes(r.pieces), r.rest);
  }

  // ----- chunks

  /** Scanning in two parts, keeping what waits, is scanning the whole. */
  lemma {:induction false} ScanConcat(a: seq<byte>, b: seq<byte>)
    ensures var r := Scan(a);
            Scan(a + b) == Scanned(r.pieces + Scan(r.rest + b).pieces, Scan(r.rest + b).rest)
    decreases |a|
  {
    hide Scan, Synced, FrameLength;
    if Waiting(a) {
      ScanWaiting(a);
    } else if !Synced(a) {
      SyncedLonger(a, b);
      ScanJunk(a);
      ScanJunk(a + b);
      ScanConcat(a[1..], b);
      assert (a + b)[1..] == a[1..] + b;
      var r := Scan(a[1..]);
      Associates([Junk(a[0])], r.pieces, Scan(r.rest + b).pieces);
    } else {
      var n := FrameLength(a);
      SyncedLonger(a, b);
      ScanFrame(a, n);
      ScanFrame(a + b, n);
      ScanConcat(a[n..], b);
      assert (a + b)[n..] == a[n..] + b && (a + b)[..n] == a[..n];
      var r := Scan(a[n..]);
      Associates([Message(a[..n])], r.pieces, Scan(r.rest + b).pieces);
    }
  }

  /** What a splitter outputs for the chunks, starting with some bytes waiting. */
  function ScanChunks(waiting: seq<byte>, chunks: seq<seq<byte>>): Scanned
    decreases |chunks|
  {
    if |chunks| == 0 then Scanned([], waiting)
    else
      var r := Scan(waiting + chunks[0]);
      var s := ScanChunks(r.rest, chunks[1..]);
      Scanned(r.pieces + s.pieces, s.rest)
  }

  /** However a stream is cut into chunks, the output is that of the whole stream at once. */
  lemma {:induction false} ChunkIndependence(waiting: seq<byte>, chunks: seq<seq<byte>>)
    requires Waiting(waiting)
    ensures ScanChunks(waiting, chunks) == Scan(waiting + Join(chunks))
    decreases |chunks|
  {
    if |chunks| == 0 {
      assert waiting + Join(chunks) == waiting;
    } else {
      var r := Scan(waiting + chunks[0]);
      BytesPartitioned(waiting + chunks[0]);
      ChunkIndependence(r.rest, chunks[1..]);
      ScanConcat(waiting + chunks[0], Join(chunks[1..]));
      assert waiting + chunks[0] + Join(chunks[1..]) == waiting + Join(chunks);
    }
  }

  /** A batch of whole frames splits into exactly these frames. */
  lemma {:induction false} FramesSplit(frames: seq<seq<byte>>)
    requires forall i :: 0 <= i < |frames| ==> Frame(frames[i])
    ensures Messages(Scan(Join(frames)).pieces) == frames && Scan(Join(frames)).rest == []
  {
    if |frames| > 0 {
      var f := frames[0];
      FramesSplit(frames[1..]);
      var s := f + Join(frames[1..]);
      assert FrameLength(s) == |f| && s[..|f|] == f && s[|f|..] == Join(frames[1..]);
      MessagesConcat([Message(f)], Scan(Join(frames[1..])).pieces);
      assert Messages([Message(f)]) == [f];
      assert frames == [f] + frames[1..];
    }
  }

  // ----- frames as packets

  /** The fields of a packet; numbers of messages have one byte in version 1 and three in version 2. */
  datatype Packet =
    | Version1(number: byte, system: byte, component: byte, id: nat, payload: seq<byte>, check: seq<byte>)
    | Version2(flags: byte, compatible: byte, number: byte, system: byte, component: byte, id: nat, payload: seq<byte>, check: seq<byte>, signature: seq<byte>)

  /** Two bytes of checksum, and thirteen of signature exactly when the flags announce it. */
  predicate WellFormed(p: Packet) {
    && |p.payload| < 256 && |p.check| == 2
    && match p
       case Version1(_, _, _, id, _, _) => id < 256
       case Version2(flags, _, _, _, _, id, _, _, signature) => id < 0x100_0000 && |signature| == if flags % 2 == 1 then 13 else 0
  }

  function Encode(p: Packet): seq<byte>
    requires WellFormed(p)
  {
    match p
    case Version1(number, system, component, id, payload, check) =>
      [0xfe, |payload|, number, system, component, id] + payload + check
    case Version2(flags, compatible, number, system, component, id, payload, check, signature) =>
      [0xfd, |payload|, flags, compatible, number, system, component, id % 256, id / 256 % 256, id / 0x1_0000] + payload + check + signature
  }

  /** The fields of a frame, as the splitter's parsers of the two versions read them. */
  function Decode(m: seq<byte>): Packet
    requires Frame(m)
  {
    var len: int := m[1];
    if m[0] == V1 then Version1(m[2], m[3], m[4], m[5], m[6..6 + len], m[6 + len..])
    else
      var low: int, middle: int, high: int := m[7], m[8], m[9];
      Version2(m[2], m[3], m[4], m[5], m[6], low + 256 * middle + 0x1_0000 * high, m[10..10 + len], m[10 + len..12 + len], m[12 + len..])
  }

  /** Encoded packets are frames and read back as they were. */
  lemma DecodeEncoded(p: Packet)
    requires WellFormed(p)
    ensures Frame(Encode(p)) && Decode(Encode(p)) == p
  {
    var m := Encode(p);
    match p
    case Version1(_, _, _, _, payload, check) =>
      assert m[6..6 + |payload|] == payload && m[6 + |payload|..] == check;
    case Version2(_, _, _, _, _, id, payload, check, signature) =>
      assert m[10..10 + |payload|] == payload && m[10 + |payload|..12 + |payload|] == check && m[12 + |payload|..] == signature;
      ThreeBytes(id);
  }

  lemma ThreeBytes(id: nat)
    ensures id == id % 256 + 256 * (id / 256 % 256) + 0x1_0000 * (id / 0x1_0000)
  {
    assert id / 0x1_0000 == id / 256 / 256;
  }

  lemma FromThreeBytes(a: byte, b: byte, c: byte)
    ensures var low: int, middle: int, high: int := a, b, c;
            var id := low + 256 * middle + 0x1_0000 * high;
            id < 0x100_0000 && id % 256 == a && id / 256 % 256 == b && id / 0x1_0000 == c
  {}

  /** Every frame is an encoded packet. */
  lemma EncodeDecoded(m: seq<byte>)
    requires Frame(m)
    ensures WellFormed(Decode(m)) && Encode(Decode(m)) == m
  {
    if m[0] == V1 {
      EncodeDecoded1(m);
    } else {
      EncodeDecoded2(m);
    }
  }

  lemma EncodeDecoded1(m: seq<byte>)
    requires Frame(m) && m[0] == V1
    ensures WellFormed(Decode(m)) && Encode(Decode(m)) == m
  {
    var len: int := m[1];
    assert m == m[..6] + m[6..6 + len] + m[6 + len..];
    assert m[..6] == [0xfe, m[1], m[2], m[3], m[4], m[5]];
  }

  lemma EncodeDecoded2(m: seq<byte>)
    requires Frame(m) && m[0] == V2
    ensures WellFormed(Decode(m)) && Encode(Decode(m)) == m
  {
    var len: int := m[1];
    FromThreeBytes(m[7], m[8], m[9]);
    FourParts(m, 10, 10 + len, 12 + len);
    assert m[..10] == [0xfd, m[1], m[2], m[3], m[4], m[5], m[6], m[7], m[8], m[9]];
  }

  lemma FourParts(m: seq<byte>, a: nat, b: nat, c: nat)
    requires a <= b <= c <= |m|
    ensures m == m[..a] + m[a..b] + m[b..c] + m[c..]
  {}

  // ----- the generator

  class Parser {
    var buffer: seq<byte>
    var skip: nat

    ghost predicate Valid()
      reads this
    {
      skip <= |buffer|
    }

    /** The bytes not yet taken or skipped. */
    ghost function Pending(): seq<byte>
      requires Valid()
      reads this
    {
      buffer[skip..]
    }

    constructor ()
      ensures Valid() && Pending() == []
    {
      buffer, skip := [], 0;
    }

    /** One chunk in, its complete messages out; consumed bytes are trimmed only now and then. */
    method Send(data: seq<byte>) returns (list: seq<seq<byte>>)
      requires Valid() && Waiting(Pending())
      modifies this
      ensures Valid() && Waiting(Pending()) && skip <= TRIM
      ensures var r := Scan(old(Pending()) + data);
              list == Messages(r.pieces) && Pending() == r.rest
    {
      hide Scan, Synced, FrameLength, Messages;
      list := [];
      NoMessages();
      if data == [] {
        assert Pending() + data == Pending();
        ScanWaiting(Pending());
      } else {
        assert (buffer + data)[skip..] == Pending() + data;
        buffer := buffer + data;
        list := TakeFrames();
      }
      if skip > TRIM {
        buffer := buffer[skip..];
        skip := 0;
      }
    }

    method TakeFrames() returns (list: seq<seq<byte>>)
      requires Valid()
      modifies this`skip
      ensures Valid() && Waiting(Pending())
      ensures var r := Scan(old(Pending())); list == Messages(r.pieces) && Pending() == r.rest
    {
      hide Scan, Messages;
      ghost var stream := Pending();
      list := [];
      ghost var done: seq<Piece> := [];
      NoMessages();
      assert [] + Scan(stream).pieces == Scan(stream).pieces;
      while |buffer| - skip >= SHORTEST
        invariant Valid() && list == Messages(done)
        invariant Scan(stream) == Scanned(done + Scan(Pending()).pieces, Scan(Pending()).rest)
        decreases |buffer| - skip
      {
        var version := buffer[skip];
        var len;
        ghost var s := Pending();
        if version == V1 {
          len := 8 + buffer[skip + 1] as int;
        } else if version == V2 {
          var flags := buffer[skip + 2];
          len := buffer[skip + 1] as int + (if flags % 2 == 1 then 25 else 12);
        } else {
          ScanJunk(s);
          skip := skip + 1;
          assert Pending() == s[1..];
          Associates(done, [Junk(version)], Scan(Pending()).pieces);
          MessagesSnoc(done, Junk(version));
          done := done + [Junk(version)];
          continue;
        }
        assert len == FrameLength(s);
        if |buffer| - skip < len {
          break;
        }
        ScanFrame(s, len);
        list := list + [buffer[skip..skip + len]];
        assert buffer[skip..skip + len] == s[..len];
        skip := skip + len;
        assert Pending() == s[len..];
        Associates(done, [Message(s[..len])], Scan(Pending()).pieces);
        MessagesSnoc(done, Message(s[..len]));
        done := done + [Message(s[..len])];
      }
      ScanWaiting(Pending());
      assert done + [] == done;
    }
  }

  lemma NoMessages()
    ensures Messages([]) == []
  {}

  lemma MessagesSnoc(ps: seq<Piece>, p: Piece)
    ensures Messages(ps + [p]) == Messages(ps) + (if p.Message? then [p.bytes] else [])
    ensures p.Junk? ==> Messages(ps + [p]) == Messages(ps)
  {
    assert (ps + [p])[..|ps|] == ps;
  }

  /** A splitter fed chunk by chunk outputs the messages of the whole stream. */
  method SplitStream(chunks: seq<seq<byte>>) returns (list: seq<seq<byte>>)
    ensures list == Messages(Scan(Join(chunks)).pieces)
  {
    hide Scan, Messages, Waiting;
    var parser := new Parser();
    list := [];
    NoMessages();
    ScanNothing();
    for i := 0 to |chunks|
      invariant fresh(parser) && parser.Valid() && Waiting(parser.Pending())
      invariant list == Messages(Scan(Join(chunks[..i])).pieces) && parser.Pending() == Scan(Join(chunks[..i])).rest
    {
      ghost var before := Join(chunks[..i]);
      ScanConcat(before, chunks[i]);
      MessagesConcat(Scan(before).pieces, Scan(parser.Pending() + chunks[i]).pieces);
      JoinSnoc(chunks[..i], chunks[i]);
      assert chunks[..i + 1] == chunks[..i] + [chunks[i]];
      var more := parser.Send(chunks[i]);
      list := list + more;
    }
    assert chunks[..|chunks|] == chunks;
  }

  lemma ScanNothing()
    ensures Scan([]) == Scanned([], []) && Waiting([])
  {}
}
