/** The two rotating queues of the token scheduler: active nodes (AQ) and sleeping nodes (SQ). */
module Queues {
  import opened Sequences

  type Node = x: int | 0 <= x < 256

  const INVALID_NODE: Node := 0xFF

  /** The queues, the sets that mirror them, and the AQ services since the last interleaved SQ service. */
  datatype State = State(aq: seq<Node>, sq: seq<Node>, inAq: set<Node>, inSq: set<Node>, served: nat)

  const EMPTY := State([], [], {}, {}, 0)

  datatype Op = Init(node: Node) | ToAq(node: Node) | ToSq(node: Node) | Serve

  /** A service: which node, and whether it came from SQ. */
  datatype Service = Service(node: Node, fromSq: bool)

  // ----- the operations as functions of the state

  function Without(s: seq<Node>, x: Node): (r: seq<Node>)
    ensures forall y :: y in r <==> y in s && y != x
  {
    if |s| == 0 then [] else (if s[0] == x then [] else [s[0]]) + Without(s[1..], x)
  }

  function Rotated(s: seq<Node>): (r: seq<Node>)
    requires |s| > 0
    ensures |r| == |s| && multiset(r) == multiset(s)
  {
    assert s == [s[0]] + s[1..];
    s[1..] + [s[0]]
  }

  function Pick(q: State, ratio: int): Service {
    if q.aq == [] && q.sq == [] then Service(INVALID_NODE, false)
    else if q.aq != [] && (q.sq == [] || q.served < ratio) then Service(q.aq[0], false)
    else Service(q.sq[0], true)
  }

  function Apply(q: State, op: Op, ratio: int): State {
    match op
    case Init(x) =>
      if x in q.inAq || x in q.inSq then q else q.(sq := q.sq + [x], inSq := q.inSq + {x})
    case ToAq(x) =>
      if x in q.inAq then q
      else q.(sq := if x in q.inSq then Without(q.sq, x) else q.sq, inSq := q.inSq - {x}, aq := q.aq + [x], inAq := q.inAq + {x})
    case ToSq(x) =>
      if x in q.inSq then q
      else q.(aq := if x in q.inAq then Without(q.aq, x) else q.aq, inAq := q.inAq - {x}, sq := q.sq + [x], inSq := q.inSq + {x})
    case Serve =>
      if q.aq == [] && q.sq == [] then q
      else if q.aq == [] then q.(sq := Rotated(q.sq))
      else if q.sq == [] || q.served < ratio then q.(aq := Rotated(q.aq), served := q.served + 1)
      else q.(sq := Rotated(q.sq), served := 0)
  }

  function After(q: State, ops: seq<Op>, ratio: int): State
    decreases |ops|
  {
    if |ops| == 0 then q else After(Apply(q, ops[0], ratio), ops[1..], ratio)
  }

  // ----- the manager

  class AqSqManager {
    var aq: seq<Node>
    var sq: seq<Node>
    var inAqSet: set<Node>
    var inSqSet: set<Node>
    var aqServed: nat

    function Abs(): State
      reads this
    {
      State(aq, sq, inAqSet, inSqSet, aqServed)
    }

    constructor ()
      ensures Abs() == EMPTY
    {
      aq, sq, inAqSet, inSqSet, aqServed := [], [], {}, {}, 0;
    }

    method InitNode(node: Node)
      modifies this
      ensures Abs() == Apply(old(Abs()), Init(node), 0)
    {
      if node in inAqSet || node in inSqSet {
        return;
      }
      sq := sq + [node];
      inSqSet := inSqSet + {node};
    }

    method MigrateToAq(node: Node)
      modifies this
      ensures Abs() == Apply(old(Abs()), ToAq(node), 0)
    {
      if node in inAqSet {
        return;
      }
      if node in inSqSet {
        sq := Without(sq, node);
        inSqSet := inSqSet - {node};
      }
      aq := aq + [node];
      inAqSet := inAqSet + {node};
    }

    method MigrateToSq(node: Node)
      modifies this
      ensures Abs() == Apply(old(Abs()), ToSq(node), 0)
    {
      if node in inSqSet {
        return;
      }
      if node in inAqSet {
        aq := Without(aq, node);
        inAqSet := inAqSet - {node};
      }
      sq := sq + [node];
      inSqSet := inSqSet + {node};
    }

    method GetNextNode(ratio: int) returns (s: Service)
      modifies this
      ensures s == Pick(old(Abs()), ratio) && Abs() == Apply(old(Abs()), Serve, ratio)
    {
      if aq == [] && sq == [] {
        return Service(INVALID_NODE, false);
      }
      if aq == [] && sq != [] {
        var node := sq[0];
        sq := sq[1..];
        sq := sq + [node];
        return Service(node, true);
      }
      if sq == [] || aqServed < ratio {
        var node := aq[0];
        aq := aq[1..];
        aq := aq + [node];
        aqServed := aqServed + 1;
        return Service(node, false);
      }
      var node := sq[0];
      sq := sq[1..];
      sq := sq + [node];
      aqServed := 0;
      return Service(node, true);
    }
  }

  // ----- the queues partition the nodes

  ghost predicate Mirrors(members: set<Node>, s: seq<Node>) {
    forall x :: x in members <==> x in s
  }

  /** A duplicate-free queue and the set that mirrors it. */
  ghost predicate Sound(s: seq<Node>, members: set<Node>) {
    Distinct(s) && Mirrors(members, s)
  }

  ghost predicate Partition(q: State) {
    Sound(q.aq, q.inAq) && Sound(q.sq, q.inSq) && q.inAq !! q.inSq
  }

  lemma AppendSound(s: seq<Node>, members: set<Node>, x: Node)
    requires Sound(s, members) && x !in members
    ensures Sound(s + [x], members + {x})
  {}

  lemma {:induction false} WithoutDistinct(s: seq<Node>, x: Node)
    requires Distinct(s)
    ensures Distinct(Without(s, x))
  {
    if |s| > 0 {
      WithoutDistinct(s[1..], x);
      assert s[0] !in s[1..];
    }
  }

  lemma RemoveSound(s: seq<Node>, members: set<Node>, x: Node)
    requires Sound(s, members)
    ensures Sound(Without(s, x), members - {x})
    ensures x !in members ==> members - {x} == members
  {
    WithoutDistinct(s, x);
  }

  lemma RotateSound(s: seq<Node>, members: set<Node>)
    requires Sound(s, members) && |s| > 0
    ensures Sound(Rotated(s), members)
  {
    assert s == [s[0]] + s[1..];
  }

  lemma ApplyPartition(q: State, op: Op, ratio: int)
    requires Partition(q)
    ensures var r := Apply(q, op, ratio);
            Partition(r) && r.inAq + r.inSq == q.inAq + q.inSq + (if op.Serve? then {} else {op.node})
  {
    hide Sound, Without, Rotated;
    match op
    case Init(x) =>
      if x !in q.inSq { AppendSound(q.sq, q.inSq, x); }
    case ToAq(x) =>
      RemoveSound(q.sq, q.inSq, x);
      if x !in q.inAq { AppendSound(q.aq, q.inAq, x); }
    case ToSq(x) =>
      RemoveSound(q.aq, q.inAq, x);
      if x !in q.inSq { AppendSound(q.sq, q.inSq, x); }
    case Serve =>
      if q.sq != [] { RotateSound(q.sq, q.inSq); }
      if q.aq != [] { RotateSound(q.aq, q.inAq); }
  }

  /** The nodes named by the operations. */
  function Added(ops: seq<Op>): set<Node> {
    if |ops| == 0 then {} else (if ops[0].Serve? then {} else {ops[0].node}) + Added(ops[1..])
  }

  /** Over every run the queues are duplicate-free, disjoint and mirrored by their sets, and hold exactly the nodes ever added. */
  lemma {:induction false} RunPartition(q: State, ops: seq<Op>, ratio: int)
    requires Partition(q)
    ensures var r := After(q, ops, ratio);
            Partition(r) && r.inAq + r.inSq == q.inAq + q.inSq + Added(ops)
    decreases |ops|
  {
    if |ops| > 0 {
      hide Apply, Partition;
      ApplyPartition(q, ops[0], ratio);
      RunPartition(Apply(q, ops[0], ratio), ops[1..], ratio);
    }
  }

  // ----- no starvation

  /** The position of x in a queue. */
  function Position(s: seq<Node>, x: Node): (p: nat)
    requires x in s
    ensures p < |s| && s[p] == x && x !in s[..p]
  {
    if s[0] == x then 0 else Position(s[1..], x) + 1
  }

  /** The calls for p full turns of the interleaving. */
  function Turns(p: nat, ratio: nat): nat {
    p * (ratio + 1)
  }

  lemma TurnsMonotone(p: nat, p': nat, ratio: nat)
    requires p <= p'
    ensures Turns(p, ratio) <= Turns(p', ratio)
  {}

  lemma TurnsNext(p: nat, ratio: nat)
    ensures Turns(p + 1, ratio) == Turns(p, ratio) + ratio + 1
  {}

  /** How many calls of the scheduler a sleeping node waits at most. */
  function SqRank(q: State, x: Node, ratio: nat): nat
    requires x in q.sq
  {
    Turns(Position(q.sq, x), ratio) + (if q.served < ratio then ratio - q.served else 0) + 1
  }

  /** How many calls of the scheduler an active node waits at most. */
  function AqRank(q: State, x: Node, ratio: nat): nat
    requires x in q.aq
  {
    2 * Position(q.aq, x) + (if q.served < ratio then 0 else 1) + 1
  }

  /** One of the first `calls` services among the operations goes to x. */
  predicate ServedWithin(q: State, ops: seq<Op>, ratio: int, x: Node, calls: nat)
    decreases |ops|
  {
    && |ops| > 0 && calls > 0
    && var r := Apply(q, ops[0], ratio);
       if ops[0].Serve? then Pick(q, ratio).node == x || ServedWithin(r, ops[1..], ratio, x, calls - 1)
       else ServedWithin(r, ops[1..], ratio, x, calls)
  }

  function Calls(ops: seq<Op>): nat {
    if |ops| == 0 then 0 else (if ops[0].Serve? then 1 else 0) + Calls(ops[1..])
  }

  lemma PositionAppend(s: seq<Node>, x: Node, y: Node)
    requires x in s
    ensures Position(s + [y], x) == Position(s, x)
  {
    FirstPosition(s + [y], x, Position(s, x));
  }

  lemma {:induction false} FirstPosition(s: seq<Node>, x: Node, p: nat)
    requires p < |s| && s[p] == x && x !in s[..p]
    ensures Position(s, x) == p
  {
    assert x !in s[..Position(s, x)];
  }

  lemma {:induction false} PositionWithout(s: seq<Node>, x: Node, y: Node)
    requires x in s && x != y
    ensures x in Without(s, y) && Position(Without(s, y), x) <= Position(s, x)
  {
    if s[0] == x {
    } else {
      PositionWithout(s[1..], x, y);
      var r := Without(s[1..], y);
      if s[0] != y {
        assert ([s[0]] + r)[1..] == r;
      } else {
        assert [] + r == r;
      }
    }
  }

  lemma PositionRotated(s: seq<Node>, x: Node)
    requires x in s && s[0] != x
    ensures x in Rotated(s) && Position(Rotated(s), x) == Position(s, x) - 1
  {
    var p := Position(s, x);
    FirstPosition(Rotated(s), x, p - 1);
  }

  /** Every operation but the node's own waking keeps it asleep without lengthening its wait, and a
      service of another node shortens it. */
  lemma SqStep(q: State, op: Op, ratio: nat, x: Node)
    requires Partition(q) && x in q.sq && op != ToAq(x) && !(op.Serve? && Pick(q, ratio).node == x)
    ensures var r := Apply(q, op, ratio);
            x in r.sq && SqRank(r, x, ratio) + (if op.Serve? then 1 else 0) <= SqRank(q, x, ratio)
  {
    hide Without, Rotated, Position, Turns;
    var p := Position(q.sq, x);
    match op
    case Init(y) => PositionAppend(q.sq, x, y);
    case ToAq(y) =>
      PositionWithout(q.sq, x, y);
      TurnsMonotone(Position(Without(q.sq, y), x), p, ratio);
    case ToSq(y) => PositionAppend(q.sq, x, y);
    case Serve =>
      if q.aq == [] || (q.sq != [] && q.served >= ratio) {
        PositionRotated(q.sq, x);
        TurnsNext(p - 1, ratio);
      }
  }

  lemma AqStep(q: State, op: Op, ratio: nat, x: Node)
    requires Partition(q) && x in q.aq && op != ToSq(x) && ratio >= 1 && !(op.Serve? && Pick(q, ratio).node == x)
    ensures var r := Apply(q, op, ratio);
            x in r.aq && AqRank(r, x, ratio) + (if op.Serve? then 1 else 0) <= AqRank(q, x, ratio)
  {
    hide Without, Rotated, Position;
    match op
    case Init(y) =>
    case ToAq(y) => PositionAppend(q.aq, x, y);
    case ToSq(y) => PositionWithout(q.aq, x, y);
    case Serve =>
      if q.sq == [] || q.served < ratio {
        PositionRotated(q.aq, x);
      }
  }

  lemma {:induction false} SqServed(q: State, ops: seq<Op>, ratio: nat, x: Node)
    requires Partition(q) && x in q.sq && ToAq(x) !in ops && Calls(ops) >= SqRank(q, x, ratio)
    ensures ServedWithin(q, ops, ratio, x, SqRank(q, x, ratio))
    decreases |ops|
  {
    hide Apply, Pick, SqRank, Partition;
    RankPositive(q, x, ratio);
    if ops[0].Serve? && Pick(q, ratio).node == x {
    } else {
      var r := Apply(q, ops[0], ratio);
      ApplyPartition(q, ops[0], ratio);
      SqStep(q, ops[0], ratio, x);
      SqServed(r, ops[1..], ratio, x);
      var c := SqRank(q, x, ratio) - (if ops[0].Serve? then 1 else 0);
      MoreCalls(r, ops[1..], ratio, x, SqRank(r, x, ratio), c);
    }
  }

  lemma {:induction false} AqServed(q: State, ops: seq<Op>, ratio: nat, x: Node)
    requires Partition(q) && x in q.aq && ToSq(x) !in ops && ratio >= 1 && Calls(ops) >= AqRank(q, x, ratio)
    ensures ServedWithin(q, ops, ratio, x, AqRank(q, x, ratio))
    decreases |ops|
  {
    hide Apply, Pick, Partition;
    if ops[0].Serve? && Pick(q, ratio).node == x {
    } else {
      var r := Apply(q, ops[0], ratio);
      ApplyPartition(q, ops[0], ratio);
      AqStep(q, ops[0], ratio, x);
      AqServed(r, ops[1..], ratio, x);
      var c := AqRank(q, x, ratio) - (if ops[0].Serve? then 1 else 0);
      MoreCalls(r, ops[1..], ratio, x, AqRank(r, x, ratio), c);
    }
  }

  lemma RankPositive(q: State, x: Node, ratio: nat)
    requires x in q.sq
    ensures SqRank(q, x, ratio) > 0
  {
    hide Turns;
  }

  lemma {:induction false} MoreCalls(q: State, ops: seq<Op>, ratio: int, x: Node, c: nat, c': nat)
    requires ServedWithin(q, ops, ratio, x, c) && c <= c'
    ensures ServedWithin(q, ops, ratio, x, c')
    decreases |ops|
  {
    hide Apply, Pick;
    var r := Apply(q, ops[0], ratio);
    if !ops[0].Serve? {
      MoreCalls(r, ops[1..], ratio, x, c, c');
    } else if Pick(q, ratio).node != x {
      MoreCalls(r, ops[1..], ratio, x, c - 1, c' - 1);
    }
  }

  /** A node that stays asleep at position p is served within (p + 1)(ratio + 1) calls, whatever the other nodes do. */
  lemma SleepingNodeServed(q: State, ops: seq<Op>, ratio: nat, x: Node)
    requires Partition(q) && x in q.sq && ToAq(x) !in ops
    requires Calls(ops) >= (Position(q.sq, x) + 1) * (ratio + 1)
    ensures ServedWithin(q, ops, ratio, x, (Position(q.sq, x) + 1) * (ratio + 1))
  {
    var bound := Turns(Position(q.sq, x) + 1, ratio);
    TurnsNext(Position(q.sq, x), ratio);
    assert SqRank(q, x, ratio) <= bound;
    SqServed(q, ops, ratio, x);
    MoreCalls(q, ops, ratio, x, SqRank(q, x, ratio), bound);
  }

  /** A node that stays active at position p is served within 2p + 2 calls, whatever the other nodes do. */
  lemma ActiveNodeServed(q: State, ops: seq<Op>, ratio: nat, x: Node)
    requires Partition(q) && x in q.aq && ToSq(x) !in ops && ratio >= 1
    requires Calls(ops) >= 2 * Position(q.aq, x) + 2
    ensures ServedWithin(q, ops, ratio, x, 2 * Position(q.aq, x) + 2)
  {
    AqServed(q, ops, ratio, x);
    MoreCalls(q, ops, ratio, x, AqRank(q, x, ratio), 2 * Position(q.aq, x) + 2);
  }

  lemma SqStepExact(q: State, ratio: nat, x: Node)
    requires Partition(q) && x in q.sq && q.aq != [] && q.served <= ratio && SqRank(q, x, ratio) > 1
    ensures Pick(q, ratio).node != x
    ensures var r := Apply(q, Serve, ratio);
            x in r.sq && r.aq != [] && r.served <= ratio && SqRank(r, x, ratio) == SqRank(q, x, ratio) - 1
  {
    hide Rotated, Position, Turns;
    var p := Position(q.sq, x);
    if q.served == ratio {
      PositionZero(q.sq, x);
      TurnsZero(ratio);
      PositionRotated(q.sq, x);
      TurnsNext(p - 1, ratio);
    }
  }

  lemma TurnsZero(ratio: nat)
    ensures Turns(0, ratio) == 0
  {}

  lemma PositionZero(s: seq<Node>, x: Node)
    requires x in s
    ensures Position(s, x) == 0 <==> s[0] == x
  {}

  /** The wait is exact: while some node is active and nobody migrates, a sleeping node is not served
      before its rank, so from a fresh counter the bound (p + 1)(ratio + 1) is reached. */
  lemma {:induction false} SleepingWaitExact(q: State, ops: seq<Op>, ratio: nat, x: Node, calls: nat)
    requires Partition(q) && x in q.sq && q.aq != [] && q.served <= ratio
    requires (forall i :: 0 <= i < |ops| ==> ops[i].Serve?) && calls < SqRank(q, x, ratio)
    ensures !ServedWithin(q, ops, ratio, x, calls)
    decreases |ops|
  {
    hide Apply, Pick, SqRank, Partition;
    if |ops| > 0 && calls > 0 {
      assert ops[0] == Serve;
      SqStepExact(q, ratio, x);
      ApplyPartition(q, Serve, ratio);
      SleepingWaitExact(Apply(q, Serve, ratio), ops[1..], ratio, x, calls - 1);
    }
  }

  // ----- what a service means

  /** The flag says which queue the node is in. */
  lemma ServedFrom(q: State, ratio: int)
    requires Partition(q) && (q.aq != [] || q.sq != [])
    ensures var s := Pick(q, ratio); (s.fromSq <==> s.node in q.inSq) && (!s.fromSq <==> s.node in q.inAq)
  {}

  /** A service in the course of a run, and whether no node was active then. */
  datatype Turn = Turn(service: Service, idle: bool)

  function History(ops: seq<Op>, ratio: int): seq<Turn> {
    if |ops| == 0 then []
    else
      var before := ops[..|ops| - 1];
      var q := After(EMPTY, before, ratio);
      History(before, ratio) +
      (if ops[|ops| - 1].Serve? && (q.aq != [] || q.sq != []) then [Turn(Pick(q, ratio), q.aq == [])] else [])
  }

  /** The services of active nodes since a sleeping node was last served between them. */
  function SinceInterleave(h: seq<Turn>): nat {
    if |h| == 0 then 0
    else
      var t, before := h[|h| - 1], SinceInterleave(h[..|h| - 1]);
      if !t.service.fromSq then before + 1 else if t.idle then before else 0
  }

  lemma {:induction false} AfterSnoc(q: State, ops: seq<Op>, op: Op, ratio: int)
    ensures After(q, ops + [op], ratio) == Apply(After(q, ops, ratio), op, ratio)
    decreases |ops|
  {
    hide Apply;
    if |ops| == 0 {
      assert (ops + [op])[1..] == [];
    } else {
      AfterSnoc(Apply(q, ops[0], ratio), ops[1..], op, ratio);
      assert (ops + [op])[1..] == ops[1..] + [op];
    }
  }

  lemma SinceSnoc(h: seq<Turn>, t: Turn)
    ensures SinceInterleave(h + [t]) ==
            if !t.service.fromSq then SinceInterleave(h) + 1 else if t.idle then SinceInterleave(h) else 0
  {
    assert (h + [t])[..|h|] == h;
  }

  lemma AppliedServed(q: State, op: Op, ratio: int, h: seq<Turn>)
    requires q.served == SinceInterleave(h)
    ensures Apply(q, op, ratio).served ==
            SinceInterleave(h + if op.Serve? && (q.aq != [] || q.sq != []) then [Turn(Pick(q, ratio), q.aq == [])] else [])
  {
    hide Without, Rotated, SinceInterleave;
    assert h + [] == h;
    SinceSnoc(h, Turn(Pick(q, ratio), q.aq == []));
  }

  lemma {:induction false} ServedCounts(ops: seq<Op>, ratio: int)
    ensures After(EMPTY, ops, ratio).served == SinceInterleave(History(ops, ratio))
  {
    hide After, Apply, Pick, SinceInterleave;
    if |ops| == 0 {
      NothingYet(ratio);
    } else {
      var m := |ops| - 1;
      ServedCounts(ops[..m], ratio);
      AfterSnoc(EMPTY, ops[..m], ops[m], ratio);
      assert ops[..m] + [ops[m]] == ops;
      AppliedServed(After(EMPTY, ops[..m], ratio), ops[m], ratio, History(ops[..m], ratio));
    }
  }

  lemma NothingYet(ratio: int)
    ensures After(EMPTY, [], ratio) == EMPTY && SinceInterleave([]) == 0
  {}

  /** Over every run: a sleeping node is served next if and only if there is one and no node is active, or `ratio`
      services of active nodes have passed since a sleeping one was last served between them. */
  lemma InterleavedExactly(ops: seq<Op>, ratio: int)
    ensures var q := After(EMPTY, ops, ratio);
            Pick(q, ratio).fromSq <==> q.sq != [] && (q.aq == [] || SinceInterleave(History(ops, ratio)) >= ratio)
  {
    hide After, History, SinceInterleave;
    ServedCounts(ops, ratio);
  }
}
