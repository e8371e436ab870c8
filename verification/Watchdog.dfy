/** The token server's per-node watchdog: window sizes and moves between the active and the sleeping queue. */
module Watchdog {
  import opened Queues

  const MIN_WINDOW: nat := 50
  const STEP_UP: nat := 100
  const ELASTIC_MARGIN: nat := 50
  const MICRO_PROBE: nat := 15
  const INTERLEAVE_RATIO: int := 4
  const QUIET: nat := 5
  const PATIENCE: nat := 3

  type uint16 = x: int | 0 <= x < 0x1_0000

  datatype Phase = StateI | StateII | StateIII

  /** The silence counter is a byte. */
  datatype NodeState = NodeState(silence: nat, phase: Phase, window: uint16, inAq: bool)

  const NEW_NODE := NodeState(0, StateI, 50, false)

  function MaxWindow(numNodes: nat): (w: uint16)
    ensures w >= 150
  {
    if numNodes <= 5 then 600 else if numNodes <= 10 then 300 else 150
  }

  /** The window of a node that used its whole allocation: additive increase, capped. */
  function Increased(grant: uint16, max: uint16): uint16 {
    var target := (grant + STEP_UP) % 0x1_0000;
    if target < max then target else max
  }

  /** The window of a node that used part of its allocation: what it used and a margin. */
  function Fitted(actual: uint16): uint16 {
    var target := (actual + ELASTIC_MARGIN) % 0x1_0000;
    if target > MIN_WINDOW then target else MIN_WINDOW
  }

  /** A node's record after a report. */
  function Judge(s: NodeState, actual: uint16, grant: uint16, max: uint16): NodeState {
    if actual < QUIET then
      var count := (s.silence + 1) % 256;
      if count >= PATIENCE then NodeState(count, StateI, MIN_WINDOW, false) else s.(silence := count)
    else if actual >= grant then NodeState(0, StateIII, Increased(grant, max), true)
    else NodeState(0, StateII, Fitted(actual), true)
  }

  /** The window granted next. */
  function Granted(s: NodeState, actual: uint16, grant: uint16, max: uint16): uint16 {
    if actual < QUIET && (s.silence + 1) % 256 < PATIENCE then grant
    else Judge(s, actual, grant, max).window
  }

  /** What the report asks of the queues. */
  function Move(node: Node, s: NodeState, actual: uint16): seq<Op> {
    if actual >= QUIET then [ToAq(node)]
    else if (s.silence + 1) % 256 >= PATIENCE then [ToSq(node)]
    else []
  }

  /** The records of the scheduler and the queues. */
  datatype System = System(nodes: map<Node, NodeState>, queues: State)

  function RecordOf(sys: System, node: Node): NodeState {
    if node in sys.nodes then sys.nodes[node] else NEW_NODE
  }

  /** The node to serve next and its time. */
  function Allotted(sys: System): (Node, uint16) {
    var s := Pick(sys.queues, INTERLEAVE_RATIO);
    (s.node, if s.node == INVALID_NODE then 0 else if s.fromSq then MICRO_PROBE else RecordOf(sys, s.node).window)
  }

  class ServerScheduler {
    var nodes: map<Node, NodeState>
    var manager: AqSqManager?
    var numNodes: nat

    constructor ()
      ensures nodes == map[] && manager == null && numNodes == 10
    {
      nodes, manager, numNodes := map[], null, 10;
    }

    method InitNode(node: Node)
      modifies this`nodes
      ensures nodes == old(nodes)[node := NEW_NODE]
    {
      nodes := nodes[node := NEW_NODE];
    }

    /** The record of a node; reading it for an unknown node creates it. */
    function Record(node: Node): NodeState
      reads this`nodes
    {
      if node in nodes then nodes[node] else NEW_NODE
    }

    method CalculateNextWindow(node: Node, actual: uint16, grant: uint16) returns (window: uint16)
      modifies this`nodes, if manager != null then {manager} else {}
      ensures nodes == old(nodes)[node := Judge(old(Record(node)), actual, grant, MaxWindow(numNodes))]
      ensures window == Granted(old(Record(node)), actual, grant, MaxWindow(numNodes))
      ensures manager != null ==> manager.Abs() == After(old(manager.Abs()), Move(node, old(Record(node)), actual), INTERLEAVE_RATIO)
    {
      var state := Record(node);
      var max := MaxWindow(numNodes);
      if actual < QUIET {
        state := state.(silence := (state.silence + 1) % 256);
        nodes := nodes[node := state];
        if state.silence >= PATIENCE {
          nodes := nodes[node := NodeState(state.silence, StateI, MIN_WINDOW, false)];
          if manager != null {
            manager.MigrateToSq(node);
          }
          return MIN_WINDOW;
        }
        return grant;
      }
      state := state.(silence := 0);
      if actual >= grant {
        var target := (grant + STEP_UP) % 0x1_0000;
        state := NodeState(0, StateIII, if max < target then max else target, true);
        nodes := nodes[node := state];
        if manager != null {
          manager.MigrateToAq(node);
        }
        return state.window;
      }
      var target := (actual + ELASTIC_MARGIN) % 0x1_0000;
      state := NodeState(0, StateII, if target < MIN_WINDOW then MIN_WINDOW else target, true);
      nodes := nodes[node := state];
      if manager != null {
        manager.MigrateToAq(node);
      }
      return state.window;
    }

    /** The next node and its time: a probe for a sleeping node, its window for an active one. */
    method GetNextNodeToServe() returns (node: Node, duration: uint16)
      modifies if manager != null then {manager} else {}
      ensures manager == null ==> node == INVALID_NODE && duration == 0
      ensures manager != null ==> manager.Abs() == old(Apply(manager.Abs(), Serve, INTERLEAVE_RATIO))
      ensures manager != null ==> (node, duration) == old(Allotted(System(nodes, manager.Abs())))
    {
      if manager == null {
        return INVALID_NODE, 0;
      }
      var next := manager.GetNextNode(INTERLEAVE_RATIO);
      node := next.node;
      if node == INVALID_NODE {
        return node, 0;
      }
      if next.fromSq {
        duration := MICRO_PROBE;
      } else {
        if node in nodes {
          duration := nodes[node].window;
        } else {
          duration := MIN_WINDOW;
        }
      }
    }
  }

  // ----- whole runs of scheduler and queues

  datatype Event = Start(node: Node) | Report(node: Node, actual: uint16, grant: uint16) | Next

  /** One event: a node is set up in scheduler and queues, a node reports, or the next node is served. */
  function Step(sys: System, e: Event, max: uint16): System {
    match e
    case Start(x) => System(sys.nodes[x := NEW_NODE], Apply(sys.queues, Init(x), INTERLEAVE_RATIO))
    case Report(x, actual, grant) =>
      var s := RecordOf(sys, x);
      System(sys.nodes[x := Judge(s, actual, grant, max)], After(sys.queues, Move(x, s, actual), INTERLEAVE_RATIO))
    case Next => System(sys.nodes, Apply(sys.queues, Serve, INTERLEAVE_RATIO))
  }

  function Run(events: seq<Event>, max: uint16): System {
    if |events| == 0 then System(map[], EMPTY)
    else Step(Run(events[..|events| - 1], max), events[|events| - 1], max)
  }

  /** How many of the node's latest reports in a row were quiet. */
  function QuietReports(events: seq<Event>, x: Node): nat {
    if |events| == 0 then 0
    else QuietAfter(events[|events| - 1], QuietReports(events[..|events| - 1], x), x)
  }

  function QuietAfter(e: Event, before: nat, x: Node): nat {
    match e
    case Start(y) => if y == x then 0 else before
    case Report(y, actual, _) => if y != x then before else if actual < QUIET then before + 1 else 0
    case Next => before
  }

  lemma QuietNext(events: seq<Event>, e: Event, x: Node)
    ensures QuietReports(events + [e], x) == QuietAfter(e, QuietReports(events, x), x)
  {
    assert (events + [e])[..|events|] == events;
  }

  /** No node is set up while it is active. */
  ghost predicate StartsInactive(events: seq<Event>, max: uint16) {
    forall j :: 0 <= j < |events| && events[j].Start? ==> events[j].node !in Run(events[..j], max).queues.inAq
  }

  /** No node is set up while it is known. */
  ghost predicate StartedOnce(events: seq<Event>) {
    forall i, j :: 0 <= i < j < |events| && events[j].Start? ==>
      !(!events[i].Next? && events[i].node == events[j].node)
  }

  /** The scheduler's flag and the queues agree on which nodes are active, and the silence counters are
      the numbers of quiet reports in a row, as bytes. */
  ghost predicate Agreement(sys: System, events: seq<Event>) {
    Partition(sys.queues) && forall x: Node :: AgreesOn(sys, QuietReports(events, x), x)
  }

  ghost predicate AgreesOn(sys: System, quiet: nat, x: Node) {
    && (RecordOf(sys, x).inAq <==> x in sys.queues.inAq)
    && RecordOf(sys, x).silence == quiet % 256
  }

  /** The nodes known to the scheduler are those set up or heard from. */
  lemma {:induction false} KnownNodes(events: seq<Event>, max: uint16, x: Node)
    ensures x in Run(events, max).nodes <==> exists i :: 0 <= i < |events| && !events[i].Next? && events[i].node == x
  {
    if |events| > 0 {
      var m := |events| - 1;
      KnownNodes(events[..m], max, x);
      hide Apply, After, Judge, Move;
      if exists i :: 0 <= i < m && !events[i].Next? && events[i].node == x {
        var i :| 0 <= i < m && !events[i].Next? && events[i].node == x;
        assert events[..m][i] == events[i];
      }
    }
  }

  /** What a migration does to the active set. */
  lemma MoveActive(q: State, x: Node, s: NodeState, actual: uint16, y: Node)
    requires Partition(q)
    ensures var r := After(q, Move(x, s, actual), INTERLEAVE_RATIO);
            && Partition(r)
            && (y in r.inAq <==> if y == x && Move(x, s, actual) != [] then actual >= QUIET else y in q.inAq)
  {
    hide Partition, Without, Rotated;
    RunPartition(q, Move(x, s, actual), INTERLEAVE_RATIO);
    var ops := Move(x, s, actual);
    if ops != [] {
      assert After(q, ops, INTERLEAVE_RATIO) == After(Apply(q, ops[0], INTERLEAVE_RATIO), [], INTERLEAVE_RATIO);
      Disjoint(q);
    }
  }

  lemma Disjoint(q: State)
    requires Partition(q)
    ensures q.inAq !! q.inSq
  {}

  lemma ReportAgreesOn(sys: System, quiet: nat, x: Node, actual: uint16, grant: uint16, max: uint16, y: Node)
    requires Partition(sys.queues) && AgreesOn(sys, quiet, y)
    ensures var e := Report(x, actual, grant); AgreesOn(Step(sys, e, max), QuietAfter(e, quiet, y), y)
  {
    hide Partition, After, Increased, Fitted;
    MoveActive(sys.queues, x, RecordOf(sys, x), actual, y);
  }

  lemma ReportAgrees(sys: System, events: seq<Event>, x: Node, actual: uint16, grant: uint16, max: uint16)
    requires Agreement(sys, events)
    ensures Agreement(Step(sys, Report(x, actual, grant), max), events + [Report(x, actual, grant)])
  {
    hide Partition, AgreesOn, QuietReports, QuietAfter, Judge, Move, After;
    var e := Report(x, actual, grant);
    MoveActive(sys.queues, x, RecordOf(sys, x), actual, x);
    forall y: Node ensures AgreesOn(Step(sys, e, max), QuietReports(events + [e], y), y) {
      QuietNext(events, e, y);
      ReportAgreesOn(sys, QuietReports(events, y), x, actual, grant, max, y);
    }
  }

  /** Setting up a node keeps the agreement exactly when the node is not active. */
  lemma StartAgrees(sys: System, events: seq<Event>, x: Node, max: uint16)
    requires Agreement(sys, events)
    ensures Agreement(Step(sys, Start(x), max), events + [Start(x)]) <==> x !in sys.queues.inAq
  {
    hide Partition, Without, Rotated, QuietReports;
    var sys', all := Step(sys, Start(x), max), events + [Start(x)];
    ApplyPartition(sys.queues, Init(x), INTERLEAVE_RATIO);
    if x in sys.queues.inAq {
      assert !AgreesOn(sys', QuietReports(all, x), x);
    } else {
      forall y: Node ensures AgreesOn(sys', QuietReports(all, y), y) {
        QuietNext(events, Start(x), y);
        assert AgreesOn(sys, QuietReports(events, y), y);
      }
    }
  }

  /** Set up, active, set up again: the queues still hold the node as active, its record does not. */
  lemma StartAgainExample(max: uint16)
    ensures var events := [Start(1), Report(1, 100, 50), Start(1)];
            !Agreement(Run(events, max), events)
  {
    var events := [Start(1), Report(1, 100, 50)];
    OnceIsInactive(events, max);
    RunAgrees(events, max);
    ActiveAfterReport(max);
    StartAgrees(Run(events, max), events, 1, max);
    assert events + [Start(1)] == [Start(1), Report(1, 100, 50), Start(1)];
    assert [Start(1), Report(1, 100, 50), Start(1)][..2] == events;
  }

  lemma ActiveAfterReport(max: uint16)
    ensures 1 in Run([Start(1), Report(1, 100, 50)], max).queues.inAq
  {
    hide Without, Rotated, Judge, QuietReports;
    var first := Run([Start(1)], max);
    assert [Start(1), Report(1, 100, 50)][..1] == [Start(1)];
    var q := Apply(first.queues, ToAq(1), INTERLEAVE_RATIO);
    assert 1 in q.inAq;
    assert After(first.queues, [ToAq(1)], INTERLEAVE_RATIO) == After(q, [], INTERLEAVE_RATIO) == q;
  }

  lemma NextAgrees(sys: System, events: seq<Event>, max: uint16)
    requires Agreement(sys, events)
    ensures Agreement(Step(sys, Next, max), events + [Next])
  {
    hide Partition, Without, Rotated, QuietReports;
    ApplyPartition(sys.queues, Serve, INTERLEAVE_RATIO);
    forall y: Node ensures AgreesOn(Step(sys, Next, max), QuietReports(events + [Next], y), y) {
      QuietNext(events, Next, y);
      assert AgreesOn(sys, QuietReports(events, y), y);
    }
  }

  lemma InactivePrefix(events: seq<Event>, max: uint16, m: nat)
    requires m <= |events| && StartsInactive(events, max)
    ensures StartsInactive(events[..m], max)
  {
    hide Run;
    forall j | 0 <= j < m && events[..m][j].Start? ensures events[..m][j].node !in Run(events[..m][..j], max).queues.inAq {
      assert events[..m][..j] == events[..j];
    }
  }

  /** Over every run in which no active node is set up, flags, counters and queues agree. */
  lemma {:induction false} RunAgrees(events: seq<Event>, max: uint16)
    requires StartsInactive(events, max)
    ensures Agreement(Run(events, max), events)
  {
    if |events| > 0 {
      var m := |events| - 1;
      var sys := Run(events[..m], max);
      hide Step, Agreement;
      InactivePrefix(events, max, m);
      RunAgrees(events[..m], max);
      assert events == events[..m] + [events[m]];
      match events[m]
      case Start(x) => StartAgrees(sys, events[..m], x, max);
      case Report(x, actual, grant) => ReportAgrees(sys, events[..m], x, actual, grant, max);
      case Next => NextAgrees(sys, events[..m], max);
    }
  }

  /** Flags, counters and queues agree at every moment of a run if and only if no active node is set up in it. */
  lemma AgreesExactly(events: seq<Event>, max: uint16)
    ensures (forall j :: 0 <= j <= |events| ==> Agreement(Run(events[..j], max), events[..j])) <==> StartsInactive(events, max)
  {
    hide Run, Agreement;
    if StartsInactive(events, max) {
      forall j | 0 <= j <= |events| ensures Agreement(Run(events[..j], max), events[..j]) {
        InactivePrefix(events, max, j);
        RunAgrees(events[..j], max);
      }
    } else {
      var j :| 0 <= j < |events| && events[j].Start? && events[j].node in Run(events[..j], max).queues.inAq;
      if Agreement(Run(events[..j], max), events[..j]) {
        StartAgrees(Run(events[..j], max), events[..j], events[j].node, max);
        assert events[..j + 1] == events[..j] + [events[j]];
        RunNext(events, max, j);
      }
    }
  }

  lemma RunNext(events: seq<Event>, max: uint16, j: nat)
    requires j < |events|
    ensures Run(events[..j + 1], max) == Step(Run(events[..j], max), events[j], max)
  {
    hide Step;
    assert events[..j + 1][..j] == events[..j];
  }

  /** Setting nodes up only while they are unknown is enough. */
  lemma {:induction false} OnceIsInactive(events: seq<Event>, max: uint16)
    requires StartedOnce(events)
    ensures StartsInactive(events, max)
  {
    hide Run;
    if |events| > 0 {
      var m := |events| - 1;
      OnceIsInactive(events[..m], max);
      forall j | 0 <= j < |events| && events[j].Start? ensures events[j].node !in Run(events[..j], max).queues.inAq {
        if j < m {
          assert events[..m][..j] == events[..j] && events[..m][j] == events[j];
        } else {
          RunAgrees(events[..m], max);
          KnownNodes(events[..m], max, events[m].node);
          UnknownIsInactive(Run(events[..m], max), events[..m], events[m].node);
        }
      }
    }
  }

  lemma UnknownIsInactive(sys: System, events: seq<Event>, x: Node)
    requires Agreement(sys, events) && x !in sys.nodes
    ensures x !in sys.queues.inAq
  {
    assert AgreesOn(sys, QuietReports(events, x), x);
  }

  /** Over every run, however nodes are set up, the queues partition the nodes and the silence counters
      are the numbers of quiet reports in a row, as bytes. */
  lemma {:induction false} RunCounts(events: seq<Event>, max: uint16, x: Node)
    ensures var sys := Run(events, max);
            Partition(sys.queues) && RecordOf(sys, x).silence == QuietReports(events, x) % 256
  {
    hide Partition, Step, QuietAfter;
    if |events| == 0 {
      NobodyQueued();
    } else {
      var m := |events| - 1;
      RunCounts(events[..m], max, x);
      StepCounts(Run(events[..m], max), QuietReports(events[..m], x), events[m], max, x);
    }
  }

  lemma JudgeCounts(s: NodeState, quiet: nat, actual: uint16, grant: uint16, max: uint16)
    requires s.silence == quiet % 256
    ensures Judge(s, actual, grant, max).silence == (if actual < QUIET then quiet + 1 else 0) % 256
  {
    hide Increased, Fitted;
  }

  lemma StepCounts(sys: System, quiet: nat, e: Event, max: uint16, x: Node)
    requires Partition(sys.queues) && RecordOf(sys, x).silence == quiet % 256
    ensures Partition(Step(sys, e, max).queues) && RecordOf(Step(sys, e, max), x).silence == QuietAfter(e, quiet, x) % 256
  {
    hide Partition, Without, Rotated, After, Judge, Move, Apply;
    match e
    case Start(y) => ApplyPartition(sys.queues, Init(y), INTERLEAVE_RATIO);
    case Report(y, actual, grant) =>
      MoveActive(sys.queues, y, RecordOf(sys, y), actual, y);
      if x == y {
        JudgeCounts(RecordOf(sys, x), quiet, actual, grant, max);
      }
    case Next => ApplyPartition(sys.queues, Serve, INTERLEAVE_RATIO);
  }

  lemma NobodyQueued()
    ensures Partition(EMPTY)
  {}

  /** In every run a node is active after an event exactly when it reports at least 5 ms, or was active and this is
      not its report under 5 ms with the byte counter of such reports in a row at 3 or more. */
  lemma ActiveExactly(events: seq<Event>, e: Event, max: uint16, x: Node)
    ensures x in Run(events + [e], max).queues.inAq <==>
              if e.Report? && e.node == x
              then e.actual >= 5 || (x in Run(events, max).queues.inAq && QuietReports(events + [e], x) % 256 < 3)
              else x in Run(events, max).queues.inAq
  {
    hide Run, Step, QuietReports, QuietAfter, Partition;
    RunOne(events, e, max);
    RunCounts(events, max, x);
    QuietNext(events, e, x);
    StepActive(Run(events, max), QuietReports(events, x), e, max, x);
  }

  lemma StepActive(sys: System, quiet: nat, e: Event, max: uint16, x: Node)
    requires Partition(sys.queues) && RecordOf(sys, x).silence == quiet % 256
    ensures x in Step(sys, e, max).queues.inAq <==>
              if e.Report? && e.node == x then e.actual >= 5 || (x in sys.queues.inAq && QuietAfter(e, quiet, x) % 256 < 3)
              else x in sys.queues.inAq
  {
    hide Partition, Without, Rotated, Judge, After, Apply, Move;
    match e
    case Start(y) => KeepsActive(sys.queues, Init(y));
    case Report(y, actual, _) =>
      MoveActive(sys.queues, y, RecordOf(sys, y), actual, x);
      if x == y {
        Moves(x, RecordOf(sys, x), quiet, actual);
      }
    case Next => KeepsActive(sys.queues, Serve);
  }

  lemma KeepsActive(q: State, op: Op)
    requires op.Init? || op.Serve?
    ensures Apply(q, op, INTERLEAVE_RATIO).inAq == q.inAq
  {
    hide Without, Rotated;
  }

  lemma Moves(x: Node, s: NodeState, quiet: nat, actual: uint16)
    requires s.silence == quiet % 256
    ensures Move(x, s, actual) == [] <==> actual < 5 && (quiet + 1) % 256 < 3
  {}

  /** In every run a node leaves the active queue only on a quiet report that is at least the third in a row. */
  lemma LeavesOnlyAfterSilence(events: seq<Event>, e: Event, max: uint16, x: Node)
    requires x in Run(events, max).queues.inAq && x !in Run(events + [e], max).queues.inAq
    ensures e.Report? && e.node == x && e.actual < 5 && QuietReports(events + [e], x) >= 3
  {
    hide Run, QuietReports;
    ActiveExactly(events, e, max, x);
  }

  /** In every run: nobody is served when nobody is queued; a sleeping node gets 15 ms, an active one its recorded
      window; node 255 gets nothing. */
  lemma TimeExactly(events: seq<Event>, max: uint16)
    ensures var sys := Run(events, max);
            var (x, time) := Allotted(sys);
            && (sys.queues.inAq + sys.queues.inSq == {} ==> x == 255 && time == 0)
            && (sys.queues.inAq + sys.queues.inSq != {} ==> x in sys.queues.inAq + sys.queues.inSq)
            && (x != 255 && x in sys.queues.inSq ==> time == 15)
            && (x != 255 && x in sys.queues.inAq ==> time == RecordOf(sys, x).window)
            && (x == 255 ==> time == 0)
  {
    var q := Run(events, max).queues;
    RunCounts(events, max, 0);
    hide Run;
    if q.aq == [] && q.sq == [] {
      assert q.inAq + q.inSq == {};
    } else {
      ServedFrom(q, INTERLEAVE_RATIO);
    }
  }

  // ----- the record as a function of the reports

  /** The last report of 5 ms or more since the node was set up. */
  datatype LastUse = Nothing | Used(actual: uint16, grant: uint16)

  function LastUseOf(events: seq<Event>, x: Node): LastUse {
    if |events| == 0 then Nothing
    else UseAfter(events[|events| - 1], LastUseOf(events[..|events| - 1], x), x)
  }

  function UseAfter(e: Event, before: LastUse, x: Node): LastUse {
    match e
    case Start(y) => if y == x then Nothing else before
    case Report(y, actual, grant) => if y == x && actual >= 5 then Used(actual, grant) else before
    case Next => before
  }

  /** Asleep with the least window after three quiet reports or with no use; after full use, active with 100 ms more than
      the grant (in 16 bits) but within the cap; after partial use, with 50 ms more than the use (in 16 bits)
      but at least 50. */
  ghost predicate Recorded(s: NodeState, quiet: nat, use: LastUse, max: uint16) {
    if use.Nothing? || quiet >= 3 then s.phase == StateI && s.window == 50 && !s.inAq
    else
      && s.inAq
      && if use.actual >= use.grant then s.phase == StateIII && s.window == Smaller((use.grant + 100) % 0x1_0000, max)
         else s.phase == StateII && s.window == Larger((use.actual + 50) % 0x1_0000, 50)
  }

  function Smaller(a: int, b: int): (c: int)
    ensures c <= a && c <= b && c in {a, b}
  {
    if a < b then a else b
  }

  function Larger(a: int, b: int): (c: int)
    ensures c >= a && c >= b && c in {a, b}
  {
    if a > b then a else b
  }

  lemma JudgeRecords(s: NodeState, quiet: nat, use: LastUse, actual: uint16, grant: uint16, max: uint16)
    requires s.silence == quiet % 256 && Recorded(s, quiet, use, max)
    ensures Recorded(Judge(s, actual, grant, max), if actual < 5 then quiet + 1 else 0,
                     if actual >= 5 then Used(actual, grant) else use, max)
  {}

  /** Over every run the record of a node is fixed by its reports. */
  lemma {:induction false} RunRecords(events: seq<Event>, max: uint16, x: Node)
    ensures Recorded(RecordOf(Run(events, max), x), QuietReports(events, x), LastUseOf(events, x), max)
  {
    if |events| > 0 {
      hide Judge, Move, After, Apply, Recorded;
      var m := |events| - 1;
      RunRecords(events[..m], max, x);
      RunCounts(events[..m], max, x);
      match events[m]
      case Start(y) => NewRecorded(max);
      case Report(y, actual, grant) =>
        if y == x {
          JudgeRecords(RecordOf(Run(events[..m], max), x), QuietReports(events[..m], x), LastUseOf(events[..m], x), actual, grant, max);
        }
      case Next =>
    }
  }

  lemma NewRecorded(max: uint16)
    ensures Recorded(NEW_NODE, 0, Nothing, max)
  {}

  /** The window returned: the recorded one, except that the first and second quiet report in a row (and those the byte
      counter takes for such) return the grant unchanged and leave the record's window alone. */
  lemma GrantExactly(events: seq<Event>, x: Node, actual: uint16, grant: uint16, max: uint16)
    ensures var all := events + [Report(x, actual, grant)];
            var before, after := RecordOf(Run(events, max), x), RecordOf(Run(all, max), x);
            var granted := Granted(before, actual, grant, max);
            if actual < 5 && QuietReports(all, x) % 256 < 3 then granted == grant && after.window == before.window
            else granted == after.window
  {
    hide Run, QuietReports, Judge, Granted, Move, After, Partition;
    var e := Report(x, actual, grant);
    RunCounts(events, max, x);
    QuietNext(events, e, x);
    RunOne(events, e, max);
    JudgeGrants(RecordOf(Run(events, max), x), QuietReports(events, x), actual, grant, max);
  }

  lemma JudgeGrants(s: NodeState, quiet: nat, actual: uint16, grant: uint16, max: uint16)
    requires s.silence == quiet % 256
    ensures var after, granted := Judge(s, actual, grant, max), Granted(s, actual, grant, max);
            if actual < 5 && (quiet + 1) % 256 < 3 then granted == grant && after.window == s.window
            else granted == after.window
  {
    hide Increased, Fitted;
  }

  lemma RunOne(events: seq<Event>, e: Event, max: uint16)
    ensures Run(events + [e], max) == Step(Run(events, max), e, max)
  {
    hide Step;
    assert (events + [e])[..|events|] == events;
  }

  // ----- the windows

  /** A report sets a new window above the cap exactly when the node used part of its grant and that
      part with the margin exceeds the cap. */
  lemma CapExceeded(s: NodeState, actual: uint16, grant: uint16, max: uint16)
    requires s.window <= max && max >= MIN_WINDOW
    ensures Judge(s, actual, grant, max).window > max <==> QUIET <= actual < grant && (actual + ELASTIC_MARGIN) % 0x1_0000 > max
  {}

  /** With ten nodes the cap is 300 ms; 290 ms used of 300 ms granted sets 340 ms. */
  lemma CapExceededExample()
    ensures MaxWindow(10) == 300 && Judge(NEW_NODE, 290, 300, MaxWindow(10)).window == 340
  {}

  /** A report sets a window below the minimum exactly when the grant with the step wraps around to less. */
  lemma MinimumMissed(s: NodeState, actual: uint16, grant: uint16, max: uint16)
    requires s.window >= MIN_WINDOW && max >= MIN_WINDOW
    ensures Judge(s, actual, grant, max).window < MIN_WINDOW <==> actual >= grant && actual >= QUIET && 0x1_0000 <= grant + STEP_UP < 0x1_0000 + MIN_WINDOW
  {}

  /** Reports that each use all but one millisecond of the window granted before. */
  function AlmostAll(s: NodeState, rounds: nat, max: uint16): NodeState {
    if rounds == 0 then s
    else
      var p := AlmostAll(s, rounds - 1, max);
      if p.window == 0 then p else Judge(p, p.window - 1, p.window, max)
  }

  lemma DriftStep(s: NodeState, max: uint16)
    requires MIN_WINDOW <= s.window && s.window + 49 < 0x1_0000
    ensures Judge(s, s.window - 1, s.window, max).window == s.window + 49
  {}

  /** No cap bounds the windows over a run: such reports add 49 ms each, whatever the cap. */
  lemma {:induction false} WindowsDrift(rounds: nat, max: uint16)
    requires MIN_WINDOW + 49 * rounds < 0x1_0000
    ensures AlmostAll(NEW_NODE, rounds, max).window == MIN_WINDOW + 49 * rounds
  {
    if rounds > 0 {
      WindowsDrift(rounds - 1, max);
      hide Judge;
      DriftStep(AlmostAll(NEW_NODE, rounds - 1, max), max);
    }
  }

  /** With ten nodes: 1335 such reports bring the window to 65465 ms, and its full use then to 29 ms. */
  lemma MinimumMissedExample()
    ensures var s := AlmostAll(NEW_NODE, 1335, MaxWindow(10));
            s.window == 65465 && Judge(s, 65465, 65465, MaxWindow(10)).window == 29
  {
    hide AlmostAll;
    WindowsDrift(1335, MaxWindow(10));
  }

  /** Reports that each use the whole window granted before. */
  function AllUsed(rounds: nat, max: uint16): NodeState {
    if rounds == 0 then NEW_NODE
    else
      var p := AllUsed(rounds - 1, max);
      Judge(p, p.window, p.window, max)
  }

  lemma IncreaseStep(s: NodeState, max: uint16)
    requires QUIET <= s.window && s.window + 100 < 0x1_0000
    ensures Judge(s, s.window, s.window, max).window == Smaller(s.window + 100, max)
  {}

  lemma {:induction false} WindowsGrow(rounds: nat, max: uint16)
    requires max >= 50 && (max + 100 < 0x1_0000 || rounds <= 654)
    ensures AllUsed(rounds, max).window == Smaller(50 + 100 * rounds, max)
  {
    if rounds > 0 {
      WindowsGrow(rounds - 1, max);
      hide Judge;
      IncreaseStep(AllUsed(rounds - 1, max), max);
    }
  }

  /** Full use grows the window by 100 ms a report up to the cap, for ever, if and only if cap and step fit 16 bits. */
  lemma GrowthExactly(max: uint16)
    requires max >= 50
    ensures (forall rounds: nat :: AllUsed(rounds, max).window == Smaller(50 + 100 * rounds, max)) <==> max + 100 < 0x1_0000
  {
    hide AllUsed;
    if max + 100 < 0x1_0000 {
      forall rounds: nat ensures AllUsed(rounds, max).window == Smaller(50 + 100 * rounds, max) {
        WindowsGrow(rounds, max);
      }
    } else {
      WindowsGrow(654, max);
      UsedNext(654, max);
      hide Judge;
      IncreaseWraps(AllUsed(654, max), max);
      assert AllUsed(655, max).window != Smaller(50 + 100 * 655, max);
    }
  }

  lemma UsedNext(rounds: nat, max: uint16)
    ensures var p := AllUsed(rounds, max); AllUsed(rounds + 1, max) == Judge(p, p.window, p.window, max)
  {}

  lemma IncreaseWraps(s: NodeState, max: uint16)
    requires max + 100 >= 0x1_0000 && s.window == Smaller(65450, max)
    ensures Judge(s, s.window, s.window, max).window < 100
  {}

  /** The caps: 600 ms up to five nodes, 300 up to ten, then 150. All others' windows together stay below the 5000 ms
      they are meant for if and only if there are at most 34 nodes. */
  lemma CycleBound(nodes: nat)
    ensures (nodes - 1) * MaxWindow(nodes) < 5000 <==> nodes <= 34
    ensures MaxWindow(5) == 600 && MaxWindow(6) == 300 && MaxWindow(10) == 300 && MaxWindow(11) == 150
    ensures MaxWindow(nodes + 1) <= MaxWindow(nodes)
  {
    if nodes <= 5 {
    } else if nodes <= 10 {
    } else {
      assert MaxWindow(nodes) == 150;
    }
  }
}
