/**
  The whole system: the WinDbg extension, the broker and the IDA plugin exchange
  messages over FIFO links with arbitrary delays, while the target moves. A fresh row
  always shows a value read at the stop announced under the row's `pc_seq`, as long as
  no request of that context is served somewhere else where the answer differs.
 */
module Protocol {
  import opened Basics
  import opened Values
  import opened RecoveryModel
  import opened RecoveryRuns
  import opened IdaNode
  import opened Target
  import A = EntryArguments
  import TL = TrueLocals
  import opened ProtocolModel
  import opened ProtocolNode

  // ---------------------------------------------------------------- every action

  lemma ServedAnswerOk(node: Node, stop: Stop, q: Request)
    requires RequestOk(node, q)
    ensures MessageOk(node, Answer(stop, q))
  {
    if q.MemRequest? && 0 < q.size <= 4096 && Readable(stop, HexValue(q.address), q.size) {
      HexPairsRoundTrip(Bytes(stop, HexValue(q.address), q.size));
    }
  }

  /** A longer log says the same about the stops already announced. */
  lemma LongerLog(log: seq<Stop>, stop: Stop, node: Node)
    requires LocalsTrue(log, node) && ArgumentsTrue(log, node) && Placed(log, node)
    ensures LocalsTrue(log + [stop], node) && ArgumentsTrue(log + [stop], node) && Placed(log + [stop], node)
  {
    var longer := log + [stop];
    assert forall k :: 0 <= k < |log| ==> longer[k] == log[k];
    forall i | 0 <= i < |node.core.rows| && node.core.rows[i].status == Fresh
      ensures ArgumentShowsAt(longer, PlannedSeq(node), node.core.rows[i])
    {
      assert ArgumentShowsAt(log, PlannedSeq(node), node.core.rows[i]);
    }
  }

  /** Taking a number for the current stop keeps the system safe. */
  lemma DrawIsSafe(w: World)
    requires Safe(w)
    ensures Safe(Drawn(w))
  {
    LongerLogInOrder(w.log, w.announced, Current(w.node), Flight(w), w.now);
    assert Flight(Drawn(w)) == Flight(w) && Requests(Drawn(w)) == Requests(w);
    LongerLog(w.log, w.now, w.node);
  }

  /** So does sending its update. */
  lemma SendIsSafe(w: World)
    requires Safe(w) && w.announced < |w.log|
    ensures Safe(Sent(w))
  {
    AppendUpdate(w.log, w.announced, Current(w.node), Flight(w));
    assert Flight(Sent(w)) == Flight(w) + [PcUpdate(|w.log|, w.log[|w.log| - 1].pc)];
    assert Requests(Sent(w)) == Requests(w);
  }

  lemma {:induction false} InOrderBound(log: seq<Stop>, newest: nat, s: nat, flight: seq<Message>)
    requires InOrder(log, newest, s, flight)
    ensures s <= newest
    decreases |flight|
  {
    if flight != [] {
      InOrderBound(log, newest, if flight[0].PcUpdate? then flight[0].pcSeq else s, flight[1..]);
    }
  }

  // ---------------------------------------------------------------- serving where the target is

  /** The two stops agree on everything the request asks for that can be read at `moved`. */
  ghost predicate AgreeOn(announced: Stop, moved: Stop, q: Request)
  {
    match q
    case RegRequest(_, _, _, registers) =>
      forall name :: name in registers && name in moved.regs ==>
        name in announced.regs && announced.regs[name] == moved.regs[name]
    case MemRequest(_, _, _, address, size) =>
      0 < size <= 4096 && Readable(moved, HexValue(address), size) ==>
        forall a :: HexValue(address) <= a < HexValue(address) + size ==>
          a in announced.mem && announced.mem[a] == moved.mem[a]
  }

  lemma SameBytesIff(announced: Stop, moved: Stop, at: nat, size: nat)
    requires Readable(moved, at, size)
    ensures Readable(announced, at, size) && Bytes(announced, at, size) == Bytes(moved, at, size)
            <==> forall a :: at <= a < at + size ==> a in announced.mem && announced.mem[a] == moved.mem[a]
  {
    if Readable(announced, at, size) && Bytes(announced, at, size) == Bytes(moved, at, size) {
      forall a | at <= a < at + size
        ensures announced.mem[a] == moved.mem[a]
      {
        assert Bytes(announced, at, size)[a - at] == Bytes(moved, at, size)[a - at];
      }
    }
  }

  /** An answer read at one stop is true of another exactly if they agree on what was asked. */
  lemma TrueElsewhereIff(announced: Stop, moved: Stop, q: Request)
    ensures Truthful(announced, Answer(moved, q)) <==> AgreeOn(announced, moved, q)
  {
    if q.RegRequest? {
      var values := Answer(moved, q).r.registers.value;
      assert forall name :: name in values <==> name in q.registers && name in moved.regs;
    } else if 0 < q.size <= 4096 && Readable(moved, HexValue(q.address), q.size) {
      var at := HexValue(q.address);
      HexPairsRoundTrip(Bytes(moved, at, q.size));
      SameBytesIff(announced, moved, at, q.size);
    }
  }

  /** A request of the newest context is served where its answer is the one of the announced stop. */
  ghost predicate Agrees(w: World, a: Action)
  {
    a.Serve? && w.downToWindbg != [] && 1 <= w.announced <= |w.log| && w.downToWindbg[0].pcSeq == w.announced ==>
      AgreeOn(w.log[w.announced - 1], w.now, w.downToWindbg[0])
  }

  /** Serving a request appends a truthful answer. */
  lemma ServeIsSafe(w: World)
    requires Safe(w) && w.downToWindbg != [] && Agrees(w, Serve)
    ensures Safe(Do(w, Serve))
  {
    var q, w' := w.downToWindbg[0], Do(w, Serve);
    assert q in Requests(w);
    ServedInOrder(w, q);
    assert Flight(w') == Flight(w) + [Answer(w.now, q)];
    ServedAnswerOk(w.node, w.now, q);
    assert Requests(w) == [q] + Requests(w');
  }

  lemma ServedInOrder(w: World, q: Request)
    requires w.announced <= |w.log| && InOrder(w.log, w.announced, Current(w.node), Flight(w))
    requires 1 <= q.pcSeq <= Current(w.node)
    requires q.pcSeq == w.announced ==> AgreeOn(w.log[w.announced - 1], w.now, q)
    ensures InOrder(w.log, w.announced, Current(w.node), Flight(w) + [Answer(w.now, q)])
  {
    InOrderBound(w.log, w.announced, Current(w.node), Flight(w));
    if q.pcSeq == w.announced {
      TrueElsewhereIff(w.log[w.announced - 1], w.now, q);
    }
    AppendAnswer(w.log, w.announced, Current(w.node), Flight(w), Answer(w.now, q));
  }

  /** Where the target is says nothing about what was announced. */
  lemma MoveIsSafe(w: World, stop: Stop)
    requires Safe(w)
    ensures Safe(Do(w, Move(stop)))
  {
    var w' := Do(w, Move(stop));
    assert Flight(w') == Flight(w) && Requests(w') == Requests(w);
  }

  /** The links between the broker and its two neighbours carry the same traffic in the same order. */
  lemma RelayIsSafe(w: World, a: Action)
    requires Safe(w) && (a.RelayUp? || a.RelayDown?)
    ensures Safe(Do(w, a))
  {
    var w' := Do(w, a);
    assert Flight(w') == Flight(w);
    assert Requests(w') == Requests(w);
  }

  lemma DropIsSafe(w: World)
    requires Safe(w)
    ensures Safe(Do(w, Drop))
  {
    var w' := Do(w, Drop);
    if w.downToWindbg != [] {
      assert Requests(w) == [w.downToWindbg[0]] + Requests(w');
    }
  }

  /** What remains in flight once the oldest message is handled by a node that keeps old traffic in order. */
  lemma HandledTraffic(w: World, node: Node, requests: seq<Request>)
    requires w.upToIda != []
    requires forall q :: q in Requests(w) ==> RequestOk(node, q)
    requires forall m :: m in Flight(w) ==> MessageOk(node, m)
    requires forall q :: q in requests ==> RequestOk(node, q)
    ensures var w' := w.(upToIda := w.upToIda[1..], node := node, downToBroker := w.downToBroker + requests);
            && Flight(w') == Flight(w)[1..] && (forall q :: q in Requests(w') ==> RequestOk(node, q))
            && (forall m :: m in Flight(w') ==> MessageOk(node, m))
  {
    var w' := w.(upToIda := w.upToIda[1..], node := node, downToBroker := w.downToBroker + requests);
    assert Flight(w') == Flight(w)[1..];
    assert Requests(w') == Requests(w) + requests;
  }

  /** A node that moved to a newer context, with register requests of that context. */
  lemma OldTrafficHandled(w: World, node: Node, requests: seq<Request>)
    requires w.upToIda != [] && NodeGood(node) && Current(w.node) < Current(node)
    requires forall q :: q in Requests(w) ==> RequestOk(w.node, q)
    requires forall m :: m in Flight(w) ==> MessageOk(w.node, m)
    requires forall q :: q in requests ==> q.RegRequest? && q.pcSeq == Current(node)
    ensures var w' := w.(upToIda := w.upToIda[1..], node := node, downToBroker := w.downToBroker + requests);
            && Flight(w') == Flight(w)[1..] && (forall q :: q in Requests(w') ==> RequestOk(node, q))
            && (forall m :: m in Flight(w') ==> MessageOk(node, m))
  {
    forall q | q in Requests(w) ensures RequestOk(node, q) { OldTrafficStays(w.node, node, q, w.upToIda[0]); }
    forall x | x in Flight(w) ensures MessageOk(node, x) {
      OldTrafficStays(w.node, node, RegRequest(0, "", "", {}), x);
    }
    HandledTraffic(w, node, requests);
  }

  lemma UpdateHandled(w: World, outcome: Outcome) returns (node: Node, requests: seq<Request>)
    requires Safe(w) && Enabled(w, Deliver(outcome)) && w.upToIda[0].PcUpdate?
    ensures Handle(w.node, w.upToIda[0], outcome) == (node, requests)
    ensures NodeGood(node) && LocalsTrue(w.log, node) && ArgumentsTrue(w.log, node) && Placed(w.log, node)
    ensures Current(w.node) < Current(node) && InOrder(w.log, w.announced, Current(node), Flight(w)[1..])
    ensures forall q :: q in requests ==> q.RegRequest? && q.pcSeq == Current(node)
  {
    var m := w.upToIda[0];
    assert Flight(w)[0] == m;
    var pcSeq, pc := m.pcSeq, Hex(m.pc);
    UpdateKeepsNode(w.node, pcSeq, pc, outcome);
    UpdateKeepsLocalsTrue(w.log, w.node, pcSeq, pc, outcome);
    UpdateKeepsArgumentsTrue(w.log, w.node, pcSeq, pc, outcome);
    UpdateIsPlaced(w.log, w.node, pcSeq, pc, outcome);
    UpdateRequests(w.node, pcSeq, pc, outcome);
    node, requests := HandlePcUpdate(w.node, pcSeq, pc, outcome).0, HandlePcUpdate(w.node, pcSeq, pc, outcome).1;
  }

  lemma UpdateIsSafe(w: World, outcome: Outcome)
    requires Safe(w) && Enabled(w, Deliver(outcome)) && w.upToIda[0].PcUpdate?
    ensures Safe(Do(w, Deliver(outcome)))
  {
    var node, requests := UpdateHandled(w, outcome);
    OldTrafficHandled(w, node, requests);
  }

  /** The answer at the head of the flight tells the truth if it meets its own context. */
  lemma HeadIsTrue(w: World)
    requires Safe(w) && w.upToIda != [] && !w.upToIda[0].PcUpdate?
    ensures var m := w.upToIda[0];
            && MessageOk(w.node, m) && InOrder(w.log, w.announced, Current(w.node), Flight(w)[1..])
            && (m.r.pcSeq == Some(Current(w.node)) ==>
               1 <= Current(w.node) <= |w.log| && Truthful(w.log[Current(w.node) - 1], m))
  {
    assert Flight(w)[0] == w.upToIda[0];
  }

  /** The node and traffic after a handled answer are those of a safe system. */
  lemma HandledIsSafe(w: World, node: Node, requests: seq<Request>)
    requires Safe(w) && w.upToIda != [] && !w.upToIda[0].PcUpdate?
    requires NodeGood(node) && LocalsTrue(w.log, node) && ArgumentsTrue(w.log, node) && Placed(w.log, node)
    requires Current(node) == Current(w.node)
    requires forall q :: q in Requests(w) ==> RequestOk(node, q)
    requires forall m :: m in Flight(w) ==> MessageOk(node, m)
    requires forall q :: q in requests ==> RequestOk(node, q)
    ensures Safe(w.(upToIda := w.upToIda[1..], node := node, downToBroker := w.downToBroker + requests))
  {
    HeadIsTrue(w);
    HandledTraffic(w, node, requests);
  }

  /** Traffic does not depend on the local planner, as long as the context is the same. */
  lemma TrafficIgnoresLocals(w: World, node: Node)
    requires Safe(w) && node.core == w.node.core && Current(node) == Current(w.node)
    ensures forall q :: q in Requests(w) ==> RequestOk(node, q)
    ensures forall m :: m in Flight(w) ==> MessageOk(node, m)
  {
  }

  lemma LocalRequestsOk(node: Node, node': Node, m: Message)
    requires NodeGood(node) && !m.PcUpdate? && 1 <= Current(node) && Current(node') == Current(node)
    ensures forall q :: q in ApplyReg(node.planner, m.r).2 ==> RequestOk(node', q)
  {
    LocalRequests(node.planner, m.r);
  }

  lemma LocallyHandled(w: World, outcome: Outcome) returns (node: Node, requests: seq<Request>)
    requires Safe(w) && Enabled(w, Deliver(outcome)) && !w.upToIda[0].PcUpdate? && ToLocals(w.upToIda[0].r)
    ensures Handle(w.node, w.upToIda[0], outcome) == (node, requests)
    ensures node == w.node.(planner := node.planner) && Current(node) == Current(w.node)
    ensures node.planner.runtimePc == w.node.planner.runtimePc
    ensures node.planner.pcSeq == w.node.planner.pcSeq
    ensures NodeGood(node) && LocalsTrue(w.log, node)
    ensures forall q :: q in requests ==> RequestOk(node, q)
  {
    var m := w.upToIda[0];
    HeadIsTrue(w);
    node := w.node.(planner := LocalAfter(w.node, m));
    requests := if m.RegAnswer? then ApplyReg(w.node.planner, m.r).2 else [];
    LocalAnswerKeeps(w.log, w.node, m);
  }

  lemma LocalAnswerKeeps(log: seq<Stop>, node: Node, m: Message)
    requires NodeGood(node) && LocalsTrue(log, node) && !m.PcUpdate? && MessageOk(node, m)
    requires m.r.pcSeq == Some(Current(node)) ==> 1 <= Current(node) <= |log| && Truthful(log[Current(node) - 1], m)
    ensures var node' := node.(planner := LocalAfter(node, m));
            && NodeGood(node') && LocalsTrue(log, node') && Current(node') == Current(node)
            && node'.planner.runtimePc == node.planner.runtimePc && node'.planner.pcSeq == node.planner.pcSeq
            && forall q :: q in ApplyReg(node.planner, m.r).2 ==> RequestOk(node', q)
  {
    LocalResponse(log, node, m);
    LocalAfterIsGood(node, m);
    if 1 <= Current(node) {
      LocalRequestsOk(node, node.(planner := LocalAfter(node, m)), m);
    } else {
      OtherContextIgnored(node.planner, m.r);
    }
  }

  /** Argument rows do not depend on the local planner, as long as the context is the same. */
  lemma ArgumentsIgnoreLocals(log: seq<Stop>, before: Node, after: Node)
    requires ArgumentsTrue(log, before) && Placed(log, before) && after == before.(planner := after.planner)
    requires after.planner.pcSeq == before.planner.pcSeq && after.planner.runtimePc == before.planner.runtimePc
    ensures ArgumentsTrue(log, after) && Placed(log, after)
  {
  }

  lemma LocalAnswerIsSafe(w: World, outcome: Outcome)
    requires Safe(w) && Enabled(w, Deliver(outcome)) && !w.upToIda[0].PcUpdate? && ToLocals(w.upToIda[0].r)
    ensures Safe(Do(w, Deliver(outcome)))
  {
    var node, requests := LocallyHandled(w, outcome);
    ArgumentsIgnoreLocals(w.log, w.node, node);
    TrafficIgnoresLocals(w, node);
    HandledIsSafe(w, node, requests);
  }

  lemma ArgumentTraffic(w: World, node: Node, m: Message)
    requires Safe(w) && !m.PcUpdate? && node == w.node.(core := ArgumentAfter(w.node, m))
    ensures forall q :: q in Requests(w) ==> RequestOk(node, q)
    ensures forall x :: x in Flight(w) ==> MessageOk(node, x)
  {
    ArgumentTableStep(w.log, w.node, m);
    forall q | q in Requests(w) ensures RequestOk(node, q) { TrafficStays(w.node, node, q, m); }
    forall x | x in Flight(w) ensures MessageOk(node, x) { TrafficStays(w.node, node, RegRequest(0, "", "", {}), x); }
  }

  lemma ArgumentHandled(w: World, outcome: Outcome) returns (node: Node, requests: seq<Request>)
    requires Safe(w) && Enabled(w, Deliver(outcome)) && !w.upToIda[0].PcUpdate? && !ToLocals(w.upToIda[0].r)
    ensures Handle(w.node, w.upToIda[0], outcome) == (node, requests)
    ensures node == w.node.(core := ArgumentAfter(w.node, w.upToIda[0])) && NodeGood(node) && ArgumentsTrue(w.log, node)
    ensures Placed(w.log, node)
    ensures forall q :: q in requests ==> RequestOk(node, q)
  {
    var m := w.upToIda[0];
    HeadIsTrue(w);
    node, requests := w.node.(core := ArgumentAfter(w.node, m)), ArgumentRequests(w.node, m);
    ArgumentNodeKept(w.log, w.node, m);
    ArgumentRequestsAllOk(w.log, w.node, m);
  }

  lemma ArgumentNodeKept(log: seq<Stop>, node: Node, m: Message)
    requires NodeGood(node) && ArgumentsTrue(log, node) && Placed(log, node) && !m.PcUpdate? && MessageOk(node, m)
    requires !ToLocals(m.r)
    requires m.r.pcSeq == Some(Current(node)) ==> 1 <= Current(node) <= |log| && Truthful(log[Current(node) - 1], m)
    ensures var node' := node.(core := ArgumentAfter(node, m));
            NodeGood(node') && ArgumentsTrue(log, node') && Placed(log, node')
  {
    ArgumentAfterIsGood(node, m);
    ArgumentResponse(log, node, m);
    ArgumentResponsePlaced(node, m);
  }

  lemma ArgumentRequestsAllOk(log: seq<Stop>, node: Node, m: Message)
    requires NodeGood(node) && ArgumentsTrue(log, node) && !m.PcUpdate?
    requires m.r.pcSeq == Some(Current(node)) ==> 1 <= Current(node) <= |log| && Truthful(log[Current(node) - 1], m)
    ensures forall q :: q in ArgumentRequests(node, m) ==> RequestOk(node.(core := ArgumentAfter(node, m)), q)
  {
    forall q | q in ArgumentRequests(node, m) ensures RequestOk(node.(core := ArgumentAfter(node, m)), q) {
      ArgumentRequestsOk(log, node, m, q);
    }
  }

  lemma ArgumentAnswerIsSafe(w: World, outcome: Outcome)
    requires Safe(w) && Enabled(w, Deliver(outcome)) && !w.upToIda[0].PcUpdate? && !ToLocals(w.upToIda[0].r)
    ensures Safe(Do(w, Deliver(outcome)))
  {
    var node, requests := ArgumentHandled(w, outcome);
    SamePlanner(w.log, w.node, node);
    ArgumentTraffic(w, node, w.upToIda[0]);
    HandledIsSafe(w, node, requests);
  }

  lemma StepIsSafe(w: World, a: Action)
    requires Safe(w) && Enabled(w, a) && Agrees(w, a)
    ensures Safe(Do(w, a))
  {
    match a {
      case Move(stop) => MoveIsSafe(w, stop);
      case Draw => DrawIsSafe(w);
      case Send => SendIsSafe(w);
      case Serve => ServeIsSafe(w);
      case Drop => DropIsSafe(w);
      case RelayUp => RelayIsSafe(w, a);
      case RelayDown => RelayIsSafe(w, a);
      case Deliver(outcome) =>
        if w.upToIda[0].PcUpdate? {
          UpdateIsSafe(w, outcome);
        } else if ToLocals(w.upToIda[0].r) {
          LocalAnswerIsSafe(w, outcome);
        } else {
          ArgumentAnswerIsSafe(w, outcome);
        }
    }
  }

  // ---------------------------------------------------------------- every run

  /** Nothing announced, nothing in flight, both planners fresh. */
  function Start(now: Stop, maxHistory: int): World
  {
    World(now, [], 0, [], [], [], [], Node(A.INITIAL, Create(maxHistory), None))
  }

  function RunWorld(w: World, actions: seq<Action>): World
    decreases |actions|
  {
    if actions == [] then w else Do(RunWorld(w, actions[..|actions| - 1]), actions[|actions| - 1])
  }

  ghost predicate EnabledRun(w: World, actions: seq<Action>)
  {
    forall k :: 0 <= k < |actions| ==> Enabled(RunWorld(w, actions[..k]), actions[k])
  }

  ghost predicate AgreeingRun(w: World, actions: seq<Action>)
  {
    forall k :: 0 <= k < |actions| ==> Agrees(RunWorld(w, actions[..k]), actions[k])
  }

  lemma StartIsSafe(now: Stop, maxHistory: int)
    ensures Safe(Start(now, maxHistory))
  {
    RunIsGood(maxHistory, []);
    assert NodeGood(Start(now, maxHistory).node);
    assert Flight(Start(now, maxHistory)) == [] && Requests(Start(now, maxHistory)) == [];
  }

  lemma EnabledPrefix(w: World, actions: seq<Action>)
    requires EnabledRun(w, actions) && AgreeingRun(w, actions) && actions != []
    ensures var init := actions[..|actions| - 1];
            && EnabledRun(w, init) && AgreeingRun(w, init)
            && Enabled(RunWorld(w, init), actions[|actions| - 1]) && Agrees(RunWorld(w, init), actions[|actions| - 1])
  {
    var init := actions[..|actions| - 1];
    forall k | 0 <= k < |init|
      ensures Enabled(RunWorld(w, init[..k]), init[k]) && Agrees(RunWorld(w, init[..k]), init[k])
    {
      assert init[..k] == actions[..k] && init[k] == actions[k];
    }
  }

  lemma {:induction false} RunStaysSafe(w: World, actions: seq<Action>)
    requires Safe(w) && EnabledRun(w, actions) && AgreeingRun(w, actions)
    ensures Safe(RunWorld(w, actions))
    decreases |actions|
  {
    if actions != [] {
      EnabledPrefix(w, actions);
      RunStaysSafe(w, actions[..|actions| - 1]);
      StepIsSafe(RunWorld(w, actions[..|actions| - 1]), actions[|actions| - 1]);
    }
  }

  lemma EveryRunIsSafe(now: Stop, maxHistory: int, actions: seq<Action>)
    requires EnabledRun(Start(now, maxHistory), actions) && AgreeingRun(Start(now, maxHistory), actions)
    ensures Safe(RunWorld(Start(now, maxHistory), actions))
  {
    StartIsSafe(now, maxHistory);
    RunStaysSafe(Start(now, maxHistory), actions);
  }

  // ---------------------------------------------------------------- the safety theorem

  /**
    The row carries the current `pc_seq`, the announced PC, and what its storage held at
    the stop announced as that `pc_seq`.
   */
  ghost predicate TrueLocal(w: World, i: nat)
    requires i in w.node.planner.records
  {
    var st, row := w.node.planner, w.node.planner.records[i];
    && st.pcSeq == Some(row.pcSeq) && i in st.evidence && AnnouncedPc(w.log, row.pcSeq, row.runtimePc)
    && Shows(w.log[row.pcSeq - 1], st.evidence[i], row.width, row.value)
  }

  /**
    The rows were rebuilt at an entry of the row's function, and its argument held the
    value at the stop announced then.
   */
  ghost predicate TrueArgument(w: World, row: A.Row)
  {
    && w.node.planned.Some? && w.node.planned.value.atEntry && row.v.functionEa == w.node.planned.value.functionEa
    && AnnouncedPc(w.log, w.node.planned.value.pcSeq, w.node.planned.value.runtimePc)
    && ArgumentShows(w.log[w.node.planned.value.pcSeq - 1], row.v, row.value)
  }

  /** Everything IDA marks fresh is true. */
  ghost predicate AllFreshTrue(w: World)
  {
    && (forall i :: i in w.node.planner.records && w.node.planner.records[i].status == Fresh ==> TrueLocal(w, i))
    && (forall row :: row in w.node.core.rows && row.status == Fresh ==> TrueArgument(w, row))
  }

  lemma TrueRow(log: seq<Stop>, node: Node, i: nat)
    requires RowsCurrent(node.planner) && LocalsTrue(log, node) && Placed(log, node)
    requires i in node.planner.records && node.planner.records[i].status == Fresh
    ensures var st, row := node.planner, node.planner.records[i];
            && st.pcSeq == Some(row.pcSeq) && AnnouncedPc(log, row.pcSeq, row.runtimePc) && i in st.evidence
            && Shows(log[row.pcSeq - 1], st.evidence[i], row.width, row.value)
  {
    assert TL.RowsTrue(log[Current(node) - 1], node.planner);
  }

  lemma TrueArgumentRow(w: World, i: nat)
    requires ArgumentsTrue(w.log, w.node) && Placed(w.log, w.node) && i < |w.node.core.rows|
    requires w.node.core.rows[i].status == Fresh
    ensures TrueArgument(w, w.node.core.rows[i])
  {
    assert ArgumentShowsAt(w.log, PlannedSeq(w.node), w.node.core.rows[i]);
  }

  lemma SafeIsTrue(w: World)
    requires Safe(w)
    ensures AllFreshTrue(w)
  {
    forall i | i in w.node.planner.records && w.node.planner.records[i].status == Fresh ensures TrueLocal(w, i) {
      TrueRow(w.log, w.node, i);
    }
    forall row | row in w.node.core.rows && row.status == Fresh ensures TrueArgument(w, row) {
      var i :| 0 <= i < |w.node.core.rows| && w.node.core.rows[i] == row;
      TrueArgumentRow(w, i);
    }
  }

  /**
    The safety theorem. In every run of the three processes in which requests of the
    newest context are served where both stops agree on the answer, whatever IDA marks
    fresh was so at the stop announced under the row's `pc_seq`.
   */
  lemma FreshIsTrue(now: Stop, maxHistory: int, actions: seq<Action>)
    requires EnabledRun(Start(now, maxHistory), actions) && AgreeingRun(Start(now, maxHistory), actions)
    ensures AllFreshTrue(RunWorld(Start(now, maxHistory), actions))
  {
    EveryRunIsSafe(now, maxHistory, actions);
    SafeIsTrue(RunWorld(Start(now, maxHistory), actions));
  }

  /** While the target is where it was last announced, serving always agrees. */
  lemma AtAnnouncedStopAgrees(w: World, a: Action)
    requires 1 <= w.announced <= |w.log| ==> w.now == w.log[w.announced - 1]
    ensures Agrees(w, a)
  {
    if a.Serve? && w.downToWindbg != [] {
      AnswerIsTruthful(w.now, w.downToWindbg[0]);
      TrueElsewhereIff(w.now, w.now, w.downToWindbg[0]);
    }
  }
}
