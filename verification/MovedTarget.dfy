/**
  A run in which the target moves without an announcement before a request is served:
  IDA then shows a value as fresh that the announced stop never had.
 */
module MovedTarget {
  import opened Basics
  import opened Bits
  import opened Values
  import opened RegisterSurvival
  import opened RecoveryModel
  import opened IdaNode
  import opened Target
  import opened ProtocolModel
  import opened Protocol
  import A = EntryArguments

  const X: Variable := Variable(0, "x", "int", 8, false, None, "f", 0, "")
  const RAX: RegisterSpec := RegisterSpec("rax", 8, 0)
  const FOUND: Outcome := Enumerated("f", [X], false, {0}, Analysis(true, map[0 := Register(RAX)]))

  function At(rax: nat): Stop
  {
    Stop(16, map["rax" := rax], map[])
  }

  // ---------------------------------------------------------------- what the planner does

  const ASKED: Pending := Pending(false, 1, RegId(1), Hex(16), [0], {"rax"}, "", 0)

  /** The planner has asked for `rax` to show `x`. */
  ghost predicate Waiting(st: Planner)
  {
    && st.pcSeq == Some(1) && st.runtimePc == Hex(16) && st.pending == map[RegId(1) := ASKED]
    && st.evidence == map[0 := Register(RAX)] && st.records.Keys == {0} && st.records[0].width == 8
    && st.records[0].index == 0
  }

  lemma LocalsOfX()
    ensures Locals([X]) == [X]
  {
    assert [X][..0] == [] && Locals([]) == [];
  }

  lemma OneRow(plan: Plan)
    requires plan.st.evidence == map[0 := Register(RAX)]
    ensures var plan' := PlanRows(plan, [X], true, {0}, Hex(16), 1);
            && plan'.needed == plan.needed + {"rax"} && plan'.waiting == plan.waiting + [0]
            && plan'.st == SetRow(plan.st, StaleOrUnavailable(NewRecord(plan.st, X, Register(RAX), Hex(16), 1)))
  {
    assert [X][..0] == [] && [X][|[X]| - 1] == X;
    assert PlanRows(plan, [], true, {0}, Hex(16), 1) == plan;
  }

  lemma BeginsToWait()
    ensures var (st, request) := BeginPc(Create(1), [X], {0}, Analysis(true, map[0 := Register(RAX)]), Hex(16), 1);
            Waiting(st) && request == Some(RegRequest(1, RegId(1), Hex(16), {"rax"}))
  {
    LocalsOfX();
    var start := StartContext(Create(1), Hex(16), 1).(evidence := map[0 := Register(RAX)], sources := [X]);
    OneRow(Plan(start, {}, []));
    assert {} + {"rax"} == {"rax"} && [] + [0] == [0];
  }

  lemma NoArguments(context: A.Context)
    requires !context.atEntry
    ensures var (core, q) := A.BuildEntryPlan(A.INITIAL, [X], context);
            q == None && |core.rows| == 1 && core.rows[0].status != Fresh
  {
  }

  lemma ShowsAnswer(st: Planner, r: Response, n: nat)
    requires Waiting(st)
    requires r == Response(Some(1), Some(RegId(1)), Hex(16), true, Some(map["rax" := Number(n)]), "", None, "")
    ensures var st' := ApplyReg(st, r).1;
            0 in st'.records && st'.records[0].status == Fresh && st'.records[0].value == Hex(Extract(n, 0, 8))
              && st'.evidence == st.evidence
            && st'.records[0].pcSeq == st.records[0].pcSeq && st'.records[0].width == 8
  {
    var start := Take(st, RegId(1));
    assert ASKED.indexes[..0] == [];
    assert ApplyRegRows(Applied(start, []), ASKED, r.registers.value, []) == Applied(start, []);
    assert ApplyRegRows(Applied(start, []), ASKED, r.registers.value, [0]) ==
      ApplyRegRow(Applied(start, []), ASKED, r.registers.value, 0);
  }

  /** The text of a number is not that of a register whose lowest bit differs. */
  lemma LowestBitShows(v: int, w: int, width: nat)
    requires Bit(v, 0) != Bit(w, 0) && width > 0
    ensures !ShowsWindow(Hex(Extract(v, 0, width)), w, 0, width)
  {
    if ShowsWindow(Hex(Extract(v, 0, width)), w, 0, width) {
      ExtractShows(v, 0, width);
      TextHasTheBits(Hex(Extract(v, 0, width)), v, w, 0, width, 0);
      assert false;
    }
  }

  // ---------------------------------------------------------------- the run

  const ASK: Request := RegRequest(1, RegId(1), Hex(16), {"rax"})

  /** The node once the PC is enumerated, and the request it sends. */
  lemma NodeAsks()
    ensures var (node, requests) := Handle(Start(At(0), 1).node, PcUpdate(1, 16), FOUND);
            Waiting(node.planner) && requests == [ASK]
  {
    BeginsToWait();
    NoArguments(ContextOf(1, Hex(16), FOUND));
  }

  lemma AnswerOfMoved()
    ensures Answer(At(1), ASK) ==
            RegAnswer(Response(Some(1), Some(RegId(1)), Hex(16), true, Some(map["rax" := Number(1)]), "", None, ""))
  {
    var values := map name | name in ASK.registers && name in At(1).regs :: Number(At(1).regs[name]);
    assert values == map["rax" := Number(1)];
  }

  lemma RunNext(w: World, actions: seq<Action>, a: Action)
    requires EnabledRun(w, actions) && Enabled(RunWorld(w, actions), a)
    ensures EnabledRun(w, actions + [a]) && RunWorld(w, actions + [a]) == Do(RunWorld(w, actions), a)
  {
    var longer := actions + [a];
    assert longer[..|actions|] == actions;
    forall k | 0 <= k < |longer| ensures Enabled(RunWorld(w, longer[..k]), longer[k]) {
      if k < |actions| {
        assert longer[..k] == actions[..k] && longer[k] == actions[k];
      }
    }
  }

  /** Some run of enabled actions leads from the start to `w`. */
  ghost predicate Reachable(w: World)
  {
    exists actions :: EnabledRun(Start(At(0), 1), actions) && RunWorld(Start(At(0), 1), actions) == w
  }

  lemma StartIsReachable()
    ensures Reachable(Start(At(0), 1))
  {
    assert EnabledRun(Start(At(0), 1), []) && RunWorld(Start(At(0), 1), []) == Start(At(0), 1);
  }

  lemma ReachesNext(w: World, a: Action)
    requires Reachable(w) && Enabled(w, a)
    ensures Reachable(Do(w, a))
  {
    var actions :| EnabledRun(Start(At(0), 1), actions) && RunWorld(Start(At(0), 1), actions) == w;
    RunNext(Start(At(0), 1), actions, a);
  }

  lemma FoundIsLegal()
    ensures LegalOutcome(FOUND)
  {
    LocalsOfX();
  }

  /** The first stop is drawn, sent and relayed. */
  lemma FirstUpdate()
    ensures Reachable(World(At(0), [At(0)], 1, [], [PcUpdate(1, 16)], [], [], Start(At(0), 1).node))
  {
    var node := Start(At(0), 1).node;
    StartIsReachable();
    ReachesNext(Start(At(0), 1), Draw);
    ReachesNext(World(At(0), [At(0)], 0, [], [], [], [], node), Send);
    ReachesNext(World(At(0), [At(0)], 1, [PcUpdate(1, 16)], [], [], [], node), RelayUp);
  }

  /** IDA enumerates and asks, and the request is relayed. */
  lemma Asks() returns (node: Node)
    ensures Waiting(node.planner) && Reachable(World(At(0), [At(0)], 1, [], [], [], [ASK], node))
  {
    FirstUpdate();
    FoundIsLegal();
    node := Delivered(Start(At(0), 1).node);
    ReachesNext(World(At(0), [At(0)], 1, [], [PcUpdate(1, 16)], [], [], Start(At(0), 1).node), Deliver(FOUND));
    ReachesNext(World(At(0), [At(0)], 1, [], [], [ASK], [], node), RelayDown);
  }

  /** The target moves, and the request is served there. */
  lemma ServesMoved(node: Node)
    requires Reachable(World(At(0), [At(0)], 1, [], [], [], [ASK], node))
    ensures Reachable(World(At(1), [At(0)], 1, [], [Answer(At(1), ASK)], [], [], node))
  {
    ReachesNext(World(At(0), [At(0)], 1, [], [], [], [ASK], node), Move(At(1)));
    ReachesNext(World(At(1), [At(0)], 1, [], [], [], [ASK], node), Serve);
    ReachesNext(World(At(1), [At(0)], 1, [Answer(At(1), ASK)], [], [], [], node), RelayUp);
  }

  /** The node that the first update leaves, and the world around it. */
  lemma Delivered(start: Node) returns (node: Node)
    requires start == Start(At(0), 1).node
    ensures Waiting(node.planner)
    ensures Do(World(At(0), [At(0)], 1, [], [PcUpdate(1, 16)], [], [], start), Deliver(FOUND)) ==
            World(At(0), [At(0)], 1, [], [], [ASK], [], node)
  {
    NodeAsks();
    node := Handle(start, PcUpdate(1, 16), FOUND).0;
    assert [] + [ASK] == [ASK];
  }

  lemma FalseRow(w: World)
    requires w.log == [At(0)] && 0 in w.node.planner.records && w.node.planner.evidence == map[0 := Register(RAX)]
    requires w.node.planner.records[0].status == Fresh && w.node.planner.records[0].width == 8
    requires !ShowsWindow(w.node.planner.records[0].value, 0, 0, 8)
    ensures !AllFreshTrue(w)
  {
    assert !TrueLocal(w, 0);
  }

  lemma HandlesMoved(node: Node)
    requires Waiting(node.planner)
    ensures var st := Handle(node, Answer(At(1), ASK), Unmapped).0.planner;
            && 0 in st.records && st.evidence == map[0 := Register(RAX)]
            && st.records[0].status == Fresh && !ShowsWindow(st.records[0].value, 0, 0, 8) && st.records[0].width == 8
  {
    LowestBitShows(1, 0, 8);
    AnswerOfMoved();
    IdKindsDiffer(1, 0, "");
    ShowsAnswer(node.planner, Answer(At(1), ASK).r, 1);
  }

  lemma DoDeliver(w: World, m: Message)
    requires w.upToIda == [m]
    ensures Do(w, Deliver(Unmapped)).node == Handle(w.node, m, Unmapped).0 && Do(w, Deliver(Unmapped)).log == w.log
  {
  }

  lemma DeliversMoved(w: World, node: Node)
    requires Waiting(node.planner) && w == World(At(1), [At(0)], 1, [], [Answer(At(1), ASK)], [], [], node)
    ensures !AllFreshTrue(Do(w, Deliver(Unmapped)))
  {
    HandlesMoved(node);
    var answer := Answer(At(1), ASK);
    DoDeliver(w, answer);
    FalseRow(Do(w, Deliver(Unmapped)));
  }

  /**
    The hypothesis of the safety theorem is needed. In this run the target moves before
    the request is served, and the row is fresh with a value the announced stop never had.
   */
  lemma UnannouncedMoveShowsFalse() returns (actions: seq<Action>)
    ensures EnabledRun(Start(At(0), 1), actions) && !AllFreshTrue(RunWorld(Start(At(0), 1), actions))
  {
    var node := Asks();
    ServesMoved(node);
    var relayed := World(At(1), [At(0)], 1, [], [Answer(At(1), ASK)], [], [], node);
    ReachesNext(relayed, Deliver(Unmapped));
    DeliversMoved(relayed, node);
    actions :| EnabledRun(Start(At(0), 1), actions)
               && RunWorld(Start(At(0), 1), actions) == Do(relayed, Deliver(Unmapped));
  }
}
