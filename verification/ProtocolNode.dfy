/** What one message does to the IDA node, and why its rows stay true. */
module ProtocolNode {
  import opened Basics
  import opened Values
  import opened RecoveryModel
  import opened RecoveryRuns
  import opened IdaNode
  import opened Target
  import A = EntryArguments
  import TL = TrueLocals
  import TA = TrueArguments
  import EC = EntryContexts
  import opened ProtocolModel

  // ---------------------------------------------------------------- a new context at IDA

  /** Old traffic belongs to earlier contexts, so it stays in order when a newer one opens. */
  lemma OldTrafficStays(before: Node, after: Node, q: Request, m: Message)
    requires NodeGood(after) && Current(before) < Current(after)
    ensures RequestOk(before, q) ==> RequestOk(after, q)
    ensures MessageOk(before, m) ==> MessageOk(after, m)
  {
  }

  lemma UpdateKeepsNode(node: Node, pcSeq: nat, runtimePc: string, outcome: Outcome)
    requires NodeGood(node) && LegalOutcome(outcome)
    ensures var node' := HandlePcUpdate(node, pcSeq, runtimePc, outcome).0; NodeGood(node') && Current(node') == pcSeq
  {
    var context := ContextOf(pcSeq, runtimePc, outcome);
    match outcome {
      case Enumerated(_, vs, _, selected, analysis) =>
        RebuiltNode(node.core, vs, context);
        BeginStepKeeps(node.planner, vs, selected, analysis, runtimePc, pcSeq);
        BeginContext(node.planner, vs, selected, analysis, runtimePc, pcSeq);
      case RecoveryFailed(_, vs, _) => RebuiltNode(node.core, vs, context);
      case _ =>
    }
  }

  lemma RebuiltNode(core: A.Core, vs: seq<Variable>, context: A.Context)
    requires A.OnlyAtEntry(core) && ArgumentIds(core) && A.OwnVariables(vs, context.functionEa)
    ensures var core' := A.BuildEntryPlan(core, vs, context).0;
            A.OnlyAtEntry(core') && ArgumentIds(core') && A.RowsOfEntry(core') && core'.context == Some(context)
  {
    A.StepOnlyAtEntry(core, A.Plan(vs, context));
    StepArgumentIds(core, A.Plan(vs, context));
  }

  lemma BegunLocalsTrue(log: seq<Stop>, node: Node, pcSeq: nat, runtimePc: string, vs: seq<Variable>,
                        selected: set<nat>, analysis: Analysis)
    requires Good(node.planner) && DistinctIndexes(Locals(vs)) && 1 <= pcSeq <= |log|
    ensures LocalsTrue(log, node.(planner := BeginPc(node.planner, vs, selected, analysis, runtimePc, pcSeq).0))
  {
    BeginContext(node.planner, vs, selected, analysis, runtimePc, pcSeq);
    TL.BeginIsTrue(log[pcSeq - 1], node.planner, vs, selected, analysis, runtimePc, pcSeq);
  }

  lemma StartedLocalsTrue(log: seq<Stop>, node: Node, pcSeq: nat, runtimePc: string)
    requires 1 <= pcSeq <= |log|
    ensures LocalsTrue(log, node.(planner := StartContext(node.planner, runtimePc, pcSeq)))
  {
  }

  lemma UpdateKeepsLocalsTrue(log: seq<Stop>, node: Node, pcSeq: nat, runtimePc: string, outcome: Outcome)
    requires NodeGood(node) && LegalOutcome(outcome) && 1 <= pcSeq <= |log|
    ensures LocalsTrue(log, HandlePcUpdate(node, pcSeq, runtimePc, outcome).0)
  {
    var node' := HandlePcUpdate(node, pcSeq, runtimePc, outcome).0;
    if outcome.Enumerated? {
      BegunLocalsTrue(log, node, pcSeq, runtimePc, outcome.vs, outcome.selected, outcome.analysis);
      SamePlanner(log, node.(planner := node'.planner), node');
    } else {
      StartedLocalsTrue(log, node, pcSeq, runtimePc);
      SamePlanner(log, node.(planner := node'.planner), node');
    }
  }

  lemma SamePlanner(log: seq<Stop>, a: Node, b: Node)
    requires a.planner == b.planner && LocalsTrue(log, a)
    ensures LocalsTrue(log, b)
  {
  }

  /** A rebuilt argument table is true for the new context. */
  lemma RebuiltIsTrue(log: seq<Stop>, node: Node, core: A.Core, vs: seq<Variable>, context: A.Context)
    requires TA.DistinctNames(vs) && 1 <= Current(node) <= |log| && node.planned == Some(context)
    requires context.pcSeq == Current(node)
    requires node.core == A.BuildEntryPlan(core, vs, context).0
    ensures ArgumentsTrue(log, node) && FreshAreOfEntry(node) && node.planned == node.core.context
  {
    TA.PlanIsTrue(log[Current(node) - 1], core, vs, context);
    EC.PlanIsNotFresh(core, vs, context);
  }

  lemma UpdateKeepsArgumentsTrue(log: seq<Stop>, node: Node, pcSeq: nat, runtimePc: string, outcome: Outcome)
    requires NodeGood(node) && LegalOutcome(outcome) && 1 <= pcSeq <= |log| && ArgumentsTrue(log, node)
    requires FreshAreOfEntry(node)
    ensures var node' := HandlePcUpdate(node, pcSeq, runtimePc, outcome).0;
            ArgumentsTrue(log, node') && FreshAreOfEntry(node')
              && (node'.core.pending != map[] ==> node'.planned == node'.core.context)
  {
    UpdateKeepsNode(node, pcSeq, runtimePc, outcome);
    if outcome.Enumerated? || outcome.RecoveryFailed? {
      RebuiltIsTrue(log, HandlePcUpdate(node, pcSeq, runtimePc, outcome).0, node.core, outcome.vs,
                    ContextOf(pcSeq, runtimePc, outcome));
    }
  }

  lemma UpdateIsPlaced(log: seq<Stop>, node: Node, pcSeq: nat, runtimePc: string, outcome: Outcome)
    requires NodeGood(node) && LegalOutcome(outcome) && ArgumentsTrue(log, node) && Placed(log, node)
    requires AnnouncedPc(log, pcSeq, runtimePc)
    ensures Placed(log, HandlePcUpdate(node, pcSeq, runtimePc, outcome).0)
  {
    UpdateKeepsNode(node, pcSeq, runtimePc, outcome);
    UpdateKeepsArgumentsTrue(log, node, pcSeq, runtimePc, outcome);
    if outcome.Enumerated? {
      BeginContext(node.planner, outcome.vs, outcome.selected, outcome.analysis, runtimePc, pcSeq);
    }
  }

  lemma UpdateRequests(node: Node, pcSeq: nat, runtimePc: string, outcome: Outcome)
    ensures forall q :: q in HandlePcUpdate(node, pcSeq, runtimePc, outcome).1 ==> q.RegRequest? && q.pcSeq == pcSeq
  {
  }

  // ---------------------------------------------------------------- a response at the local planner

  lemma {:induction false} LocalRequestsWellFormed(a: Applied, p: Pending, registers: map<string, Raw>,
                                                   indexes: seq<nat>)
    requires forall q :: q in a.requests ==> q.MemRequest? && q.pcSeq == p.pcSeq && IsLocalId(q.id) && q.address != ""
    ensures forall q :: q in ApplyRegRows(a, p, registers, indexes).requests ==>
              q.MemRequest? && q.pcSeq == p.pcSeq && IsLocalId(q.id) && q.address != ""
    decreases |indexes|
  {
    if indexes != [] {
      LocalRequestsWellFormed(a, p, registers, indexes[..|indexes| - 1]);
      IdKindsDiffer(p.pcSeq, indexes[|indexes| - 1], "");
    }
  }

  /** The requests of an accepted local register response belong to the current context. */
  lemma LocalRequests(st: Planner, r: Response)
    requires Good(st)
    ensures forall q :: q in ApplyReg(st, r).2 ==>
            q.MemRequest? && st.pcSeq == Some(q.pcSeq) && IsLocalId(q.id) && q.address != ""
  {
    var c := Correlated(st, r, false);
    if c.Some? && r.registers.Some? {
      assert IsCurrent(st, r.id.value, c.value);
      LocalRequestsWellFormed(Applied(Take(st, r.id.value), []), c.value, r.registers.value, c.value.indexes);
    }
  }

  lemma ResponseContext(st: Planner, r: Response)
    requires Good(st)
    ensures ApplyReg(st, r).1.pcSeq == st.pcSeq && ApplyMem(st, r).1.pcSeq == st.pcSeq
    ensures ApplyReg(st, r).1.runtimePc == st.runtimePc && ApplyMem(st, r).1.runtimePc == st.runtimePc
    ensures st.records == map[] ==> ApplyReg(st, r).1.records == map[] && ApplyMem(st, r).1.records == map[]
  {
    RegStepKeeps(st, r);
    MemStepKeeps(st, r);
    var d :| RowsKept(st, ApplyReg(st, r).1, d);
    var e :| RowsKept(st, ApplyMem(st, r).1, e);
  }

  /** An answer from another context changes nothing. */
  lemma OtherContextIgnored(st: Planner, r: Response)
    requires st.pcSeq.None? || r.pcSeq.None? || r.pcSeq.value != st.pcSeq.value
    ensures ApplyReg(st, r) == (false, st, []) && ApplyMem(st, r) == (false, st)
  {
  }

  lemma LocalStaysTrue(log: seq<Stop>, node: Node, m: Message)
    requires Good(node.planner) && LocalsTrue(log, node) && !m.PcUpdate? && MessageOk(node, m)
    requires m.r.pcSeq == Some(Current(node)) ==> 1 <= Current(node) <= |log| && Truthful(log[Current(node) - 1], m)
    requires node.planner.pcSeq == Some(Current(node)) && m.r.pcSeq == Some(Current(node))
    ensures TL.AllTrue(log[Current(node) - 1], LocalAfter(node, m))
  {
    if m.RegAnswer? {
      TL.RegisterResponseTrue(log[Current(node) - 1], node.planner, m.r);
    } else {
      TL.MemoryResponseTrue(log[Current(node) - 1], node.planner, m.r);
    }
  }

  function LocalAfter(node: Node, m: Message): Planner
    requires !m.PcUpdate?
  {
    if m.RegAnswer? then ApplyReg(node.planner, m.r).1 else ApplyMem(node.planner, m.r).1
  }

  lemma LocalAfterIsGood(node: Node, m: Message)
    requires Good(node.planner) && !m.PcUpdate?
    ensures Good(LocalAfter(node, m)) && LocalAfter(node, m).pcSeq == node.planner.pcSeq
    ensures LocalAfter(node, m).runtimePc == node.planner.runtimePc
    ensures node.planner.records == map[] ==> LocalAfter(node, m).records == map[]
  {
    RegStepKeeps(node.planner, m.r);
    MemStepKeeps(node.planner, m.r);
    ResponseContext(node.planner, m.r);
  }

  /** A response delivered to the local planner keeps it good and true, whatever context it answers. */
  lemma LocalResponse(log: seq<Stop>, node: Node, m: Message)
    requires NodeGood(node) && LocalsTrue(log, node) && !m.PcUpdate? && MessageOk(node, m)
    requires m.r.pcSeq == Some(Current(node)) ==> 1 <= Current(node) <= |log| && Truthful(log[Current(node) - 1], m)
    ensures var node' := node.(planner := LocalAfter(node, m)); NodeGood(node') && LocalsTrue(log, node')
  {
    if node.planner.pcSeq.Some? && m.r.pcSeq == Some(Current(node)) {
      LocalAfterIsGood(node, m);
      LocalStaysTrue(log, node, m);
      SameContextStaysGood(log, node, LocalAfter(node, m));
    } else {
      OtherContextChangesNothing(node, m);
    }
  }

  lemma OtherContextChangesNothing(node: Node, m: Message)
    requires !m.PcUpdate? && (node.planner.pcSeq.None? || m.r.pcSeq != Some(Current(node)))
    ensures node.(planner := LocalAfter(node, m)) == node
  {
    OtherContextIgnored(node.planner, m.r);
  }

  /** A planner of the same context that is good and true leaves the node so. */
  lemma SameContextStaysGood(log: seq<Stop>, node: Node, planner: Planner)
    requires NodeGood(node) && Good(planner) && planner.pcSeq == node.planner.pcSeq && planner.pcSeq.Some?
    requires 1 <= Current(node) <= |log| && TL.AllTrue(log[Current(node) - 1], planner)
    ensures NodeGood(node.(planner := planner)) && LocalsTrue(log, node.(planner := planner))
  {
  }

  // ---------------------------------------------------------------- a response at the argument planner

  function ArgumentAfter(node: Node, m: Message): A.Core
    requires !m.PcUpdate?
  {
    if m.RegAnswer? then A.ApplyArgReg(node.core, m.r).1 else A.ApplyArgMem(node.core, m.r).1
  }

  function ArgumentRequests(node: Node, m: Message): seq<Request>
    requires !m.PcUpdate?
  {
    if m.RegAnswer? then A.ApplyArgReg(node.core, m.r).2 else []
  }

  predicate ArgumentAccepts(node: Node, m: Message)
    requires !m.PcUpdate?
  {
    if m.RegAnswer? then A.ApplyArgReg(node.core, m.r).0 else A.ApplyArgMem(node.core, m.r).0
  }

  lemma ArgumentAfterIsGood(node: Node, m: Message)
    requires NodeGood(node) && !m.PcUpdate?
    ensures NodeGood(node.(core := ArgumentAfter(node, m)))
    ensures !ArgumentAccepts(node, m) ==> ArgumentAfter(node, m) == node.core && ArgumentRequests(node, m) == []
    ensures ArgumentAccepts(node, m) ==>
            node.core.pending != map[] && m.r.id.Some? && m.r.id.value in node.core.pending
            && m.r.pcSeq == Some(Current(node))
  {
    var ev := if m.RegAnswer? then A.Reg(m.r) else A.Mem(m.r);
    A.StepOnlyAtEntry(node.core, ev);
    A.StepRowsOfEntry(node.core, ev);
    StepArgumentIds(node.core, ev);
  }

  /** A row that a response makes fresh is of the function at whose entry the rows were rebuilt. */
  lemma ArgumentResponsePlaced(node: Node, m: Message)
    requires NodeGood(node) && !m.PcUpdate? && FreshAreOfEntry(node)
    requires (node.core.pending != map[] ==> node.planned == node.core.context)
    ensures var node' := node.(core := ArgumentAfter(node, m));
            FreshAreOfEntry(node') && (node'.core.pending != map[] ==> node'.planned == node'.core.context)
  {
    var ev := if m.RegAnswer? then A.Reg(m.r) else A.Mem(m.r);
    var after := A.Step(node.core, ev);
    A.ResponseShape(node.core, ev);
    if node.core.pending == map[] {
      EC.IdleStaysIdle(node.core, ev);
    } else {
      A.StepRowsOfEntry(node.core, ev);
      var id :| id in node.core.pending;
      assert node.core.context.Some? && node.core.context.value.atEntry;
    }
  }

  lemma TrueTable(log: seq<Stop>, node: Node)
    requires 1 <= Current(node) <= |log| && PlannedSeq(node) == Current(node)
    requires TA.AllTrue(log[Current(node) - 1], node.core)
    ensures ArgumentsTrue(log, node)
  {
    forall i | 0 <= i < |node.core.rows| && node.core.rows[i].status == Fresh
      ensures ArgumentShowsAt(log, PlannedSeq(node), node.core.rows[i])
    {
    }
  }

  /** While a request is pending, the table is true for the stop of the current context. */
  lemma TableIsTrue(log: seq<Stop>, node: Node)
    requires ArgumentsTrue(log, node) && node.core.pending != map[]
    ensures PlannedSeq(node) == Current(node) && 1 <= Current(node) <= |log|
    ensures TA.AllTrue(log[Current(node) - 1], node.core)
  {
    forall i | 0 <= i < |node.core.rows| && node.core.rows[i].status == Fresh
      ensures ArgumentShows(log[Current(node) - 1], node.core.rows[i].v, node.core.rows[i].value)
    {
      assert ArgumentShowsAt(log, PlannedSeq(node), node.core.rows[i]);
    }
  }

  /** A message of the current context that a pending memory request awaits fits it. */
  lemma AnswerFits(node: Node, m: Message)
    requires NodeGood(node) && m.MemAnswer? && MessageOk(node, m) && !ToLocals(m.r) && m.r.pcSeq == Some(Current(node))
    ensures m.r.id.Some? && m.r.id.value in node.core.pending ==> TA.Fits(node.core.pending[m.r.id.value], m.r)
  {
    if m.r.id.value in node.core.pending {
      assert LinkedTo(node.core, m.r.pcSeq.value, m.r.id.value);
    }
  }

  /** An accepted answer keeps the argument table true for the stop of its context. */
  lemma AcceptedArgumentIsTrue(log: seq<Stop>, node: Node, m: Message)
    requires NodeGood(node) && ArgumentsTrue(log, node) && !m.PcUpdate? && MessageOk(node, m) && !ToLocals(m.r)
    requires node.core.pending != map[] && m.r.pcSeq == Some(Current(node)) && 1 <= Current(node) <= |log|
    requires Truthful(log[Current(node) - 1], m)
    ensures TA.AllTrue(log[Current(node) - 1], ArgumentAfter(node, m)) && PlannedSeq(node) == Current(node)
  {
    var stop := log[Current(node) - 1];
    TableIsTrue(log, node);
    if m.RegAnswer? {
      TA.RegisterResponseTrue(stop, node.core, m.r);
    } else {
      AnswerFits(node, m);
      TA.MemoryResponseTrue(stop, node.core, m.r);
    }
  }

  /** What acceptance and rejection say, apart from the planner's state. */
  lemma AcceptedFacts(node: Node, m: Message) returns (accepted: bool, core: A.Core)
    requires NodeGood(node) && !m.PcUpdate?
    ensures core == ArgumentAfter(node, m)
    ensures !accepted ==> core == node.core
    ensures accepted ==> node.core.pending != map[] && m.r.pcSeq == Some(Current(node))
  {
    ArgumentAfterIsGood(node, m);
    accepted, core := ArgumentAccepts(node, m), ArgumentAfter(node, m);
  }

  lemma ArgumentResponse(log: seq<Stop>, node: Node, m: Message)
    requires NodeGood(node) && ArgumentsTrue(log, node) && !m.PcUpdate? && MessageOk(node, m) && !ToLocals(m.r)
    requires m.r.pcSeq == Some(Current(node)) ==> 1 <= Current(node) <= |log| && Truthful(log[Current(node) - 1], m)
    ensures ArgumentsTrue(log, node.(core := ArgumentAfter(node, m)))
  {
    var accepted, core := AcceptedFacts(node, m);
    if accepted {
      AcceptedArgumentIsTrue(log, node, m);
    }
    TableAfter(log, node, core, accepted);
  }

  /** A table that is true for the current stop, or unchanged, keeps the rows true. */
  lemma TableAfter(log: seq<Stop>, node: Node, core: A.Core, accepted: bool)
    requires ArgumentsTrue(log, node) && (!accepted ==> core == node.core)
    requires accepted ==>
             1 <= Current(node) <= |log| && PlannedSeq(node) == Current(node)
             && TA.AllTrue(log[Current(node) - 1], core)
    ensures ArgumentsTrue(log, node.(core := core))
  {
    if accepted {
      TrueTable(log, node.(core := core));
    } else {
      assert node.(core := core) == node;
    }
  }

  // ---------------------------------------------------------------- traffic after an argument response

  /** The table changed by taking ids, or was replaced when no stack message of the context was in flight. */
  ghost predicate TableStep(before: A.Core, after: A.Core)
  {
    && after.context == before.context
    && (|| (forall id :: id in after.pending ==> id in before.pending && after.pending[id] == before.pending[id])
        || (before.context.Some? && ArgRegId(before.context.value.pcSeq) in before.pending))
  }

  lemma TrafficStays(before: Node, after: Node, q: Request, m: Message)
    requires TableStep(before.core, after.core) && Current(before) == Current(after)
    ensures RequestOk(before, q) ==> RequestOk(after, q)
    ensures MessageOk(before, m) ==> MessageOk(after, m)
  {
  }

  lemma ArgumentTableStep(log: seq<Stop>, node: Node, m: Message)
    requires NodeGood(node) && ArgumentsTrue(log, node) && !m.PcUpdate?
    ensures TableStep(node.core, ArgumentAfter(node, m))
  {
    ArgumentAfterIsGood(node, m);
    if m.RegAnswer? && ArgumentAccepts(node, m) {
      TA.TakenRegister(log[Current(node) - 1], node.core, m.r);
    }
  }

  /** What an answer that leads to stack requests leaves: the table of those requests. */
  lemma IssuedByAnswer(stop: Stop, core: A.Core, r: Response) returns (issued: A.Issued)
    requires A.OnlyAtEntry(core) && TA.DistinctRows(core.rows) && TA.PendingTrue(stop, core)
    requires Truthful(stop, RegAnswer(r))
    requires A.ApplyArgReg(core, r).2 != []
    ensures A.ApplyArgReg(core, r).1.pending == issued.pending && A.ApplyArgReg(core, r).2 == issued.requests
    ensures core.context.Some? && ArgRegId(core.context.value.pcSeq) !in issued.pending
    ensures forall q :: q in issued.requests ==>
              TA.Matches(issued, core.context.value.pcSeq, q) && issued.pending[q.id].address != ""
  {
    var p := A.ArgCorrelated(core, r, false).value;
    AnswerIssues(core, r);
    TA.TakenRegister(stop, core, r);
    FilledKeepNames(core.rows, r.registers.value, p.runtimePc);
    var rows := A.Each(core.rows, A.RegisterChange(r.registers.value, p.runtimePc));
    TA.IssuedTable(stop, core.context, rows, p);
    issued := A.IssueStack(A.Issued(map[], []), rows, p, stop.regs["rsp"]);
    IssuedHaveAddresses(stop, rows, p.pcSeq, issued);
  }

  /** Requests follow only an accepted answer with a number for `rsp`; they and their table are the issued ones. */
  lemma AnswerIssues(core: A.Core, r: Response)
    requires A.ApplyArgReg(core, r).2 != []
    ensures var c := A.ArgCorrelated(core, r, false);
            && c.Some? && r.ok && r.registers.Some? && RegisterNumber(r.registers.value, "rsp").Some?
            && var rows := A.Each(core.rows, A.RegisterChange(r.registers.value, c.value.runtimePc));
               var rsp := RegisterNumber(r.registers.value, "rsp").value;
               var issued := A.IssueStack(A.Issued(core.pending - {r.id.value}, []), rows, c.value, rsp);
               A.ApplyArgReg(core, r).1.pending == issued.pending && A.ApplyArgReg(core, r).2 == issued.requests
  {
  }

  lemma FilledKeepNames(rows: seq<A.Row>, registers: map<string, Raw>, runtimePc: string)
    requires TA.DistinctRows(rows)
    ensures TA.DistinctRows(A.Each(rows, A.RegisterChange(registers, runtimePc)))
  {
    var filled := A.Each(rows, A.RegisterChange(registers, runtimePc));
    forall i | 0 <= i < |rows| ensures filled[i].v == rows[i].v {
      assert filled[i] == A.FillRegister(rows[i], registers, runtimePc);
    }
  }

  lemma IssuedHaveAddresses(stop: Stop, rows: seq<A.Row>, pcSeq: nat, issued: A.Issued)
    requires TA.Issues(stop, rows, |rows|, pcSeq, issued)
    ensures forall q :: q in issued.requests ==>
              TA.Matches(issued, pcSeq, q) && issued.pending[q.id].address != ""
  {
    forall q | q in issued.requests ensures TA.Matches(issued, pcSeq, q) && issued.pending[q.id].address != "" {
      assert TA.Matches(issued, pcSeq, q);
      assert TA.IssuedSlot(stop, rows, |rows|, pcSeq, q.id, issued.pending[q.id]);
    }
  }

  /** New stack requests agree with the table that was written with them. */
  lemma ArgumentRequestsOk(log: seq<Stop>, node: Node, m: Message, q: Request)
    requires NodeGood(node) && ArgumentsTrue(log, node) && !m.PcUpdate? && q in ArgumentRequests(node, m)
    requires m.r.pcSeq == Some(Current(node)) ==> 1 <= Current(node) <= |log| && Truthful(log[Current(node) - 1], m)
    ensures RequestOk(node.(core := ArgumentAfter(node, m)), q)
  {
    ArgumentAfterIsGood(node, m);
    var issued := IssuedByAnswer(log[Current(node) - 1], node.core, m.r);
    assert TA.Matches(issued, Current(node), q);
  }
}
