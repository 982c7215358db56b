/**
  No request is forgotten: in every run, whatever either planner waits for is on its way to
  WinDbg, answered by a message on its way back, or was dropped there.
 */
module Pursuit {
  import opened Basics
  import opened Values
  import opened RecoveryModel
  import opened RecoveryRuns
  import opened IdaNode
  import opened Target
  import opened ProtocolModel
  import opened ProtocolNode
  import opened Attendance
  import A = EntryArguments
  import AR = ArgumentRows
  import P = Protocol
  import RR = RecoveryRows
  import TA = TrueArguments

  // ---------------------------------------------------------------- what a node waits for

  /** The request whose answer the node waits for under this id, in the planner that the id belongs to. */
  function Owed(node: Node, id: string): Option<Request>
  {
    if IsLocalId(id) then LocalOwed(node.planner, id) else ArgumentOwed(node.core, id)
  }

  function LocalOwed(st: Planner, id: string): Option<Request>
  {
    if id in st.pending then Some(RR.RequestOf(st.pending[id])) else None
  }

  function ArgumentOwed(core: A.Core, id: string): Option<Request>
  {
    if id in core.pending then Some(AR.RequestOf(core.pending[id])) else None
  }

  /** The id of the register request of the planner that the id belongs to. */
  function FirstId(node: Node, id: string): string
  {
    if IsLocalId(id) then RegId(Current(node)) else ArgRegId(Current(node))
  }

  ghost predicate Fit(node: Node)
  {
    NodeGood(node) && LocalFit(node.planner) && ArgumentsFit(node.core)
  }

  ghost predicate Attended(node: Node, failing: bool)
  {
    LocalsAttended(node.planner, failing) && ArgumentsAttended(node.core, failing)
  }

  /** A request is owed under its own id in the current context; register requests come first. */
  ghost predicate OwnRequest(node: Node, id: string, q: Request)
  {
    && q.id == id && q.pcSeq == Current(node) && (q.RegRequest? <==> id == FirstId(node, id))
    && (q.MemRequest? ==> ExactWidth(q.size))
  }

  lemma OwedIsOwn(node: Node, id: string)
    requires Fit(node) && Owed(node, id).Some?
    ensures OwnRequest(node, id, Owed(node, id).value)
  {
    if IsLocalId(id) {
      var p := node.planner.pending[id];
      assert IsCurrent(node.planner, id, p) && PendingFit(node.planner, p);
      if p.memory {
        IdKindsDiffer(p.pcSeq, p.indexes[0], "");
      }
    } else {
      var p := node.core.pending[id];
      assert ArgPendingFit(node.core, Current(node), p);
      if p.memory {
        IdKindsDiffer(p.pcSeq, 0, p.names[0]);
      }
    }
  }

  // ---------------------------------------------------------------- updates

  /** The planner owes the one request, or none. */
  ghost predicate LocalOwes(st: Planner, request: Option<Request>)
  {
    && (forall id :: LocalOwed(st, id).Some? ==> LocalOwed(st, id) == request)
    && (request.Some? ==> request.value.RegRequest? && IsLocalId(request.value.id)
                          && LocalOwed(st, request.value.id) == request)
  }

  ghost predicate ArgumentsOwe(core: A.Core, request: Option<Request>)
  {
    && (forall id :: ArgumentOwed(core, id).Some? ==> ArgumentOwed(core, id) == request)
    && (request.Some? ==> request.value.RegRequest? && !IsLocalId(request.value.id)
                          && ArgumentOwed(core, request.value.id) == request)
  }

  lemma ContextOwes(st: Planner, vs: seq<Variable>, selected: set<nat>, analysis: Analysis, runtimePc: string,
                    pcSeq: nat)
    requires Good(st) && DistinctIndexes(Locals(vs))
    ensures var (st', q) := BeginPc(st, vs, selected, analysis, runtimePc, pcSeq);
            LocalFit(st') && LocalsAttended(st', false) && LocalOwes(st', q)
  {
    ContextIsFit(st, vs, selected, analysis, runtimePc, pcSeq);
    RR.ContextAsksFor(st, vs, selected, analysis, runtimePc, pcSeq);
    IdKindsDiffer(pcSeq, 0, "");
  }

  lemma EntryOwes(core: A.Core, vs: seq<Variable>, context: A.Context)
    requires TA.DistinctNames(vs)
    ensures var (core', q) := A.BuildEntryPlan(core, vs, context);
            ArgumentsFit(core') && ArgumentsAttended(core', false) && ArgumentsOwe(core', q)
  {
    EntryIsFit(core, vs, context);
    AR.EntryAsksFor(core, vs, context);
    IdKindsDiffer(context.pcSeq, 0, "");
  }

  lemma StartedPlannerOwesNothing(st: Planner, runtimePc: string, pcSeq: nat)
    requires Good(st)
    ensures var st' := StartContext(st, runtimePc, pcSeq);
            LocalFit(st') && LocalsAttended(st', false) && LocalOwes(st', None)
  {
    StepKeeps(st, Invalidate(runtimePc, pcSeq));
  }

  /** The node owes exactly these requests, all of them for registers. */
  ghost predicate OwesExactly(node: Node, requests: seq<Request>)
  {
    && (forall id :: Owed(node, id).Some? ==> Owed(node, id).value in requests)
    && forall q :: q in requests ==> q.RegRequest? && Owed(node, q.id) == Some(q)
  }

  lemma BothOwe(node: Node, a: Option<Request>, v: Option<Request>)
    requires ArgumentsOwe(node.core, a) && LocalOwes(node.planner, v)
    ensures OwesExactly(node, Optional(a) + Optional(v))
  {
  }

  /** An update leaves a fit node in the new context that owes exactly the requests it issues. */
  lemma UpdateOwes(node: Node, pcSeq: nat, runtimePc: string, outcome: Outcome)
    requires Fit(node) && LegalOutcome(outcome)
    ensures var (node', requests) := HandlePcUpdate(node, pcSeq, runtimePc, outcome);
            Fit(node') && Attended(node', false) && Current(node') == pcSeq && OwesExactly(node', requests)
  {
    UpdateKeepsNode(node, pcSeq, runtimePc, outcome);
    var context := ContextOf(pcSeq, runtimePc, outcome);
    var (node', requests) := HandlePcUpdate(node, pcSeq, runtimePc, outcome);
    match outcome {
      case Enumerated(_, vs, _, selected, analysis) =>
        EntryOwes(node.core, vs, context);
        ContextOwes(node.planner, vs, selected, analysis, runtimePc, pcSeq);
        BothOwe(node', A.BuildEntryPlan(node.core, vs, context).1,
                BeginPc(node.planner, vs, selected, analysis, runtimePc, pcSeq).1);
      case RecoveryFailed(_, vs, _) =>
        EntryOwes(node.core, vs, context);
        StartedPlannerOwesNothing(node.planner, runtimePc, pcSeq);
        BothOwe(node', A.BuildEntryPlan(node.core, vs, context).1, None);
      case _ =>
        StartedPlannerOwesNothing(node.planner, runtimePc, pcSeq);
        BothOwe(node', None, None);
    }
  }

  // ---------------------------------------------------------------- answers

  ghost predicate IsAnswer(m: Message, q: Request)
  {
    exists stop :: m == Answer(stop, q)
  }

  /**
    What handling an answer does to the requests that are owed: nothing new is owed except
    the requests that are issued, these follow the register answer they belong to, and a
    request that the message answers is owed no longer.
   */
  ghost predicate AnswerStep(node: Node, node': Node, requests: seq<Request>, m: Message)
    requires !m.PcUpdate?
  {
    && Current(node') == Current(node)
    && (forall id :: Owed(node', id).Some? ==> Owed(node', id) == Owed(node, id) || Owed(node', id).value in requests)
    && (forall q :: q in requests ==> Follows(node, node', m, q))
    && (m.r.id.Some? && Owed(node, m.r.id.value).Some? && IsAnswer(m, Owed(node, m.r.id.value).value) ==>
          Owed(node', m.r.id.value).None?)
  }

  /** A slot request that is issued: it is owed from now on, and its register request is owed no longer. */
  ghost predicate Follows(node: Node, node': Node, m: Message, q: Request)
    requires !m.PcUpdate?
  {
    && q.MemRequest? && q.pcSeq == Current(node) && Owed(node', q.id) == Some(q)
    && m.r.id == Some(FirstId(node, q.id)) && Owed(node, FirstId(node, q.id)).Some?
    && Owed(node', FirstId(node, q.id)).None?
  }

  /** What one planner makes of an answer that is for it. */
  lemma LocalRegisterStep(st: Planner, r: Response)
    requires LocalFit(st) && ApplyReg(st, r).0
    ensures var (_, st', requests) := ApplyReg(st, r);
            && st.pcSeq.Some? && r.id == Some(RegId(st.pcSeq.value)) && RegId(st.pcSeq.value) in st.pending
            && st'.pcSeq == st.pcSeq && RegId(st.pcSeq.value) !in st'.pending
            && (forall id :: LocalOwed(st', id).Some? ==> LocalOwed(st', id).value in requests)
            && forall q :: q in requests ==>
                 q.MemRequest? && q.pcSeq == st.pcSeq.value && IsLocalId(q.id) && LocalOwed(st', q.id) == Some(q)
  {
    var (_, st', requests) := ApplyReg(st, r);
    var p, pcSeq := Correlated(st, r, false).value, st.pcSeq.value;
    assert IsCurrent(st, r.id.value, p);
    RegStepKeeps(st, r);
    ResponseContext(st, r);
    AnswerIsBooked(st, r);
    if RegId(pcSeq) in st'.pending {
      PendingIsBooked(st, r, RegId(pcSeq));
      assert IsCurrent(st', RegId(pcSeq), st'.pending[RegId(pcSeq)]);
      IdKindsDiffer(pcSeq, st'.pending[RegId(pcSeq)].indexes[0], "");
      assert false;
    }
    forall q | q in requests
      ensures q.MemRequest? && q.pcSeq == pcSeq && IsLocalId(q.id) && LocalOwed(st', q.id) == Some(q)
    {
      assert IsCurrent(st', q.id, st'.pending[q.id]);
      IdKindsDiffer(pcSeq, st'.pending[q.id].indexes[0], "");
    }
  }

  /** An answer to the register request that is owed is accepted. */
  lemma LocalRegisterAccepted(st: Planner, m: Message, id: string)
    requires Good(st) && m.RegAnswer? && id in st.pending && IsAnswer(m, RR.RequestOf(st.pending[id]))
    ensures ApplyReg(st, m.r).0 && Correlated(st, m.r, false) == Some(st.pending[id])
  {
    assert IsCurrent(st, id, st.pending[id]);
  }

  lemma LocalMemoryAccepted(st: Planner, m: Message, id: string)
    requires Good(st) && m.MemAnswer? && id in st.pending && IsAnswer(m, RR.RequestOf(st.pending[id]))
    ensures ApplyMem(st, m.r).0 && Correlated(st, m.r, true) == Some(st.pending[id])
  {
    assert IsCurrent(st, id, st.pending[id]);
    RR.MemoryAnswerOutcome(st, m.r);
  }

  lemma LocalRegisterAnswered(node: Node, m: Message)
    requires Fit(node) && m.RegAnswer? && ToLocals(m.r)
    ensures var (node', requests) := Handle(node, m, Unmapped); AnswerStep(node, node', requests, m)
  {
    var id := m.r.id.value;
    if ApplyReg(node.planner, m.r).0 {
      LocalRegisterStep(node.planner, m.r);
      IdKindsDiffer(Current(node), 0, "");
    } else if id in node.planner.pending && IsAnswer(m, RR.RequestOf(node.planner.pending[id])) {
      LocalRegisterAccepted(node.planner, m, id);
      assert false;
    }
  }

  lemma LocalMemoryAnswered(node: Node, m: Message)
    requires Fit(node) && m.MemAnswer? && ToLocals(m.r)
    ensures var (node', requests) := Handle(node, m, Unmapped); AnswerStep(node, node', requests, m)
  {
    var id := m.r.id.value;
    ResponseContext(node.planner, m.r);
    RR.MemoryAnswerOutcome(node.planner, m.r);
    if id in node.planner.pending && IsAnswer(m, RR.RequestOf(node.planner.pending[id])) {
      LocalMemoryAccepted(node.planner, m, id);
    }
  }

  /** What the argument planner makes of a register answer that it accepts. */
  lemma ArgumentRegisterStep(core: A.Core, r: Response)
    requires ArgumentsFit(core) && A.ArgCorrelated(core, r, false).Some? && Successful(r)
    ensures var (_, core', requests) := A.ApplyArgReg(core, r);
            var pcSeq := core.context.value.pcSeq;
            && r.id == Some(ArgRegId(pcSeq)) && ArgRegId(pcSeq) in core.pending && core'.context == core.context
            && ArgRegId(pcSeq) !in core'.pending
            && (forall id :: ArgumentOwed(core', id).Some? ==>
                  ArgumentOwed(core', id) == ArgumentOwed(core, id) || ArgumentOwed(core', id).value in requests)
            && forall q :: q in requests ==>
                 q.MemRequest? && q.pcSeq == pcSeq && !IsLocalId(q.id) && ArgumentOwed(core', q.id) == Some(q)
  {
    var (_, core', requests) := A.ApplyArgReg(core, r);
    var p, pcSeq := A.ArgCorrelated(core, r, false).value, core.context.value.pcSeq;
    var issued, left := A.Issued(core'.pending, requests), core.pending - {r.id.value};
    assert ArgPendingFit(core, pcSeq, p);
    AR.RegisterAnswerOutcome(core, r);
    forall q | q in requests
      ensures !IsLocalId(q.id) && ArgumentOwed(core', q.id) == Some(q) && q.id != ArgRegId(pcSeq)
    {
      assert AR.InTable(issued, pcSeq, q);
      IdKindsDiffer(pcSeq, 0, core'.pending[q.id].names[0]);
    }
    forall id | id in core'.pending
      ensures (id in left && core'.pending[id] == left[id]) || AR.RequestOf(core'.pending[id]) in requests
    {
      assert AR.OldOrAsked(left, issued, id);
    }
    A.StepOnlyAtEntry(core, A.Reg(r));
  }

  /** An answer to a request that is owed is accepted. */
  lemma ArgumentAccepted(core: A.Core, m: Message, id: string)
    requires A.OnlyAtEntry(core) && !m.PcUpdate? && id in core.pending
    requires IsAnswer(m, AR.RequestOf(core.pending[id]))
    ensures A.ArgCorrelated(core, m.r, m.MemAnswer?) == Some(core.pending[id]) && (m.RegAnswer? ==> Successful(m.r))
  {
  }

  lemma ArgumentRegisterAnswered(node: Node, m: Message)
    requires Fit(node) && m.RegAnswer? && !ToLocals(m.r) && Successful(m.r)
    ensures var (node', requests) := Handle(node, m, Unmapped); AnswerStep(node, node', requests, m)
  {
    if A.ArgCorrelated(node.core, m.r, false).Some? {
      ArgumentRegisterStep(node.core, m.r);
      IdKindsDiffer(Current(node), 0, "");
    } else if m.r.id.Some? && m.r.id.value in node.core.pending
              && IsAnswer(m, AR.RequestOf(node.core.pending[m.r.id.value])) {
      ArgumentAccepted(node.core, m, m.r.id.value);
      assert false;
    }
  }

  lemma ArgumentMemoryAnswered(node: Node, m: Message)
    requires Fit(node) && m.MemAnswer? && !ToLocals(m.r)
    ensures var (node', requests) := Handle(node, m, Unmapped); AnswerStep(node, node', requests, m)
  {
    if A.ArgCorrelated(node.core, m.r, true).Some? {
      AR.MemoryAnswerOutcome(node.core, m.r);
    } else if m.r.id.Some? && m.r.id.value in node.core.pending
              && IsAnswer(m, AR.RequestOf(node.core.pending[m.r.id.value])) {
      ArgumentAccepted(node.core, m, m.r.id.value);
      assert false;
    }
  }

  /** Handling any answer is a step of this kind. */
  lemma AnswerIsStep(node: Node, m: Message)
    requires Fit(node) && !m.PcUpdate? && (m.RegAnswer? ==> Successful(m.r))
    ensures var (node', requests) := Handle(node, m, Unmapped); AnswerStep(node, node', requests, m)
  {
    if ToLocals(m.r) {
      if m.RegAnswer? {
        LocalRegisterAnswered(node, m);
      } else {
        LocalMemoryAnswered(node, m);
      }
    } else if m.RegAnswer? {
      ArgumentRegisterAnswered(node, m);
    } else {
      ArgumentMemoryAnswered(node, m);
    }
  }

  // ---------------------------------------------------------------- rows

  /** Both planners keep their variables and their context. */
  ghost predicate SameVariables(node: Node, node': Node)
  {
    && SameRows(node.planner, node'.planner) && node'.planner.pcSeq == node.planner.pcSeq
    && SameArguments(node.core, node'.core)
  }

  /** The answer gives what its planner asked for. */
  ghost predicate Gives(node: Node, m: Message)
    requires !m.PcUpdate?
  {
    if ToLocals(m.r) then
      if m.RegAnswer? then RegistersGiven(node.planner, m.r) else BytesGiven(node.planner, m.r)
    else if m.RegAnswer? then EntryRegistersGiven(node.core, m.r) else SlotGiven(node.core, m.r)
  }

  lemma LocalIsFit(node: Node, m: Message, failing: bool)
    requires Fit(node) && Attended(node, failing) && !m.PcUpdate? && ToLocals(m.r) && (failing || Gives(node, m))
    ensures var node' := Handle(node, m, Unmapped).0;
            Fit(node') && Attended(node', failing) && SameVariables(node, node')
  {
    LocalAfterIsGood(node, m);
    if m.RegAnswer? {
      RegisterAnswerAttends(node.planner, m.r, failing);
      RegisterAnswerFits(node.planner, m.r);
    } else {
      MemoryAnswerAttends(node.planner, m.r, failing);
    }
  }

  lemma ArgumentIsFit(node: Node, m: Message, failing: bool)
    requires Fit(node) && Attended(node, failing) && !m.PcUpdate? && !ToLocals(m.r) && (failing || Gives(node, m))
    requires m.RegAnswer? ==> Successful(m.r)
    ensures var node' := Handle(node, m, Unmapped).0;
            Fit(node') && Attended(node', failing) && SameVariables(node, node')
  {
    ArgumentAfterIsGood(node, m);
    if m.RegAnswer? {
      ArgumentRegistersAttend(node.core, m.r, failing);
    } else {
      ArgumentMemoryAttends(node.core, m.r, failing);
    }
  }

  lemma AnswerKeepsFit(node: Node, m: Message, failing: bool)
    requires Fit(node) && Attended(node, failing) && !m.PcUpdate? && (failing || Gives(node, m))
    requires m.RegAnswer? ==> Successful(m.r)
    ensures var node' := Handle(node, m, Unmapped).0;
            Fit(node') && Attended(node', failing) && SameVariables(node, node')
  {
    if ToLocals(m.r) {
      LocalIsFit(node, m, failing);
    } else {
      ArgumentIsFit(node, m, failing);
    }
  }

  // ---------------------------------------------------------------- every action

  ghost predicate Genuine(m: Message)
  {
    m.PcUpdate? || exists q :: IsAnswer(m, q)
  }

  ghost predicate Answered(w: World, q: Request)
  {
    exists m :: m in Flight(w) && IsAnswer(m, q)
  }

  /** The request is on its way, answered by a message in flight, or lost. */
  ghost predicate OnItsWay(w: World, q: Request, lost: seq<Request>)
  {
    q in Requests(w) || Answered(w, q) || q in lost
  }

  ghost predicate Pursued(w: World, lost: seq<Request>)
  {
    forall id :: Owed(w.node, id).Some? ==> OnItsWay(w, Owed(w.node, id).value, lost)
  }

  ghost predicate Tended(w: World, lost: seq<Request>)
  {
    Fit(w.node) && Attended(w.node, true) && Pursued(w, lost) && forall m :: m in Flight(w) ==> Genuine(m)
  }

  /** What an action loses: the request that the pump reads and does not answer. */
  function Loses(w: World, a: Action): seq<Request>
  {
    if a.Drop? && w.downToWindbg != [] then [w.downToWindbg[0]] else []
  }

  lemma StillOnItsWay(w: World, w': World, lost: seq<Request>, lost': seq<Request>)
    requires Tended(w, lost) && w'.node == w.node
    requires forall q :: OnItsWay(w, q, lost) ==> OnItsWay(w', q, lost')
    requires forall m :: m in Flight(w') ==> Genuine(m)
    ensures Tended(w', lost')
  {
  }

  lemma SameTrafficTends(w: World, w': World, lost: seq<Request>)
    requires Tended(w, lost) && w'.node == w.node && Requests(w') == Requests(w)
    requires forall m :: m in Flight(w) ==> m in Flight(w')
    requires forall m :: m in Flight(w') ==> m in Flight(w) || m.PcUpdate?
    ensures Tended(w', lost)
  {
    forall q | OnItsWay(w, q, lost) ensures OnItsWay(w', q, lost) {
      if Answered(w, q) {
        var m :| m in Flight(w) && IsAnswer(m, q);
        assert m in Flight(w');
      }
    }
    StillOnItsWay(w, w', lost, lost);
  }

  lemma ServeTends(w: World, lost: seq<Request>)
    requires Tended(w, lost) && w.downToWindbg != []
    ensures Tended(Do(w, Serve), lost)
  {
    var q, w' := w.downToWindbg[0], Do(w, Serve);
    var m := Answer(w.now, q);
    assert IsAnswer(m, q);
    assert Flight(w') == Flight(w) + [m] && Requests(w) == [q] + Requests(w');
    forall x | OnItsWay(w, x, lost) ensures OnItsWay(w', x, lost) {
      if Answered(w, x) {
        var y :| y in Flight(w) && IsAnswer(y, x);
        assert y in Flight(w');
      } else if x == q {
        assert m in Flight(w');
      }
    }
    StillOnItsWay(w, w', lost, lost);
  }

  lemma DropTends(w: World, lost: seq<Request>)
    requires Tended(w, lost) && w.downToWindbg != []
    ensures Tended(Do(w, Drop), lost + [w.downToWindbg[0]])
  {
    var q, w' := w.downToWindbg[0], Do(w, Drop);
    assert Flight(w') == Flight(w) && Requests(w) == [q] + Requests(w');
    forall x | OnItsWay(w, x, lost) ensures OnItsWay(w', x, lost + [q]) {
      if Answered(w, x) {
        var y :| y in Flight(w) && IsAnswer(y, x);
        assert y in Flight(w');
      }
    }
    StillOnItsWay(w, w', lost, lost + [q]);
  }

  lemma OutcomeIsIgnored(node: Node, m: Message, outcome: Outcome)
    requires !m.PcUpdate?
    ensures Handle(node, m, outcome) == Handle(node, m, Unmapped)
  {
  }

  /** The queues after a delivery. */
  lemma DeliveredQueues(w: World, outcome: Outcome) returns (requests: seq<Request>)
    requires w.upToIda != []
    ensures var m, w' := w.upToIda[0], Do(w, Deliver(outcome));
            && (w'.node, requests) == Handle(w.node, m, outcome) && w'.announced == w.announced && w'.log == w.log
            && w'.upToIda == w.upToIda[1..] && w'.upToBroker == w.upToBroker && w'.downToWindbg == w.downToWindbg
            && w'.downToBroker == w.downToBroker + requests
  {
    requests := Handle(w.node, w.upToIda[0], outcome).1;
  }

  /** What a delivery does to the node and the traffic. */
  lemma Delivered(w: World, outcome: Outcome) returns (requests: seq<Request>)
    requires w.upToIda != []
    ensures var m, w' := w.upToIda[0], Do(w, Deliver(outcome));
            && (w'.node, requests) == Handle(w.node, m, if m.PcUpdate? then outcome else Unmapped)
            && w'.announced == w.announced && w'.log == w.log && Requests(w') == Requests(w) + requests
            && Flight(w) != [] && Flight(w)[0] == m && m in Flight(w) && Flight(w') == Flight(w)[1..]
  {
    requests := DeliveredQueues(w, outcome);
    if !w.upToIda[0].PcUpdate? {
      OutcomeIsIgnored(w.node, w.upToIda[0], outcome);
    }
    TrafficAfter(w, Do(w, Deliver(outcome)), requests);
  }

  lemma TrafficAfter(w: World, w': World, requests: seq<Request>)
    requires w.upToIda != [] && w'.upToIda == w.upToIda[1..] && w'.upToBroker == w.upToBroker
    requires w'.downToWindbg == w.downToWindbg && w'.downToBroker == w.downToBroker + requests
    ensures Requests(w') == Requests(w) + requests
    ensures Flight(w) != [] && Flight(w)[0] == w.upToIda[0] && w.upToIda[0] in Flight(w) && Flight(w') == Flight(w)[1..]
  {
    assert Flight(w) == [w.upToIda[0]] + Flight(w');
  }

  lemma DeliveredUpdateTends(w: World, outcome: Outcome, lost: seq<Request>)
    requires Tended(w, lost) && w.upToIda != [] && LegalOutcome(outcome) && w.upToIda[0].PcUpdate?
    ensures Tended(Do(w, Deliver(outcome)), lost)
  {
    var m, w' := w.upToIda[0], Do(w, Deliver(outcome));
    var requests := Delivered(w, outcome);
    UpdateOwes(w.node, m.pcSeq, Hex(m.pc), outcome);
    IssuedArePursued(w', requests, lost);
    NothingFails(w'.node);
    RestIsGenuine(w, w');
  }

  /** Rows that may not fail do not. */
  lemma NothingFails(node: Node)
    requires Attended(node, false)
    ensures Attended(node, true)
  {
    forall i | i in node.planner.records && NeedsRead(node.planner.records[i])
      ensures RowAttended(node.planner, i, true)
    {
      assert RowAttended(node.planner, i, false);
    }
  }

  lemma RestIsGenuine(w: World, w': World)
    requires Flight(w) != [] && Flight(w') == Flight(w)[1..] && forall m :: m in Flight(w) ==> Genuine(m)
    ensures forall m :: m in Flight(w') ==> Genuine(m)
  {
  }

  lemma IssuedArePursued(w: World, requests: seq<Request>, lost: seq<Request>)
    requires OwesExactly(w.node, requests) && forall q :: q in requests ==> q in Requests(w)
    ensures Pursued(w, lost)
  {
  }

  lemma DeliveredAnswerTends(w: World, outcome: Outcome, lost: seq<Request>)
    requires Tended(w, lost) && w.upToIda != [] && !w.upToIda[0].PcUpdate?
    ensures Tended(Do(w, Deliver(outcome)), lost)
  {
    var m, w' := w.upToIda[0], Do(w, Deliver(outcome));
    var requests := Delivered(w, outcome);
    AnswerIsStep(w.node, m);
    AnswerKeepsFit(w.node, m, true);
    OwedArePursued(w, w', m, requests, lost);
    RestIsGenuine(w, w');
  }

  /** A request that is still owed is not the one that the message answered. */
  lemma OwedArePursued(w: World, w': World, m: Message, requests: seq<Request>, lost: seq<Request>)
    requires Fit(w.node) && Pursued(w, lost) && !m.PcUpdate? && AnswerStep(w.node, w'.node, requests, m)
    requires Requests(w') == Requests(w) + requests
    requires Flight(w) != [] && Flight(w)[0] == m && Flight(w') == Flight(w)[1..]
    ensures Pursued(w', lost)
  {
    forall id | Owed(w'.node, id).Some? ensures OnItsWay(w', Owed(w'.node, id).value, lost) {
      var q := Owed(w'.node, id).value;
      if q !in requests && Answered(w, q) {
        var y := AnotherAnswer(w, w', m, requests, id);
      }
    }
  }

  lemma AnotherAnswer(w: World, w': World, m: Message, requests: seq<Request>, id: string) returns (y: Message)
    requires Fit(w.node) && !m.PcUpdate? && AnswerStep(w.node, w'.node, requests, m)
    requires Flight(w) != [] && Flight(w)[0] == m && Flight(w') == Flight(w)[1..]
    requires Owed(w'.node, id).Some? && Owed(w'.node, id).value !in requests && Answered(w, Owed(w'.node, id).value)
    ensures y in Flight(w') && IsAnswer(y, Owed(w'.node, id).value)
  {
    y :| y in Flight(w) && IsAnswer(y, Owed(w'.node, id).value);
    if y == m {
      OwedIsOwn(w.node, id);
      assert false;
    }
  }

  /** Every action keeps the system tended, and loses only what is dropped. */
  lemma StepTends(w: World, a: Action, lost: seq<Request>)
    requires Tended(w, lost) && Enabled(w, a)
    ensures Tended(Do(w, a), lost + Loses(w, a))
  {
    assert lost + [] == lost;
    match a {
      case Serve => ServeTends(w, lost);
      case Drop => DropTends(w, lost);
      case Deliver(outcome) =>
        if w.upToIda[0].PcUpdate? {
          DeliveredUpdateTends(w, outcome, lost);
        } else {
          DeliveredAnswerTends(w, outcome, lost);
        }
      case _ => SameTrafficTends(w, Do(w, a), lost);
    }
  }

  // ---------------------------------------------------------------- every run

  /** The requests that the pump dropped in the run. */
  function Dropped(w: World, actions: seq<Action>): seq<Request>
    decreases |actions|
  {
    if actions == [] then []
    else
      var init := actions[..|actions| - 1];
      Dropped(w, init) + Loses(P.RunWorld(w, init), actions[|actions| - 1])
  }

  lemma StartIsTended(now: Stop, maxHistory: int)
    ensures Tended(P.Start(now, maxHistory), [])
  {
    RunIsGood(maxHistory, []);
    assert Flight(P.Start(now, maxHistory)) == [];
  }

  lemma {:induction false} RunIsTended(now: Stop, maxHistory: int, actions: seq<Action>)
    requires P.EnabledRun(P.Start(now, maxHistory), actions)
    ensures var start := P.Start(now, maxHistory); Tended(P.RunWorld(start, actions), Dropped(start, actions))
    decreases |actions|
  {
    var start := P.Start(now, maxHistory);
    if actions == [] {
      StartIsTended(now, maxHistory);
    } else {
      var init := actions[..|actions| - 1];
      EnabledBefore(start, actions);
      RunIsTended(now, maxHistory, init);
      StepTends(P.RunWorld(start, init), actions[|actions| - 1], Dropped(start, init));
    }
  }

  lemma EnabledBefore(w: World, actions: seq<Action>)
    requires P.EnabledRun(w, actions) && actions != []
    ensures P.EnabledRun(w, actions[..|actions| - 1])
    ensures Enabled(P.RunWorld(w, actions[..|actions| - 1]), actions[|actions| - 1])
  {
    var init := actions[..|actions| - 1];
    forall k | 0 <= k < |init| ensures Enabled(P.RunWorld(w, init[..k]), init[k]) {
      assert init[..k] == actions[..k] && init[k] == actions[k];
    }
  }

  /**
    After every run, each entry of either planner's pending table has its request on the
    way to WinDbg, with the same id, address and size or registers, or its answer on the
    way back; or that very request was dropped by the pump.
   */
  lemma PendingIsPursued(now: Stop, maxHistory: int, actions: seq<Action>, id: string)
    requires P.EnabledRun(P.Start(now, maxHistory), actions)
    ensures var start := P.Start(now, maxHistory);
            var w := P.RunWorld(start, actions);
            && (id in w.node.planner.pending ==>
                  OnItsWay(w, RR.RequestOf(w.node.planner.pending[id]), Dropped(start, actions)))
            && (id in w.node.core.pending ==>
                  OnItsWay(w, AR.RequestOf(w.node.core.pending[id]), Dropped(start, actions)))
  {
    RunIsTended(now, maxHistory, actions);
    var w := P.RunWorld(P.Start(now, maxHistory), actions);
    if id in w.node.planner.pending {
      LocalIds(w.node.planner, id);
    }
    assert Owed(w.node, id).Some? ==> OnItsWay(w, Owed(w.node, id).value, Dropped(P.Start(now, maxHistory), actions));
  }
}
