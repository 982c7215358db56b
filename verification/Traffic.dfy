/**
  Every request of the protocol can travel: in any run on an x64 target whose counter has
  not wrapped, the line of each request is read by the extension as IDA wrote it, and its
  reply decodes to the answer the target gives.
 */
module Traffic {
  import opened Basics
  import opened Values
  import opened RecoveryModel
  import opened RecoveryRuns
  import opened IdaNode
  import opened Target
  import opened ProtocolModel
  import A = EntryArguments
  import J = JsonText
  import P = Protocol
  import RH = RequestHandling
  import RL = RequestLines
  import RP = RecoveryProgress
  import RR = ResponseReading
  import RW = RecoveryRows
  import W = Wire

  // ---------------------------------------------------------------- register lists

  /** `FULL_REGISTER_ORDER`. */
  const X64: seq<string> := ["rax", "rbx", "rcx", "rdx", "rsi", "rdi", "rbp", "rsp",
                             "r8", "r9", "r10", "r11", "r12", "r13", "r14", "r15"]

  /** The list names each register once, in any order. */
  ghost predicate Listing(names: seq<string>, registers: set<string>)
  {
    Distinct(names) && forall n :: n in names <==> n in registers
  }

  /** `_sort_registers`: the registers of `order` that are asked for. */
  function Sorted(order: seq<string>, registers: set<string>): seq<string>
  {
    if order == [] then []
    else (if order[0] in registers then [order[0]] else []) + Sorted(order[1..], registers)
  }

  lemma {:induction false} SortedNames(order: seq<string>, registers: set<string>)
    requires Distinct(order)
    ensures Distinct(Sorted(order, registers))
    ensures forall n :: n in Sorted(order, registers) <==> n in order && n in registers
    decreases |order|
  {
    if order != [] {
      SortedNames(order[1..], registers);
      assert order == [order[0]] + order[1..];
    }
  }

  /** The sorted list of x64 registers is a listing. */
  lemma SortedIsListing(registers: set<string>)
    requires registers <= Elements(X64)
    ensures Listing(Sorted(X64, registers), registers)
  {
    SortedNames(X64, registers);
  }

  lemma X64Names(name: string)
    requires name in X64
    ensures RL.IsName(name) && J.AllPlain(name)
  {
  }

  /** Any listing of x64 registers is one the extension accepts. */
  lemma ListingPasses(names: seq<string>, registers: set<string>)
    requires Listing(names, registers) && registers != {} && registers <= Elements(X64)
    ensures W.Lists(names, registers)
  {
    forall i | 0 <= i < |names| ensures RL.IsName(names[i]) && J.AllPlain(names[i]) {
      assert names[i] in registers;
      X64Names(names[i]);
    }
    ElementCount(X64);
    DistinctWithin(names, Elements(X64));
    var name :| name in registers;
    assert name in names;
  }

  // ---------------------------------------------------------------- what travels

  /** The reply to any line of the request decodes to the answer at `stop`. */
  ghost predicate RegTravels(stop: Stop, q: Request, names: seq<string>, sent: nat, received: nat, reason: string)
    requires q.RegRequest?
  {
    var parsed := RH.ParseReg(W.RegLine(q, names, sent, reason));
    && parsed.Some?
    && var decoded := RR.DecodeReg(RH.RegReply(parsed.value, received, stop.regs));
       decoded.Some? && W.Received(decoded.value) == Answer(stop, q)
  }

  ghost predicate MemTravels(stop: Stop, q: Request, sent: nat, received: nat, more: seq<RL.Entry>, message: string)
    requires q.MemRequest? && q.size >= 0
  {
    var parsed := RH.ParseMem(W.MemLine(q, sent, more));
    && parsed.Some?
    && var decoded := RR.DecodeMem(RH.MemReply(parsed.value, received, W.MemoryAt(stop, message)));
       decoded.Some? && W.ReceivedMem(decoded.value) == Answer(stop, q)
  }

  /** Whatever the message numbers, the order of the registers and the uncorrelated fields are. */
  ghost predicate Travels(stop: Stop, q: Request)
  {
    match q
    case RegRequest(_, _, _, registers) =>
      forall names, sent, received, reason :: Listing(names, registers) ==>
        RegTravels(stop, q, names, sent, received, reason)
    case MemRequest(_, _, _, _, size) =>
      size >= 0 && forall sent, received, more, message :: MemTravels(stop, q, sent, received, more, message)
  }

  /** The correlation fields of a request have the sizes of the extension's fields. */
  ghost predicate HeaderFits(pcSeq: nat, runtimePc: string)
  {
    pcSeq < WORD && RL.IsHexText(runtimePc) && |runtimePc| < 64
  }

  ghost predicate AddressFits(text: string)
  {
    exists address: nat :: address < QUAD && text == Hex(address)
  }

  ghost predicate RequestFits(q: Request)
  {
    && HeaderFits(q.pcSeq, q.runtimePc) && W.Passes(q.id)
    && match q
       case RegRequest(_, _, _, registers) => registers != {} && registers <= Elements(X64)
       case MemRequest(_, _, _, address, size) => AddressFits(address) && SupportedWidth(size)
  }

  /** The PC and the registers have 64 bits, and the slots of `args` arguments lie above `rsp`. */
  ghost predicate StopFits(stop: Stop, args: nat)
  {
    && stop.pc < QUAD && (forall n :: n in stop.regs ==> stop.regs[n] < QUAD)
    && ("rsp" in stop.regs ==> RoomFor(stop.regs["rsp"], args))
  }

  ghost predicate RoomFor(rsp: int, args: nat)
  {
    0 <= rsp && rsp + A.StackArgOffset(args) <= QUAD
  }

  lemma {:induction false} HexLength(n: nat, k: nat)
    requires n < J.Pow16(k) && k > 0
    ensures |Digits(n, 16)| <= k
    decreases k
  {
    if n >= 16 {
      assert J.Pow16(1) == 16;
      HexLength(n / 16, k - 1);
    }
  }

  lemma QuadIsPow()
    ensures J.Pow16(16) == QUAD
  {
    assert J.Pow16(4) == 0x1_0000;
    assert J.Pow16(8) == 0x1_0000_0000;
    assert J.Pow16(12) == 0x1_0000_0000_0000;
  }

  /** A 64-bit address has at most 18 characters. */
  lemma AddressText(n: nat)
    requires n < QUAD
    ensures RL.IsHexText(Hex(n)) && |Hex(n)| < 64
  {
    W.AddressPasses(n);
    QuadIsPow();
    HexLength(n, 16);
  }

  /** A request that fits travels at every stop of a 64-bit target. */
  lemma FittingTravels(stop: Stop, args: nat, q: Request)
    requires RequestFits(q) && StopFits(stop, args)
    ensures Travels(stop, q)
  {
    QuadIsPow();
    if q.RegRequest? {
      forall names, sent, received, reason | Listing(names, q.registers)
        ensures RegTravels(stop, q, names, sent, received, reason)
      {
        ListingPasses(names, q.registers);
        W.RegAnswerTravels(stop, q, names, sent, received, reason);
      }
    } else {
      var address: nat :| address < QUAD && q.address == Hex(address);
      AddressText(address);
      forall sent, received, more, message ensures MemTravels(stop, q, sent, received, more, message) {
        W.MemAnswerTravels(stop, q, address, sent, received, more, message);
      }
    }
  }

  // ---------------------------------------------------------------- the local planner

  ghost predicate EvidenceFits(evidence: map<nat, Storage>)
  {
    forall i :: i in evidence && evidence[i].Register? ==> evidence[i].spec.full in X64
  }

  /** The registers and rows that planning collects. */
  ghost predicate NeedsFit(plan: Plan, evidence: map<nat, Storage>)
  {
    plan.st.evidence == evidence && plan.needed <= Elements(X64) && forall i :: i in plan.waiting ==> i < WORD
  }

  lemma PlanRowFits(plan: Plan, v: Variable, ok: bool, selected: set<nat>, runtimePc: string, pcSeq: nat)
    requires EvidenceFits(plan.st.evidence) && NeedsFit(plan, plan.st.evidence) && v.index < WORD
    ensures NeedsFit(PlanRow(plan, v, ok, selected, runtimePc, pcSeq), plan.st.evidence)
  {
    assert X64[7] == "rsp";
    assert "rsp" in Elements(X64);
  }

  lemma {:induction false} PlanFits(start: Planner, vs: seq<Variable>, ok: bool, selected: set<nat>, runtimePc: string,
                                    pcSeq: nat)
    requires EvidenceFits(start.evidence) && forall v :: v in vs ==> v.index < WORD
    ensures NeedsFit(PlanRows(Plan(start, {}, []), vs, ok, selected, runtimePc, pcSeq), start.evidence)
    decreases |vs|
  {
    if vs != [] {
      var init, last := vs[..|vs| - 1], vs[|vs| - 1];
      assert vs == init + [last];
      PlanFits(start, init, ok, selected, runtimePc, pcSeq);
      PlanRowFits(PlanRows(Plan(start, {}, []), init, ok, selected, runtimePc, pcSeq), last, ok, selected, runtimePc,
                  pcSeq);
    }
  }

  /** A row that waits for registers has a small index, and a width that can be read if it is a slot. */
  ghost predicate WaitFits(st: Planner, i: nat)
  {
    i < WORD && (i in st.records && i in st.evidence && st.evidence[i].Stack? ==> SupportedWidth(st.records[i].width))
  }

  ghost predicate PendingFits(st: Planner, p: Pending)
  {
    HeaderFits(p.pcSeq, p.runtimePc) && forall i :: i in p.indexes ==> WaitFits(st, i)
  }

  /** What the register requests of the local planner wait for can be asked in memory requests. */
  ghost predicate PlannerFits(st: Planner)
  {
    Good(st) && forall id :: id in st.pending && !st.pending[id].memory ==> PendingFits(st, st.pending[id])
  }

  lemma BeginFits(st: Planner, vs: seq<Variable>, selected: set<nat>, analysis: Analysis, runtimePc: string, pcSeq: nat)
    requires Good(st) && DistinctIndexes(Locals(vs)) && HeaderFits(pcSeq, runtimePc)
    requires EvidenceFits(analysis.evidence) && forall v :: v in vs ==> v.index < WORD
    ensures var (st', q) := BeginPc(st, vs, selected, analysis, runtimePc, pcSeq);
            PlannerFits(st') && (q.Some? ==> RequestFits(q.value))
  {
    var start := StartContext(st, runtimePc, pcSeq).(evidence := analysis.evidence, sources := Locals(vs));
    var (st', q) := BeginPc(st, vs, selected, analysis, runtimePc, pcSeq);
    RW.LocalsAre(vs);
    PlanFits(start, Locals(vs), analysis.ok, selected, runtimePc, pcSeq);
    BeginStepKeeps(st, vs, selected, analysis, runtimePc, pcSeq);
    PlanRowsKeep(start, Locals(vs), analysis.ok, selected, runtimePc, pcSeq);
    RP.BeginAsks(st, vs, selected, analysis, runtimePc, pcSeq);
    W.RegIdPasses(pcSeq);
    if q.Some? {
      var p := st'.pending[RegId(pcSeq)];
      forall i | i in p.indexes ensures WaitFits(st', i) {
        assert Awaits(st', p.registers, i);
      }
    }
  }

  /** Rows keep their widths and their evidence. */
  ghost predicate SameWidths(start: Planner, st: Planner)
  {
    && st.evidence == start.evidence
    && forall i :: i in st.records ==> i in start.records && st.records[i].width == start.records[i].width
  }

  lemma RegRowFits(start: Planner, a: Applied, p: Pending, registers: map<string, Raw>, index: nat)
    requires SameWidths(start, a.st) && WaitFits(start, index) && HeaderFits(p.pcSeq, p.runtimePc)
    requires forall q :: q in a.requests ==> RequestFits(q)
    ensures forall q :: q in ApplyRegRow(a, p, registers, index).requests ==> RequestFits(q)
  {
    W.MemIdPasses(p.pcSeq, index);
  }

  lemma RegRowWidths(start: Planner, a: Applied, p: Pending, registers: map<string, Raw>, index: nat)
    requires SameWidths(start, a.st) && RowsCurrent(a.st)
    ensures SameWidths(start, ApplyRegRow(a, p, registers, index).st)
  {
  }

  lemma {:induction false} RegRowsFit(start: Planner, p: Pending, registers: map<string, Raw>, indexes: seq<nat>)
    requires RowsCurrent(start) && HistoryBounded(start) && Distinct(indexes) && OnlyMemory(start)
    requires start.pcSeq == Some(p.pcSeq) && start.runtimePc == p.runtimePc && HeaderFits(p.pcSeq, p.runtimePc)
    requires forall i :: i in indexes ==> WaitFits(start, i)
    ensures var a := ApplyRegRows(Applied(start, []), p, registers, indexes);
            SameWidths(start, a.st) && forall q :: q in a.requests ==> RequestFits(q)
    decreases |indexes|
  {
    if indexes != [] {
      LastIsNew(indexes);
      var init, index := indexes[..|indexes| - 1], indexes[|indexes| - 1];
      RegRowsFit(start, p, registers, init);
      RegRowsKeep(start, p, registers, init);
      var a := ApplyRegRows(Applied(start, []), p, registers, init);
      RegRowFits(start, a, p, registers, index);
      RegRowWidths(start, a, p, registers, index);
    }
  }

  /** The memory requests that follow a register answer fit, whatever the answer says. */
  lemma RegResponseFits(st: Planner, r: Response)
    requires PlannerFits(st)
    ensures forall q :: q in ApplyReg(st, r).2 ==> RequestFits(q)
  {
    var c := Correlated(st, r, false);
    if c.Some? && r.ok && r.registers.Some? {
      var start := Take(st, r.id.value);
      assert IsCurrent(st, r.id.value, c.value);
      TakeRegisterRequest(st, r);
      assert PendingFits(st, c.value);
      forall i | i in c.value.indexes ensures WaitFits(start, i) {
        assert WaitFits(st, i);
      }
      RegRowsFit(start, c.value, r.registers.value, c.value.indexes);
    }
  }

  /** After an accepted answer nothing waits for registers, so the planner stays fit. */
  lemma ResponseKeepsPlanner(st: Planner, r: Response)
    requires PlannerFits(st)
    ensures PlannerFits(ApplyReg(st, r).1) && PlannerFits(ApplyMem(st, r).1)
  {
    RegStepKeeps(st, r);
    MemStepKeeps(st, r);
    if ApplyReg(st, r).0 {
      RegisterAnswered(st, r);
    }
    if ApplyMem(st, r).0 {
      MemoryAnswered(st, r);
    }
  }

  lemma MemoryAnswered(st: Planner, r: Response)
    requires Good(st) && ApplyMem(st, r).0
    ensures forall id :: id in ApplyMem(st, r).1.pending ==> ApplyMem(st, r).1.pending[id].memory
  {
    var p, start := Correlated(st, r, true).value, Take(st, r.id.value);
    MemRowsKeepPending(start, p, r, p.indexes);
  }

  lemma RegisterAnswered(st: Planner, r: Response)
    requires Good(st) && ApplyReg(st, r).0
    ensures forall id :: id in ApplyReg(st, r).1.pending ==> ApplyReg(st, r).1.pending[id].memory
  {
    var p, start := Correlated(st, r, false).value, Take(st, r.id.value);
    assert IsCurrent(st, r.id.value, p);
    TakeRegisterRequest(st, r);
    if r.ok && r.registers.Some? {
      RegRowsKeep(start, p, r.registers.value, p.indexes);
    } else {
      FailRowsKeepPending(start, p.indexes);
    }
  }

  // ---------------------------------------------------------------- the argument planner

  /** Locals have small numbers; arguments have printable names that fit an id, and `args` bounds their places. */
  ghost predicate VariableFits(v: Variable, args: nat)
  {
    v.index < WORD && (A.IsArgument(v) ==> J.AllPlain(v.name) && |v.name| <= 112 && v.argIndex.value < args)
  }

  ghost predicate CoreFits(core: A.Core, args: nat)
  {
    && (forall i :: 0 <= i < |core.rows| ==> VariableFits(core.rows[i].v, args))
    && (forall id :: id in core.pending ==> HeaderFits(core.pending[id].pcSeq, core.pending[id].runtimePc))
  }

  lemma {:induction false} NeededFit(vs: seq<Variable>)
    ensures A.NeededRegisters(vs) <= Elements(X64)
    decreases |vs|
  {
    if vs != [] {
      NeededFit(vs[..|vs| - 1]);
      assert X64[2] == "rcx" && X64[3] == "rdx" && X64[8] == "r8" && X64[9] == "r9" && X64[7] == "rsp";
    }
  }

  lemma EntryPlanFits(core: A.Core, vs: seq<Variable>, context: A.Context, args: nat)
    requires HeaderFits(context.pcSeq, context.runtimePc) && forall v :: v in vs ==> VariableFits(v, args)
    ensures var (core', q) := A.BuildEntryPlan(core, vs, context);
            CoreFits(core', args) && (q.Some? ==> RequestFits(q.value))
  {
    NeededFit(vs);
    W.RegIdPasses(context.pcSeq);
  }

  lemma StackRequestFits(v: Variable, p: A.ArgPending, rsp: int, args: nat)
    requires VariableFits(v, args) && A.OnStack(v) && HeaderFits(p.pcSeq, p.runtimePc) && RoomFor(rsp, args)
    ensures var q := A.StackPending(p, v, rsp);
            RequestFits(MemRequest(p.pcSeq, q.id, p.runtimePc, q.address, q.size))
  {
    W.ArgMemIdPasses(p.pcSeq, v.name);
    var address: nat := rsp + A.StackArgOffset(v.argIndex.value);
    assert address < QUAD && A.HexInt(address) == Hex(address);
  }

  lemma {:induction false} IssuedFit(start: A.Issued, rows: seq<A.Row>, p: A.ArgPending, rsp: int, args: nat)
    requires HeaderFits(p.pcSeq, p.runtimePc) && RoomFor(rsp, args)
    requires forall i :: 0 <= i < |rows| ==> VariableFits(rows[i].v, args)
    requires forall q :: q in start.requests ==> RequestFits(q)
    ensures forall q :: q in A.IssueStack(start, rows, p, rsp).requests ==> RequestFits(q)
    decreases |rows|
  {
    if rows != [] {
      var v := rows[|rows| - 1].v;
      IssuedFit(start, rows[..|rows| - 1], p, rsp, args);
      if A.OnStack(v) {
        StackRequestFits(v, p, rsp, args);
      }
    }
  }

  /** What an answer says about `rsp` leaves room for the stack arguments. */
  ghost predicate AnswerFits(r: Response, args: nat)
  {
    r.registers.Some? && RegisterNumber(r.registers.value, "rsp").Some? ==>
      RoomFor(RegisterNumber(r.registers.value, "rsp").value, args)
  }

  lemma ArgumentRowsFit(core: A.Core, r: Response, args: nat)
    requires CoreFits(core, args)
    ensures forall i :: 0 <= i < |A.ApplyArgReg(core, r).1.rows| ==>
            VariableFits(A.ApplyArgReg(core, r).1.rows[i].v, args)
  {
  }

  lemma ArgumentMemoryFits(core: A.Core, r: Response, args: nat)
    requires CoreFits(core, args)
    ensures CoreFits(A.ApplyArgMem(core, r).1, args)
  {
  }

  /** An answer keeps the argument planner fit, and the requests that follow it fit. */
  lemma ArgumentAnswerFits(core: A.Core, r: Response, args: nat)
    requires CoreFits(core, args) && AnswerFits(r, args)
    ensures CoreFits(A.ApplyArgReg(core, r).1, args) && CoreFits(A.ApplyArgMem(core, r).1, args)
    ensures forall q :: q in A.ApplyArgReg(core, r).2 ==> RequestFits(q)
  {
    ArgumentRowsFit(core, r, args);
    ArgumentMemoryFits(core, r, args);
    var c := A.ArgCorrelated(core, r, false);
    if c.Some? && r.ok && r.registers.Some? && RegisterNumber(r.registers.value, "rsp").Some? {
      var rsp := RegisterNumber(r.registers.value, "rsp").value;
      var rows := A.Each(core.rows, A.RegisterChange(r.registers.value, c.value.runtimePc));
      var start := A.Issued(core.pending - {r.id.value}, []);
      A.IssuedAtEntry(start, rows, c.value, rsp);
      IssuedFit(start, rows, c.value, rsp, args);
    }
  }

  // ---------------------------------------------------------------- every action

  ghost predicate OutcomeFits(outcome: Outcome, args: nat)
  {
    match outcome
    case Enumerated(_, vs, _, _, analysis) =>
      (forall v :: v in vs ==> VariableFits(v, args)) && EvidenceFits(analysis.evidence)
    case RecoveryFailed(_, vs, _) => forall v :: v in vs ==> VariableFits(v, args)
    case _ => true
  }

  /** The target stops at 64-bit stops, the counter does not wrap, and IDA names x64 registers. */
  ghost predicate ActionFits(w: World, a: Action, args: nat)
  {
    match a
    case Move(stop) => StopFits(stop, args)
    case Draw => |w.log| + 1 < WORD
    case Deliver(outcome) => OutcomeFits(outcome, args)
    case _ => true
  }

  ghost predicate MessageFits(m: Message, args: nat)
  {
    if m.PcUpdate? then m.pcSeq < WORD && m.pc < QUAD else AnswerFits(m.r, args)
  }

  ghost predicate NodeFits(node: Node, args: nat)
  {
    PlannerFits(node.planner) && CoreFits(node.core, args)
  }

  ghost predicate WorldFits(w: World, args: nat)
  {
    && StopFits(w.now, args) && |w.log| < WORD && (forall stop :: stop in w.log ==> stop.pc < QUAD)
    && NodeFits(w.node, args)
    && (forall q :: q in Requests(w) ==> RequestFits(q))
    && (forall m :: m in Flight(w) ==> MessageFits(m, args))
  }

  lemma UpdateFits(node: Node, pcSeq: nat, pc: nat, outcome: Outcome, args: nat)
    requires NodeFits(node, args) && pcSeq < WORD && pc < QUAD && LegalOutcome(outcome) && OutcomeFits(outcome, args)
    ensures var (node', requests) := HandlePcUpdate(node, pcSeq, Hex(pc), outcome);
            NodeFits(node', args) && forall q :: q in requests ==> RequestFits(q)
  {
    AddressText(pc);
    var context := ContextOf(pcSeq, Hex(pc), outcome);
    if outcome.Enumerated? {
      EntryPlanFits(node.core, outcome.vs, context, args);
      BeginFits(node.planner, outcome.vs, outcome.selected, outcome.analysis, Hex(pc), pcSeq);
    } else {
      StepKeeps(node.planner, Invalidate(Hex(pc), pcSeq));
      if outcome.RecoveryFailed? {
        EntryPlanFits(node.core, outcome.vs, context, args);
      }
    }
  }

  lemma HandledFits(node: Node, m: Message, outcome: Outcome, args: nat)
    requires NodeFits(node, args) && MessageFits(m, args) && LegalOutcome(outcome) && OutcomeFits(outcome, args)
    ensures var (node', requests) := Handle(node, m, outcome);
            NodeFits(node', args) && forall q :: q in requests ==> RequestFits(q)
  {
    if m.PcUpdate? {
      UpdateFits(node, m.pcSeq, m.pc, outcome, args);
    } else if ToLocals(m.r) {
      RegResponseFits(node.planner, m.r);
      ResponseKeepsPlanner(node.planner, m.r);
    } else {
      ArgumentAnswerFits(node.core, m.r, args);
    }
  }

  lemma DeliverFits(w: World, outcome: Outcome, args: nat)
    requires WorldFits(w, args) && w.upToIda != [] && LegalOutcome(outcome) && OutcomeFits(outcome, args)
    ensures WorldFits(Do(w, Deliver(outcome)), args)
  {
    var m := w.upToIda[0];
    assert m in Flight(w);
    var node, requests := Handle(w.node, m, outcome).0, Handle(w.node, m, outcome).1;
    HandledFits(w.node, m, outcome, args);
    AfterHandling(w, node, requests, args);
  }

  lemma AfterHandling(w: World, node: Node, requests: seq<Request>, args: nat)
    requires WorldFits(w, args) && w.upToIda != [] && NodeFits(node, args)
    requires forall q :: q in requests ==> RequestFits(q)
    ensures WorldFits(w.(upToIda := w.upToIda[1..], node := node, downToBroker := w.downToBroker + requests), args)
  {
    var w' := w.(upToIda := w.upToIda[1..], node := node, downToBroker := w.downToBroker + requests);
    assert Flight(w') == Flight(w)[1..] && Requests(w') == Requests(w) + requests;
  }

  /** Each action keeps all traffic fit to travel. */
  lemma StepFits(w: World, a: Action, args: nat)
    requires WorldFits(w, args) && Enabled(w, a) && ActionFits(w, a, args)
    ensures WorldFits(Do(w, a), args)
  {
    match a {
      case Serve => assert MessageFits(Answer(w.now, w.downToWindbg[0]), args);
      case Deliver(outcome) => DeliverFits(w, outcome, args);
      case Send => assert w.log[|w.log| - 1] in w.log;
      case _ =>
    }
  }

  ghost predicate FittingRun(w: World, actions: seq<Action>, args: nat)
  {
    forall k :: 0 <= k < |actions| ==> ActionFits(P.RunWorld(w, actions[..k]), actions[k], args)
  }

  lemma {:induction false} RunFits(now: Stop, maxHistory: int, actions: seq<Action>, args: nat)
    requires StopFits(now, args) && P.EnabledRun(P.Start(now, maxHistory), actions)
    requires FittingRun(P.Start(now, maxHistory), actions, args)
    ensures WorldFits(P.RunWorld(P.Start(now, maxHistory), actions), args)
    decreases |actions|
  {
    var start := P.Start(now, maxHistory);
    if actions == [] {
      RunIsGood(maxHistory, []);
    } else {
      var init, last := actions[..|actions| - 1], actions[|actions| - 1];
      forall k | 0 <= k < |init|
        ensures Enabled(P.RunWorld(start, init[..k]), init[k])
        ensures ActionFits(P.RunWorld(start, init[..k]), init[k], args)
      {
        assert init[..k] == actions[..k] && init[k] == actions[k];
      }
      RunFits(now, maxHistory, init, args);
      StepFits(P.RunWorld(start, init), last, args);
    }
  }

  /**
    In every run, whatever request is on its way to the extension, its line is read as
    written and the reply decodes to the message the target answers with.
   */
  lemma EveryRequestTravels(now: Stop, maxHistory: int, actions: seq<Action>, args: nat, q: Request)
    requires StopFits(now, args) && P.EnabledRun(P.Start(now, maxHistory), actions)
    requires FittingRun(P.Start(now, maxHistory), actions, args)
    requires q in Requests(P.RunWorld(P.Start(now, maxHistory), actions))
    ensures Travels(P.RunWorld(P.Start(now, maxHistory), actions).now, q)
  {
    RunFits(now, maxHistory, actions, args);
    FittingTravels(P.RunWorld(P.Start(now, maxHistory), actions).now, args, q);
  }
}
