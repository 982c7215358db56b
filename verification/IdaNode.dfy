/** The IDA controller: both planners, and the routing of responses between them. */
module IdaNode {
  import opened Basics
  import opened Values
  import opened RecoveryModel
  import opened RecoveryRuns
  import A = EntryArguments

  /** `planned` is the context for which the argument rows were last rebuilt. */
  datatype Node = Node(core: A.Core, planner: Planner, planned: Option<A.Context>)

  /** What the mapping, the enumeration and the analysis give for one `pc_update`. */
  datatype Outcome =
    | Unmapped
    | NotEnumerated(functionEa: string)
    | Enumerated(functionEa: string, vs: seq<Variable>, atEntry: bool, selected: set<nat>, analysis: Analysis)
    | RecoveryFailed(functionEa: string, vs: seq<Variable>, atEntry: bool)

  function Optional(q: Option<Request>): seq<Request>
  {
    if q.Some? then [q.value] else []
  }

  /** The context an outcome opens; without an enumeration it is no entry. */
  function ContextOf(pcSeq: nat, runtimePc: string, outcome: Outcome): A.Context
  {
    match outcome
    case Unmapped => A.Context(pcSeq, runtimePc, "", false)
    case NotEnumerated(functionEa) => A.Context(pcSeq, runtimePc, functionEa, false)
    case Enumerated(functionEa, _, atEntry, _, _) => A.Context(pcSeq, runtimePc, functionEa, atEntry)
    case RecoveryFailed(functionEa, _, atEntry) => A.Context(pcSeq, runtimePc, functionEa, atEntry)
  }

  /** `_handle_pc_update`: both planners move to the new context, whatever the outcome. */
  function HandlePcUpdate(node: Node, pcSeq: nat, runtimePc: string, outcome: Outcome): (Node, seq<Request>)
  {
    var context := ContextOf(pcSeq, runtimePc, outcome);
    match outcome
    case Unmapped =>
      (Node(A.StartPcContext(node.core, context), StartContext(node.planner, runtimePc, pcSeq), node.planned), [])
    case NotEnumerated(_) =>
      (Node(A.StartPcContext(node.core, context), StartContext(node.planner, runtimePc, pcSeq), node.planned), [])
    case RecoveryFailed(_, vs, _) =>
      var (core, q) := A.BuildEntryPlan(node.core, vs, context);
      (Node(core, StartContext(node.planner, runtimePc, pcSeq), Some(context)), Optional(q))
    case Enumerated(_, vs, _, selected, analysis) =>
      var (core, q) := A.BuildEntryPlan(node.core, vs, context);
      var (planner, v) := BeginPc(node.planner, vs, selected, analysis, runtimePc, pcSeq);
      (Node(core, planner, Some(context)), Optional(q) + Optional(v))
  }

  predicate ToLocals(r: Response)
  {
    r.id.Some? && IsLocalId(r.id.value)
  }

  function HandleReg(node: Node, r: Response): (Node, seq<Request>)
  {
    if ToLocals(r) then
      var (_, planner, requests) := ApplyReg(node.planner, r);
      (node.(planner := planner), requests)
    else
      var (_, core, requests) := A.ApplyArgReg(node.core, r);
      (node.(core := core), requests)
  }

  function HandleMem(node: Node, r: Response): Node
  {
    if ToLocals(r) then node.(planner := ApplyMem(node.planner, r).1)
    else node.(core := A.ApplyArgMem(node.core, r).1)
  }

  // ---------------------------------------------------------------- routing

  /** The argument planner's pending ids never carry the local prefix. */
  ghost predicate ArgumentIds(core: A.Core)
  {
    forall id :: id in core.pending ==> !IsLocalId(id)
  }

  lemma {:induction false} IssuedArgumentIds(start: A.Issued, rows: seq<A.Row>, p: A.ArgPending, rsp: int)
    requires forall id :: id in start.pending ==> !IsLocalId(id)
    ensures forall id :: id in A.IssueStack(start, rows, p, rsp).pending ==> !IsLocalId(id)
    decreases |rows|
  {
    if rows != [] {
      IssuedArgumentIds(start, rows[..|rows| - 1], p, rsp);
      IdKindsDiffer(p.pcSeq, 0, rows[|rows| - 1].v.name);
    }
  }

  lemma StepArgumentIds(core: A.Core, ev: A.Event)
    requires ArgumentIds(core)
    ensures ArgumentIds(A.Step(core, ev))
  {
    match ev {
      case Plan(vs, context) => IdKindsDiffer(context.pcSeq, 0, "");
      case Reg(r) =>
        var p := A.ArgCorrelated(core, r, false);
        if p.Some? && r.registers.Some? && RegisterNumber(r.registers.value, "rsp").Some? {
          var rows := A.Each(core.rows, A.RegisterChange(r.registers.value, p.value.runtimePc));
          IssuedArgumentIds(A.Issued(core.pending - {r.id.value}, []), rows, p.value,
                            RegisterNumber(r.registers.value, "rsp").value);
        }
      case _ =>
    }
  }

  lemma {:induction false} RunArgumentIds(evs: seq<A.Event>)
    ensures ArgumentIds(A.Run(evs))
    decreases |evs|
  {
    if evs != [] {
      RunArgumentIds(evs[..|evs| - 1]);
      StepArgumentIds(A.Run(evs[..|evs| - 1]), evs[|evs| - 1]);
    }
  }

  /** A pending id of the local planner carries the prefix. */
  lemma LocalIds(st: Planner, id: string)
    requires Good(st) && id in st.pending
    ensures IsLocalId(id)
  {
    var p := st.pending[id];
    assert IsCurrent(st, id, p);
    IdKindsDiffer(p.pcSeq, if p.memory then p.indexes[0] else 0, "");
  }

  /**
    Routing by the id prefix loses nothing: after any two runs of the planners, the
    planner that does not get a response would have rejected it unchanged.
   */
  lemma RoutingIsComplete(max: int, locals: seq<Event>, arguments: seq<A.Event>, r: Response)
    requires LegalRun(locals)
    ensures var st, core := Run(Create(max), locals), A.Run(arguments);
            if ToLocals(r) then A.ApplyArgReg(core, r) == (false, core, []) && A.ApplyArgMem(core, r) == (false, core)
            else ApplyReg(st, r) == (false, st, []) && ApplyMem(st, r) == (false, st)
  {
    var st := Run(Create(max), locals);
    RunIsGood(max, locals);
    RunArgumentIds(arguments);
    if !ToLocals(r) && r.id.Some? && r.id.value in st.pending {
      LocalIds(st, r.id.value);
    }
  }
}
