/**
  The entry-argument planner (`DayVarCore`): arguments are read only at an exact
  function entry, and later shown only as stale entry values.
 */
module EntryArguments {
  import opened Basics
  import opened Bits
  import opened Values
  import opened RecoveryModel

  /** `PcContext`: the function is the one whose variables were enumerated, if any. */
  datatype Context = Context(pcSeq: nat, runtimePc: string, functionEa: string, atEntry: bool)

  datatype Row = Row(v: Variable, value: string, status: Status, lastPc: string, currentPc: string)

  datatype ArgPending = ArgPending(memory: bool, pcSeq: nat, id: string, runtimePc: string, names: seq<string>,
                                   registers: set<string>, address: string, size: int)

  datatype Core = Core(context: Option<Context>, pending: map<string, ArgPending>, rows: seq<Row>)

  /** Arguments 0 to 3 live in these registers at a Windows x64 function entry. */
  function EntryRegister(arg: nat): string
    requires arg < 4
  {
    ["rcx", "rdx", "r8", "r9"][arg]
  }

  function StackArgOffset(arg: nat): int
  {
    0x28 + 8 * (arg - 4)
  }

  predicate IsArgument(v: Variable)
  {
    v.isArg && v.argIndex.Some?
  }

  predicate InRegister(v: Variable)
  {
    IsArgument(v) && v.argIndex.value < 4
  }

  predicate OnStack(v: Variable)
  {
    IsArgument(v) && v.argIndex.value >= 4
  }

  /** `f"0x{n:x}"` for any integer. */
  function HexInt(n: int): (text: string)
    ensures text != ""
  {
    if n >= 0 then Hex(n) else "0x-" + Digits(-n, 16)
  }

  /** `_format_hex_value` of a numeric text. */
  function ArgumentText(n: int, size: int): (text: string)
    ensures text != ""
  {
    if SupportedWidth(size) then Hex(Mask(n, 8 * size)) else HexInt(n)
  }

  function ReadSize(size: int): (r: int)
    ensures SupportedWidth(r)
  {
    if SupportedWidth(size) then size else 8
  }

  /** `_format_memory_value`: short or malformed bytes are shown as they came. */
  function ArgumentMemoryText(bytesHex: string, size: int): string
  {
    match FromHex(bytesHex)
    case None => bytesHex
    case Some(bytes) =>
      if !SupportedWidth(size) || |bytes| < size then bytesHex else Hex(LittleEndian(bytes[..size]))
  }

  // ---------------------------------------------------------------- a new context

  function StartPcContext(core: Core, context: Context): Core
  {
    Core(Some(context), map[], core.rows)
  }

  /** The last row recorded for a function and a name. */
  function Prior(rows: seq<Row>, functionEa: string, name: string): Option<Row>
  {
    if rows == [] then None
    else if rows[|rows| - 1].v.functionEa == functionEa && rows[|rows| - 1].v.name == name then Some(rows[|rows| - 1])
    else Prior(rows[..|rows| - 1], functionEa, name)
  }

  /** Away from the entry an argument keeps its last value as stale; all other rows start empty. */
  function PlanRow(rows: seq<Row>, v: Variable, runtimePc: string, atEntry: bool): Row
  {
    var prior := if IsArgument(v) && !atEntry then Prior(rows, v.functionEa, v.name) else None;
    if prior.Some? && prior.value.value != "" then
      var lastPc := if prior.value.lastPc != "" then prior.value.lastPc else prior.value.currentPc;
      Row(v, prior.value.value, Stale, lastPc, runtimePc)
    else Row(v, "", Unavailable, "", runtimePc)
  }

  function PlanRows(rows: seq<Row>, vs: seq<Variable>, runtimePc: string, atEntry: bool): (planned: seq<Row>)
    ensures |planned| == |vs|
    ensures forall i :: 0 <= i < |vs| ==> planned[i] == PlanRow(rows, vs[i], runtimePc, atEntry)
  {
    if vs == [] then []
    else PlanRows(rows, vs[..|vs| - 1], runtimePc, atEntry) + [PlanRow(rows, vs[|vs| - 1], runtimePc, atEntry)]
  }

  function NeededRegisters(vs: seq<Variable>): (needed: set<string>)
    ensures forall v :: v in vs && InRegister(v) ==> EntryRegister(v.argIndex.value) in needed
    ensures forall v :: v in vs && OnStack(v) ==> "rsp" in needed
  {
    if vs == [] then {}
    else
      var v := vs[|vs| - 1];
      assert vs == vs[..|vs| - 1] + [v];
      NeededRegisters(vs[..|vs| - 1])
      + (if InRegister(v) then {EntryRegister(v.argIndex.value)} else if OnStack(v) then {"rsp"} else {})
  }

  function RegisterNames(vs: seq<Variable>): seq<string>
  {
    if vs == [] then []
    else RegisterNames(vs[..|vs| - 1]) + (if InRegister(vs[|vs| - 1]) then [vs[|vs| - 1].name] else [])
  }

  function BuildEntryPlan(core: Core, vs: seq<Variable>, context: Context): (Core, Option<Request>)
  {
    var rows := PlanRows(core.rows, vs, context.runtimePc, context.atEntry);
    var needed := if context.atEntry then NeededRegisters(vs) else {};
    var planned := Core(Some(context), map[], rows);
    if needed == {} then (planned, None)
    else
      var id := ArgRegId(context.pcSeq);
      (planned.(pending :=
        map[id := ArgPending(false, context.pcSeq, id, context.runtimePc, RegisterNames(vs), needed, "", 0)]),
       Some(RegRequest(context.pcSeq, id, context.runtimePc, needed)))
  }

  // ---------------------------------------------------------------- responses

  function ArgCorrelated(core: Core, r: Response, memory: bool): (p: Option<ArgPending>)
    ensures p.Some? ==> r.id.Some? && r.id.value in core.pending && core.pending[r.id.value] == p.value
  {
    if core.context.None? || r.pcSeq.None? || r.pcSeq.value != core.context.value.pcSeq then None
    else if r.runtimePc != "" && r.runtimePc != core.context.value.runtimePc then None
    else if r.id.None? || r.id.value !in core.pending then None
    else if core.pending[r.id.value].memory != memory then None
    else Some(core.pending[r.id.value])
  }

  function FailNamed(row: Row, names: seq<string>): Row
  {
    if row.v.name in names then row.(status := Failed) else row
  }

  /** A register argument takes its register's text; numbers are normalised to the argument's width. */
  function FillRegister(row: Row, registers: map<string, Raw>, runtimePc: string): Row
  {
    if !InRegister(row.v) then row
    else
      var name := EntryRegister(row.v.argIndex.value);
      if name !in registers then row.(status := Failed)
      else match registers[name]
        case Number(n) => row.(value := ArgumentText(n, row.v.size), status := Fresh, lastPc := runtimePc)
        case Text(t) =>
          if t == "" then row.(status := Failed) else row.(value := t, status := Fresh, lastPc := runtimePc)
  }

  function FailStack(row: Row): Row
  {
    if OnStack(row.v) then row.(status := Failed) else row
  }

  function FillMemory(row: Row, p: ArgPending, r: Response): Row
  {
    if row.v.name !in p.names then row
    else if r.ok then row.(value := ArgumentMemoryText(r.bytesHex, p.size), status := Fresh, lastPc := p.runtimePc)
    else row.(status := Failed, lastPc := p.runtimePc)
  }

  /** Applies a row change to every row, from left to right. */
  function Each(rows: seq<Row>, change: Row -> Row): (out: seq<Row>)
    ensures |out| == |rows| && forall i :: 0 <= i < |rows| ==> out[i] == change(rows[i])
  {
    if rows == [] then [] else Each(rows[..|rows| - 1], change) + [change(rows[|rows| - 1])]
  }

  function RegisterChange(registers: map<string, Raw>, runtimePc: string): Row -> Row
  {
    (row: Row) => FillRegister(row, registers, runtimePc)
  }

  function MemoryChange(p: ArgPending, r: Response): Row -> Row
  {
    (row: Row) => FillMemory(row, p, r)
  }

  function ErrorChange(names: seq<string>): Row -> Row
  {
    (row: Row) => FailNamed(row, names)
  }

  function StackPending(p: ArgPending, v: Variable, rsp: int): ArgPending
    requires OnStack(v)
  {
    ArgPending(true, p.pcSeq, ArgMemId(p.pcSeq, v.name), p.runtimePc, [v.name], {},
               HexInt(rsp + StackArgOffset(v.argIndex.value)), ReadSize(v.size))
  }

  datatype Issued = Issued(pending: map<string, ArgPending>, requests: seq<Request>)

  /** The memory requests for the stack arguments among `rows`. */
  function IssueStack(start: Issued, rows: seq<Row>, p: ArgPending, rsp: int): Issued
    decreases |rows|
  {
    if rows == [] then start
    else
      var before := IssueStack(start, rows[..|rows| - 1], p, rsp);
      var v := rows[|rows| - 1].v;
      if !OnStack(v) then before
      else
        var q := StackPending(p, v, rsp);
        Issued(before.pending[q.id := q], before.requests + [MemRequest(p.pcSeq, q.id, p.runtimePc, q.address, q.size)])
  }

  function ApplyArgReg(core: Core, r: Response): (bool, Core, seq<Request>)
  {
    match ArgCorrelated(core, r, false)
    case None => (false, core, [])
    case Some(p) =>
      var pending := core.pending - {r.id.value};
      if !r.ok || r.registers.None? then (true, Core(core.context, pending, Each(core.rows, ErrorChange(p.names))), [])
      else
        var rows := Each(core.rows, RegisterChange(r.registers.value, p.runtimePc));
        match RegisterNumber(r.registers.value, "rsp")
        case None => (true, Core(core.context, pending, Each(rows, FailStack)), [])
        case Some(rsp) =>
          var issued := IssueStack(Issued(pending, []), rows, p, rsp);
          (true, Core(core.context, issued.pending, rows), issued.requests)
  }

  function ApplyArgMem(core: Core, r: Response): (bool, Core)
  {
    match ArgCorrelated(core, r, true)
    case None => (false, core)
    case Some(p) => (true, Core(core.context, core.pending - {r.id.value}, Each(core.rows, MemoryChange(p, r))))
  }

  // ---------------------------------------------------------------- runs

  /** The controller rebuilds the rows, or starts a context without an entry when it has no enumeration. */
  datatype Event =
    | Plan(vs: seq<Variable>, context: Context)
    | Start(pcSeq: nat, runtimePc: string, functionEa: string)
    | Reg(r: Response)
    | Mem(r: Response)

  function Step(core: Core, ev: Event): Core
  {
    match ev
    case Plan(vs, context) => BuildEntryPlan(core, vs, context).0
    case Start(pcSeq, runtimePc, functionEa) => StartPcContext(core, Context(pcSeq, runtimePc, functionEa, false))
    case Reg(r) => ApplyArgReg(core, r).1
    case Mem(r) => ApplyArgMem(core, r).1
  }

  /** An enumeration lists the variables of one function. */
  ghost predicate OwnVariables(vs: seq<Variable>, functionEa: string)
  {
    forall i :: 0 <= i < |vs| ==> vs[i].functionEa == functionEa
  }

  ghost predicate Legal(ev: Event)
  {
    ev.Plan? ==> OwnVariables(ev.vs, ev.context.functionEa)
  }

  ghost predicate LegalRun(evs: seq<Event>)
  {
    forall i :: 0 <= i < |evs| ==> Legal(evs[i])
  }

  const INITIAL: Core := Core(None, map[], [])

  function Run(evs: seq<Event>): Core
    decreases |evs|
  {
    if evs == [] then INITIAL else Step(Run(evs[..|evs| - 1]), evs[|evs| - 1])
  }

  /** A request can only be outstanding at an exact entry, and belongs to that entry's context. */
  ghost predicate OnlyAtEntry(core: Core)
  {
    forall id :: id in core.pending ==>
      && core.context.Some? && core.context.value.atEntry && core.pending[id].id == id
      && core.pending[id].pcSeq == core.context.value.pcSeq
      && core.pending[id].runtimePc == core.context.value.runtimePc
  }

  lemma {:induction false} IssuedAtEntry(start: Issued, rows: seq<Row>, p: ArgPending, rsp: int)
    ensures forall id :: id in IssueStack(start, rows, p, rsp).pending ==>
              || (id in start.pending && IssueStack(start, rows, p, rsp).pending[id] == start.pending[id])
              || (var q := IssueStack(start, rows, p, rsp).pending[id];
                 q.memory && q.id == id && q.pcSeq == p.pcSeq && q.runtimePc == p.runtimePc)
    decreases |rows|
  {
    if rows != [] {
      IssuedAtEntry(start, rows[..|rows| - 1], p, rsp);
    }
  }

  lemma StepOnlyAtEntry(core: Core, ev: Event)
    requires OnlyAtEntry(core)
    ensures OnlyAtEntry(Step(core, ev))
  {
    if ev.Reg? && ArgCorrelated(core, ev.r, false).Some? && ev.r.registers.Some? {
      var p := ArgCorrelated(core, ev.r, false).value;
      var rsp := RegisterNumber(ev.r.registers.value, "rsp");
      if rsp.Some? {
        var rows := Each(core.rows, RegisterChange(ev.r.registers.value, p.runtimePc));
        IssuedAtEntry(Issued(core.pending - {ev.r.id.value}, []), rows, p, rsp.value);
      }
    }
  }

  /** After every run, outstanding requests belong to the current, exact-entry context. */
  lemma {:induction false} RunOnlyAtEntry(evs: seq<Event>)
    ensures OnlyAtEntry(Run(evs))
    decreases |evs|
  {
    if evs != [] {
      RunOnlyAtEntry(evs[..|evs| - 1]);
      StepOnlyAtEntry(Run(evs[..|evs| - 1]), evs[|evs| - 1]);
    }
  }

  /** At an entry of the function, some row shows this value for this name as fresh. */
  ghost predicate FreshAtEntry(core: Core, functionEa: string, name: string, value: string)
  {
    && core.context.Some? && core.context.value.atEntry && core.context.value.functionEa == functionEa
    && exists i :: 0 <= i < |core.rows| && core.rows[i].status == Fresh && core.rows[i].v.functionEa == functionEa
                   && core.rows[i].v.name == name && core.rows[i].value == value
  }

  /** At an entry, all rows belong to the function that is entered. */
  ghost predicate RowsOfEntry(core: Core)
  {
    core.context.Some? && core.context.value.atEntry ==>
      forall i :: 0 <= i < |core.rows| ==> core.rows[i].v.functionEa == core.context.value.functionEa
  }

  /** Some row of the function holds this value for this name. */
  ghost predicate Holds(rows: seq<Row>, functionEa: string, name: string, value: string)
  {
    exists k :: 0 <= k < |rows| && rows[k].value == value && rows[k].v.functionEa == functionEa
      && rows[k].v.name == name
  }

  /** The value of a row, when it has one, is inherited from `past` or fresh at an entry now. */
  ghost predicate Explained(past: Core, core: Core, row: Row)
  {
    || row.value == ""
    || FreshAtEntry(core, row.v.functionEa, row.v.name, row.value)
    || Holds(past.rows, row.v.functionEa, row.v.name, row.value)
  }

  lemma {:induction false} PriorIsHeld(rows: seq<Row>, functionEa: string, name: string)
    ensures Prior(rows, functionEa, name).Some? ==>
            Holds(rows, functionEa, name, Prior(rows, functionEa, name).value.value)
    decreases |rows|
  {
    if rows != [] {
      var init, last := rows[..|rows| - 1], rows[|rows| - 1];
      PriorIsHeld(init, functionEa, name);
      if Prior(rows, functionEa, name).Some? && !(last.v.functionEa == functionEa && last.v.name == name) {
        var value := Prior(init, functionEa, name).value.value;
        var k :| 0 <= k < |init| && init[k].value == value && init[k].v.functionEa == functionEa
          && init[k].v.name == name;
        assert rows[k] == init[k];
      }
    }
  }

  /** A register response changes a value only by making its row fresh, and only at an entry. */
  lemma RegisterResponseExplained(core: Core, r: Response, i: int)
    requires OnlyAtEntry(core) && 0 <= i < |core.rows|
    ensures |ApplyArgReg(core, r).1.rows| == |core.rows| && ApplyArgReg(core, r).1.context == core.context
    ensures Carried(core, core.rows[i], ApplyArgReg(core, r).1.rows[i])
  {
    var c := ArgCorrelated(core, r, false);
    if c.Some? && r.ok && r.registers.Some? {
      var filled := FillRegister(core.rows[i], r.registers.value, c.value.runtimePc);
      assert Carried(core, core.rows[i], filled) && Carried(core, core.rows[i], FailStack(filled));
    }
  }

  lemma MemoryResponseExplained(core: Core, r: Response, i: int)
    requires OnlyAtEntry(core) && 0 <= i < |core.rows|
    ensures |ApplyArgMem(core, r).1.rows| == |core.rows| && ApplyArgMem(core, r).1.context == core.context
    ensures Carried(core, core.rows[i], ApplyArgMem(core, r).1.rows[i])
  {
  }

  /** The row keeps its variable and value, or becomes fresh while the context is an entry. */
  ghost predicate Carried(core: Core, before: Row, after: Row)
  {
    && after.v == before.v
    && (after.value == before.value || (after.status == Fresh && core.context.Some? && core.context.value.atEntry))
  }

  lemma ResponseKeepsVariables(core: Core, r: Response, i: int)
    requires OnlyAtEntry(core) && 0 <= i < |core.rows|
    ensures |ApplyArgReg(core, r).1.rows| == |core.rows| && ApplyArgReg(core, r).1.rows[i].v == core.rows[i].v
    ensures |ApplyArgMem(core, r).1.rows| == |core.rows| && ApplyArgMem(core, r).1.rows[i].v == core.rows[i].v
  {
    RegisterResponseExplained(core, r, i);
    MemoryResponseExplained(core, r, i);
  }

  lemma ResponseShape(core: Core, ev: Event)
    requires ev.Reg? || ev.Mem?
    ensures |Step(core, ev).rows| == |core.rows| && Step(core, ev).context == core.context
  {
  }

  lemma StepRowsOfEntry(core: Core, ev: Event)
    requires OnlyAtEntry(core) && RowsOfEntry(core) && Legal(ev)
    ensures RowsOfEntry(Step(core, ev))
  {
    if ev.Reg? || ev.Mem? {
      ResponseShape(core, ev);
      forall i | 0 <= i < |core.rows|
        ensures Step(core, ev).rows[i].v == core.rows[i].v
      {
        ResponseKeepsVariables(core, ev.r, i);
      }
    }
  }

  lemma {:induction false} RunRowsOfEntry(evs: seq<Event>)
    requires LegalRun(evs)
    ensures RowsOfEntry(Run(evs))
    decreases |evs|
  {
    if evs != [] {
      RunRowsOfEntry(evs[..|evs| - 1]);
      RunOnlyAtEntry(evs[..|evs| - 1]);
      StepRowsOfEntry(Run(evs[..|evs| - 1]), evs[|evs| - 1]);
    }
  }

  /** Values appear only by an accepted response at an entry of their function; every other value is carried along. */
  lemma StepExplained(core: Core, ev: Event, i: int)
    requires OnlyAtEntry(core) && RowsOfEntry(core) && 0 <= i < |Step(core, ev).rows|
    ensures Explained(core, Step(core, ev), Step(core, ev).rows[i])
  {
    match ev {
      case Plan(vs, context) => PriorIsHeld(core.rows, vs[i].functionEa, vs[i].name);
      case Start(_, _, _) => assert core.rows[i] == Step(core, ev).rows[i];
      case Reg(r) =>
        ResponseShape(core, ev);
        RegisterResponseExplained(core, r, i);
      case Mem(r) =>
        ResponseShape(core, ev);
        MemoryResponseExplained(core, r, i);
    }
  }

  /** A row that a step makes fresh is made fresh at an exact entry of its own function. */
  lemma FreshOnlyAtEntry(core: Core, ev: Event, i: int)
    requires OnlyAtEntry(core) && RowsOfEntry(core) && 0 <= i < |Step(core, ev).rows|
    requires Step(core, ev).rows[i].status == Fresh
    ensures || (i < |core.rows| && core.rows[i] == Step(core, ev).rows[i])
            || (&& Step(core, ev).context.Some? && Step(core, ev).context.value.atEntry
                && Step(core, ev).rows[i].v.functionEa == Step(core, ev).context.value.functionEa)
  {
    if ev.Reg? || ev.Mem? {
      ResponseShape(core, ev);
      ResponseKeepsVariables(core, ev.r, i);
    }
  }

  /** Some state of the run showed this value as fresh, at an entry of the function. */
  ghost predicate WasFreshAtEntry(evs: seq<Event>, functionEa: string, name: string, value: string)
  {
    exists k :: 0 <= k <= |evs| && FreshAtEntry(Run(evs[..k]), functionEa, name, value)
  }

  /** Whatever value a row holds after a run was shown as fresh at an entry of the same function, for the same name. */
  lemma {:induction false} ValuesComeFromEntries(evs: seq<Event>, functionEa: string, name: string, value: string)
    requires LegalRun(evs) && Holds(Run(evs).rows, functionEa, name, value) && value != ""
    ensures WasFreshAtEntry(evs, functionEa, name, value)
    decreases |evs|
  {
    if evs != [] {
      var n := |evs|;
      LastStepExplained(evs, functionEa, name, value);
      if FreshAtEntry(Run(evs), functionEa, name, value) {
        assert evs[..n] == evs;
      } else {
        ValuesComeFromEntries(evs[..n - 1], functionEa, name, value);
        var k :| 0 <= k <= n - 1 && FreshAtEntry(Run(evs[..n - 1][..k]), functionEa, name, value);
        assert evs[..n - 1][..k] == evs[..k];
      }
    }
  }

  lemma StepExplains(core: Core, ev: Event, functionEa: string, name: string, value: string)
    requires OnlyAtEntry(core) && RowsOfEntry(core) && Holds(Step(core, ev).rows, functionEa, name, value)
    requires value != ""
    ensures FreshAtEntry(Step(core, ev), functionEa, name, value) || Holds(core.rows, functionEa, name, value)
  {
    var rows := Step(core, ev).rows;
    var k :| 0 <= k < |rows| && rows[k].value == value && rows[k].v.functionEa == functionEa && rows[k].v.name == name;
    StepExplained(core, ev, k);
  }

  lemma LastStepExplained(evs: seq<Event>, functionEa: string, name: string, value: string)
    requires LegalRun(evs) && evs != [] && Holds(Run(evs).rows, functionEa, name, value) && value != ""
    ensures FreshAtEntry(Run(evs), functionEa, name, value)
            || Holds(Run(evs[..|evs| - 1]).rows, functionEa, name, value)
  {
    RunOnlyAtEntry(evs[..|evs| - 1]);
    RunRowsOfEntry(evs[..|evs| - 1]);
    StepExplains(Run(evs[..|evs| - 1]), evs[|evs| - 1], functionEa, name, value);
  }
}
