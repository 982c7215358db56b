/**
  The local-variable planner as a state machine: what each PC context, register
  response and memory response does to its rows, requests and history.
 */
module RecoveryModel {
  import opened Basics
  import opened Bits
  import opened Values
  import opened RegisterSurvival

  /** One Hex-Rays variable as enumerated for the current function. */
  datatype Variable = Variable(
    index: nat,
    name: string,
    typ: string,
    size: int,
    isArg: bool,
    argIndex: Option<nat>,
    functionEa: string,
    functionStart: int,
    defea: string)

  /** Where the static analysis proved the current value to live. */
  datatype Storage = Unproven | Constant(value: int) | Register(spec: RegisterSpec) | Stack(offset: int)

  datatype Analysis = Analysis(ok: bool, evidence: map<nat, Storage>)

  datatype Status = Fresh | Stale | Unavailable | Failed

  datatype Record = Record(
    index: nat,
    name: string,
    typ: string,
    width: int,
    functionStart: int,
    storage: Storage,
    status: Status,
    value: string,
    pcSeq: nat,
    runtimePc: string,
    lastValue: string)

  type Key = (int, nat)

  datatype Observation = Observation(name: string, width: int, typ: string, defea: string, value: string, pcSeq: nat)

  /** A Python dictionary keeps insertion order, which breaks ties when pruning. */
  type History = seq<(Key, Observation)>

  datatype Pending = Pending(
    memory: bool,
    pcSeq: nat,
    id: string,
    runtimePc: string,
    indexes: seq<nat>,
    registers: set<string>,
    address: string,
    size: int)

  datatype Planner = Planner(
    maxHistory: nat,
    history: History,
    records: map<nat, Record>,
    evidence: map<nat, Storage>,
    pending: map<string, Pending>,
    pcSeq: Option<nat>,
    runtimePc: string,
    sources: seq<Variable>)

  datatype Request =
    | RegRequest(pcSeq: nat, id: string, runtimePc: string, registers: set<string>)
    | MemRequest(pcSeq: nat, id: string, runtimePc: string, address: string, size: int)

  /** A register value in a response: a number, or text that is not one. */
  datatype Raw = Number(n: int) | Text(text: string)

  /** A response payload; empty text and `None` stand for absent fields. */
  datatype Response = Response(
    pcSeq: Option<int>,
    id: Option<string>,
    runtimePc: string,
    ok: bool,
    registers: Option<map<string, Raw>>,
    address: string,
    size: Option<int>,
    bytesHex: string)

  function Create(maxHistory: int): Planner
  {
    Planner(if maxHistory < 1 then 1 else maxHistory, [], map[], map[], map[], None, "", [])
  }

  // ---------------------------------------------------------------- history

  function Find(history: History, key: Key): Option<Observation>
  {
    if history == [] then None
    else if history[0].0 == key then Some(history[0].1)
    else Find(history[1..], key)
  }

  /** Assigning to a dictionary key replaces the value in place or appends a new entry. */
  function Put(history: History, key: Key, o: Observation): History
  {
    if history == [] then [(key, o)]
    else if history[0].0 == key then [(key, o)] + history[1..]
    else [history[0]] + Put(history[1..], key, o)
  }

  /** The first entry with the lowest `pc_seq`. */
  function Oldest(history: History): (k: nat)
    requires history != []
    ensures k < |history|
    ensures forall i :: 0 <= i < |history| ==> history[k].1.pcSeq <= history[i].1.pcSeq
    ensures forall i :: 0 <= i < k ==> history[k].1.pcSeq < history[i].1.pcSeq
  {
    if |history| == 1 then 0
    else
      var k := Oldest(history[1..]);
      assert forall i :: 1 <= i < |history| ==> history[i] == history[1..][i - 1];
      if history[0].1.pcSeq <= history[1..][k].1.pcSeq then 0 else k + 1
  }

  function Without(history: History, k: nat): History
    requires k < |history|
  {
    history[..k] + history[k + 1..]
  }

  /** Drops the oldest entries, lowest `pc_seq` first and ties in insertion order. */
  function Prune(history: History, max: nat): (kept: History)
    ensures |kept| <= max && (|history| <= max ==> kept == history)
    decreases |history|
  {
    if |history| <= max then history else Prune(Without(history, Oldest(history)), max)
  }

  function Matching(history: History, v: Variable): Option<Observation>
  {
    match Find(history, (v.functionStart, v.index))
    case None => None
    case Some(o) =>
      if o.name == v.name && o.width == v.size && o.typ == v.typ && o.defea == v.defea then Some(o) else None
  }

  function DefeaOf(sources: seq<Variable>, index: nat): string
  {
    if sources == [] then ""
    else if sources[0].index == index then sources[0].defea
    else DefeaOf(sources[1..], index)
  }

  // ---------------------------------------------------------------- row transitions

  function StaleOrUnavailable(r: Record): Record
  {
    if r.lastValue != "" then r.(value := r.lastValue, status := Stale) else r.(value := "", status := Unavailable)
  }

  function MarkFailed(r: Record): Record
  {
    r.(value := "", status := Failed)
  }

  function Observe(sources: seq<Variable>, r: Record, value: string): Observation
  {
    Observation(r.name, r.width, r.typ, DefeaOf(sources, r.index), value, r.pcSeq)
  }

  /** `_mark_fresh`: the row becomes current and the observation enters the history. */
  function MarkFresh(st: Planner, r: Record, value: string): Planner
  {
    st.(records := st.records[r.index := r.(value := value, status := Fresh, lastValue := value)],
        history := Prune(Put(st.history, (r.functionStart, r.index), Observe(st.sources, r, value)), st.maxHistory))
  }

  function SetRow(st: Planner, r: Record): Planner
  {
    st.(records := st.records[r.index := r])
  }

  // ---------------------------------------------------------------- a new PC context

  function StartContext(st: Planner, runtimePc: string, pcSeq: nat): Planner
  {
    Planner(st.maxHistory, st.history, map[], map[], map[], Some(pcSeq), runtimePc, [])
  }

  function ClearRuntimeState(st: Planner): Planner
  {
    Planner(st.maxHistory, st.history, map[], map[], map[], None, "", [])
  }

  function StorageFor(st: Planner, analysisOk: bool, selected: set<nat>, index: nat): Storage
  {
    if analysisOk && index in selected && index in st.evidence then st.evidence[index] else Unproven
  }

  function NewRecord(st: Planner, v: Variable, storage: Storage, runtimePc: string, pcSeq: nat): Record
  {
    var last := match Matching(st.history, v) case None => "" case Some(o) => o.value;
    Record(v.index, v.name, v.typ, v.size, v.functionStart, storage, Unavailable, "", pcSeq, runtimePc, last)
  }

  /** The state while rows are being planned: the registers and rows that wait for a runtime read. */
  datatype Plan = Plan(st: Planner, needed: set<string>, waiting: seq<nat>)

  /** What planning decides for one row. */
  datatype Decision =
    | Blank                    // the analysis failed: nothing is shown
    | Show(text: string)       // an exact constant
    | Hold                     // no current value: the last observation stays as stale
    | Await(register: string)  // held until a register arrives

  function Decide(analysisOk: bool, storage: Storage, size: int): Decision
  {
    if !analysisOk then Blank
    else match storage
      case Constant(c) => if SupportedWidth(size) then Show(Hex(Mask(c, 8 * size))) else Hold
      case Register(spec) => if SupportedWidth(size) && size <= spec.width then Await(spec.full) else Hold
      case Stack(_) => if SupportedWidth(size) then Await("rsp") else Hold
      case Unproven => Hold
  }

  function PlanRow(plan: Plan, v: Variable, analysisOk: bool, selected: set<nat>, runtimePc: string, pcSeq: nat): Plan
  {
    var storage := StorageFor(plan.st, analysisOk, selected, v.index);
    var r := NewRecord(plan.st, v, storage, runtimePc, pcSeq);
    match Decide(analysisOk, storage, v.size)
    case Blank => plan.(st := SetRow(plan.st, r))
    case Show(text) => plan.(st := MarkFresh(plan.st, r, text))
    case Hold => plan.(st := SetRow(plan.st, StaleOrUnavailable(r)))
    case Await(register) =>
      Plan(SetRow(plan.st, StaleOrUnavailable(r)), plan.needed + {register}, plan.waiting + [v.index])
  }

  /** Plans the rows of `vs` from left to right. */
  function PlanRows(plan: Plan, vs: seq<Variable>, analysisOk: bool, selected: set<nat>, runtimePc: string,
                    pcSeq: nat): Plan
    decreases |vs|
  {
    if vs == [] then plan
    else PlanRow(PlanRows(plan, vs[..|vs| - 1], analysisOk, selected, runtimePc, pcSeq), vs[|vs| - 1], analysisOk,
                 selected, runtimePc, pcSeq)
  }

  function Locals(vs: seq<Variable>): seq<Variable>
  {
    if vs == [] then []
    else if vs[|vs| - 1].isArg then Locals(vs[..|vs| - 1])
    else Locals(vs[..|vs| - 1]) + [vs[|vs| - 1]]
  }

  /** `begin_pc` before the request is issued. */
  function PlanContext(st: Planner, vs: seq<Variable>, selected: set<nat>, analysis: Analysis, runtimePc: string,
                       pcSeq: nat): Plan
  {
    var started := StartContext(st, runtimePc, pcSeq).(evidence := analysis.evidence, sources := Locals(vs));
    PlanRows(Plan(started, {}, []), Locals(vs), analysis.ok, selected, runtimePc, pcSeq)
  }

  function RegPending(pcSeq: nat, runtimePc: string, plan: Plan): Pending
  {
    Pending(false, pcSeq, RegId(pcSeq), runtimePc, plan.waiting, plan.needed, "", 0)
  }

  function BeginPc(st: Planner, vs: seq<Variable>, selected: set<nat>, analysis: Analysis, runtimePc: string,
                   pcSeq: nat): (Planner, Option<Request>)
  {
    var plan := PlanContext(st, vs, selected, analysis, runtimePc, pcSeq);
    if plan.needed == {} then (plan.st, None)
    else (plan.st.(pending := plan.st.pending[RegId(pcSeq) := RegPending(pcSeq, runtimePc, plan)]),
          Some(RegRequest(pcSeq, RegId(pcSeq), runtimePc, plan.needed)))
  }

  // ---------------------------------------------------------------- responses

  /** `_take_pending` without the removal: the request that the response answers, if it is current. */
  function Correlated(st: Planner, r: Response, memory: bool): (p: Option<Pending>)
    ensures p.Some? ==> r.id.Some? && r.id.value in st.pending && st.pending[r.id.value] == p.value
  {
    if st.pcSeq.None? || r.pcSeq.None? || r.pcSeq.value != st.pcSeq.value then None
    else if r.runtimePc != "" && r.runtimePc != st.runtimePc then None
    else if r.id.None? || r.id.value !in st.pending then None
    else if st.pending[r.id.value].memory != memory then None
    else Some(st.pending[r.id.value])
  }

  function Take(st: Planner, id: string): Planner
  {
    st.(pending := st.pending - {id})
  }

  /** `_mark_read_error` over the rows of a request. */
  function FailRows(st: Planner, indexes: seq<nat>): Planner
    decreases |indexes|
  {
    if indexes == [] then st
    else
      var before := FailRows(st, indexes[..|indexes| - 1]);
      var index := indexes[|indexes| - 1];
      if index in before.records then before.(records := before.records[index := MarkFailed(before.records[index])])
      else before
  }

  function RegisterNumber(registers: map<string, Raw>, name: string): Option<int>
  {
    if name in registers && registers[name].Number? then Some(registers[name].n) else None
  }

  /** `concrete_stack_address`: `None` stands for the range error. */
  function StackAddress(registers: map<string, Raw>, offset: int): Option<string>
  {
    match RegisterNumber(registers, "rsp")
    case None => None
    case Some(rsp) => if 0 <= rsp + offset < 0x1_0000_0000_0000_0000 then Some(Hex(rsp + offset)) else None
  }

  /** `extract_register_value`: `None` stands for the error it raises. */
  function RegisterText(registers: map<string, Raw>, spec: RegisterSpec, width: int): Option<string>
  {
    if !SupportedWidth(width) || width > spec.width then None
    else match RegisterNumber(registers, spec.full)
      case None => None
      case Some(n) => Some(Hex(Extract(n, spec.offset, width)))
  }

  datatype Applied = Applied(st: Planner, requests: seq<Request>)

  function MemPending(p: Pending, index: nat, address: string, width: int): Pending
  {
    Pending(true, p.pcSeq, MemId(p.pcSeq, index), p.runtimePc, [index], {}, address, width)
  }

  /** One row of an accepted register response. */
  function ApplyRegRow(a: Applied, p: Pending, registers: map<string, Raw>, index: nat): Applied
  {
    if index !in a.st.records || index !in a.st.evidence then a
    else
      var r := a.st.records[index];
      match a.st.evidence[index]
      case Register(spec) =>
        (match RegisterText(registers, spec, r.width)
         case None => a.(st := a.st.(records := a.st.records[index := MarkFailed(r)]))
         case Some(text) => a.(st := MarkFresh(a.st, r, text)))
      case Stack(offset) =>
        (match StackAddress(registers, offset)
         case None => a.(st := a.st.(records := a.st.records[index := MarkFailed(r)]))
         case Some(address) =>
           Applied(a.st.(pending := a.st.pending[MemId(p.pcSeq, index) := MemPending(p, index, address, r.width)]),
                   a.requests + [MemRequest(p.pcSeq, MemId(p.pcSeq, index), p.runtimePc, address, r.width)]))
      case _ => a
  }

  function ApplyRegRows(a: Applied, p: Pending, registers: map<string, Raw>, indexes: seq<nat>): Applied
    decreases |indexes|
  {
    if indexes == [] then a
    else ApplyRegRow(ApplyRegRows(a, p, registers, indexes[..|indexes| - 1]), p, registers, indexes[|indexes| - 1])
  }

  /** `apply_reg_response`: the flag says whether the response was accepted. */
  function ApplyReg(st: Planner, r: Response): (bool, Planner, seq<Request>)
  {
    match Correlated(st, r, false)
    case None => (false, st, [])
    case Some(p) =>
      if !r.ok || r.registers.None? then (true, FailRows(Take(st, r.id.value), p.indexes), [])
      else
        var a := ApplyRegRows(Applied(Take(st, r.id.value), []), p, r.registers.value, p.indexes);
        (true, a.st, a.requests)
  }

  /** `decode_little_endian`: `None` stands for the error it raises. */
  function MemoryText(bytesHex: string, width: int): Option<string>
  {
    if !SupportedWidth(width) then None
    else match FromHex(bytesHex)
      case None => None
      case Some(bytes) => if |bytes| != width then None else Some(Hex(LittleEndian(bytes)))
  }

  function ApplyMemRow(st: Planner, p: Pending, r: Response, index: nat): Planner
  {
    if index !in st.records then st
    else
      var row := st.records[index];
      match (if r.ok then MemoryText(r.bytesHex, p.size) else None)
      case None => st.(records := st.records[index := MarkFailed(row)])
      case Some(text) => MarkFresh(st, row, text)
  }

  function ApplyMemRows(st: Planner, p: Pending, r: Response, indexes: seq<nat>): Planner
    decreases |indexes|
  {
    if indexes == [] then st
    else ApplyMemRow(ApplyMemRows(st, p, r, indexes[..|indexes| - 1]), p, r, indexes[|indexes| - 1])
  }

  function ApplyMem(st: Planner, r: Response): (bool, Planner)
  {
    match Correlated(st, r, true)
    case None => (false, st)
    case Some(p) =>
      if r.address != "" && r.address != p.address then (false, st)
      else if r.size.Some? && r.size.value != p.size then (false, st)
      else (true, ApplyMemRows(Take(st, r.id.value), p, r, p.indexes))
  }
}
