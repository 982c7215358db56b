/** The debugged target at one stop, and what the WinDbg extension answers while it is stopped there. */
module Target {
  import opened Basics
  import opened Values
  import opened RecoveryModel

  /** A stop: the PC it announces, the register file and the readable memory. */
  datatype Stop = Stop(pc: nat, regs: map<string, nat>, mem: map<nat, Byte>)

  predicate Readable(stop: Stop, address: nat, size: nat)
  {
    forall a :: address <= a < address + size ==> a in stop.mem
  }

  function Bytes(stop: Stop, address: nat, size: nat): seq<Byte>
    requires Readable(stop, address, size)
  {
    seq(size, k requires 0 <= k < size => stop.mem[address + k])
  }

  datatype Message = PcUpdate(pcSeq: nat, pc: nat) | RegAnswer(r: Response) | MemAnswer(r: Response)

  /** `DvsHandleRegRequest` and `DvsHandleMemRequest`: the response echoes the request's correlation fields. */
  function Answer(stop: Stop, q: Request): Message
  {
    match q
    case RegRequest(pcSeq, id, runtimePc, registers) =>
      var values := map name | name in registers && name in stop.regs :: Number(stop.regs[name]);
      RegAnswer(Response(Some(pcSeq), Some(id), runtimePc, true, Some(values), "", None, ""))
    case MemRequest(pcSeq, id, runtimePc, address, size) =>
      if 0 < size <= 4096 && Readable(stop, HexValue(address), size) then
        MemAnswer(Response(Some(pcSeq), Some(id), runtimePc, true, None, address, Some(size),
                           HexPairs(Bytes(stop, HexValue(address), size))))
      else MemAnswer(Response(Some(pcSeq), Some(id), runtimePc, false, None, address, Some(size), ""))
  }

  /** Everything a successful answer says is so at `stop`. */
  ghost predicate Truthful(stop: Stop, m: Message)
  {
    match m
    case PcUpdate(_, _) => true
    case RegAnswer(r) =>
      r.ok && r.registers.Some? ==>
        forall name :: name in r.registers.value ==>
          name in stop.regs && r.registers.value[name] == Number(stop.regs[name])
    case MemAnswer(r) =>
      r.ok ==>
        match FromHex(r.bytesHex)
        case None => false
        case Some(bytes) =>
          Readable(stop, HexValue(r.address), |bytes|) && bytes == Bytes(stop, HexValue(r.address), |bytes|)
  }

  lemma AnswerIsTruthful(stop: Stop, q: Request)
    ensures Truthful(stop, Answer(stop, q))
  {
    if q.MemRequest? && 0 < q.size <= 4096 && Readable(stop, HexValue(q.address), q.size) {
      HexPairsRoundTrip(Bytes(stop, HexValue(q.address), q.size));
    }
  }

  // ---------------------------------------------------------------- what a fresh row must show

  /** The exact value of a proved storage at `stop`. */
  ghost predicate Shows(stop: Stop, storage: Storage, width: int, value: string)
  {
    && SupportedWidth(width)
    && match storage
       case Unproven => false
       case Constant(c) => ShowsWindow(value, c, 0, width)
       case Register(spec) =>
         spec.full in stop.regs && ShowsWindow(value, stop.regs[spec.full], spec.offset, width)
       case Stack(offset) =>
         && "rsp" in stop.regs && stop.regs["rsp"] + offset >= 0 && Readable(stop, stop.regs["rsp"] + offset, width)
         && ShowsBytes(value, Bytes(stop, stop.regs["rsp"] + offset, width))
  }

  /** A register at an entry shows an argument: its low bytes, or all of it if the size is not that of a number. */
  ghost predicate ShowsPassed(stop: Stop, register: string, size: int, value: string)
  {
    && register in stop.regs
    && if ExactWidth(size) then ShowsWindow(value, stop.regs[register], 0, size) else value == Hex(stop.regs[register])
  }

  /** The slot at `rsp + offset` shows an argument; eight bytes if the size is not that of a number. */
  ghost predicate ShowsSlot(stop: Stop, offset: nat, size: int, value: string)
  {
    var width := if ExactWidth(size) then size else 8;
    && "rsp" in stop.regs && Readable(stop, stop.regs["rsp"] + offset, width)
    && ShowsBytes(value, Bytes(stop, stop.regs["rsp"] + offset, width))
  }

  /**
    The exact value of an argument when `stop` is its function's entry, by the Windows x64
    convention: the first four are passed in registers, and every argument has a slot of
    eight bytes behind the return address.
   */
  ghost predicate ArgumentShows(stop: Stop, v: Variable, value: string)
  {
    v.isArg && v.argIndex.Some? && PlaceShows(stop, v.argIndex.value, v.size, value)
  }

  ghost predicate PlaceShows(stop: Stop, place: nat, size: int, value: string)
  {
    match place
    case 0 => ShowsPassed(stop, "rcx", size, value)
    case 1 => ShowsPassed(stop, "rdx", size, value)
    case 2 => ShowsPassed(stop, "r8", size, value)
    case 3 => ShowsPassed(stop, "r9", size, value)
    case _ => ShowsSlot(stop, 8 + 8 * place, size, value)
  }
}

/** The local planner shows only what is so at the stop of its context. */
module TrueLocals {
  import opened Basics
  import opened Values
  import opened RecoveryModel
  import opened RecoveryRuns
  import opened Target

  ghost predicate RowsTrue(stop: Stop, st: Planner)
  {
    forall i :: i in st.records && st.records[i].status == Fresh ==>
      i in st.evidence && Shows(stop, st.evidence[i], st.records[i].width, st.records[i].value)
  }

  /** A pending memory request reads the slot of its row, at the address that `rsp` gives at `stop`. */
  ghost predicate ReadsSlot(stop: Stop, st: Planner, p: Pending)
  {
    && |p.indexes| == 1 && p.indexes[0] in st.records && p.indexes[0] in st.evidence
    && match st.evidence[p.indexes[0]]
       case Stack(offset) =>
         && "rsp" in stop.regs && stop.regs["rsp"] + offset >= 0
         && p.address == Hex(stop.regs["rsp"] + offset) && p.size == st.records[p.indexes[0]].width
       case _ => false
  }

  ghost predicate PendingTrue(stop: Stop, st: Planner)
  {
    forall id :: id in st.pending && st.pending[id].memory ==> ReadsSlot(stop, st, st.pending[id])
  }

  ghost predicate AllTrue(stop: Stop, st: Planner)
  {
    RowsTrue(stop, st) && PendingTrue(stop, st)
  }

  // ---------------------------------------------------------------- a new context

  /** What planning shows at once is the constant. */
  lemma DecidedShows(stop: Stop, storage: Storage, ok: bool, size: int)
    ensures Decide(ok, storage, size).Show? ==> Shows(stop, storage, size, Decide(ok, storage, size).text)
  {
    if storage.Constant? && size >= 0 {
      MaskShows(storage.value, size);
    }
  }

  lemma PlanRowTrue(stop: Stop, plan: Plan, v: Variable, ok: bool, selected: set<nat>, runtimePc: string, pcSeq: nat)
    requires RowsTrue(stop, plan.st)
    ensures RowsTrue(stop, PlanRow(plan, v, ok, selected, runtimePc, pcSeq).st)
    ensures PlanRow(plan, v, ok, selected, runtimePc, pcSeq).st.pending == plan.st.pending
  {
    var st' := PlanRow(plan, v, ok, selected, runtimePc, pcSeq).st;
    DecidedShows(stop, StorageFor(plan.st, ok, selected, v.index), ok, v.size);
    assert forall i :: i in st'.records && i != v.index ==>
      i in plan.st.records && st'.records[i] == plan.st.records[i];
    assert st'.records[v.index].status == Fresh ==>
        Shows(stop, st'.evidence[v.index], st'.records[v.index].width, st'.records[v.index].value);
  }

  lemma {:induction false} PlannedRowsTrue(stop: Stop, plan: Plan, vs: seq<Variable>, ok: bool, selected: set<nat>,
                                           runtimePc: string, pcSeq: nat)
    requires RowsTrue(stop, plan.st)
    ensures RowsTrue(stop, PlanRows(plan, vs, ok, selected, runtimePc, pcSeq).st)
    ensures PlanRows(plan, vs, ok, selected, runtimePc, pcSeq).st.pending == plan.st.pending
    decreases |vs|
  {
    if vs != [] {
      PlannedRowsTrue(stop, plan, vs[..|vs| - 1], ok, selected, runtimePc, pcSeq);
      PlanRowTrue(stop, PlanRows(plan, vs[..|vs| - 1], ok, selected, runtimePc, pcSeq), vs[|vs| - 1], ok, selected,
                  runtimePc, pcSeq);
    }
  }

  /** A new context starts with true constants only, for any stop. */
  lemma BeginIsTrue(stop: Stop, st: Planner, vs: seq<Variable>, selected: set<nat>, analysis: Analysis,
                    runtimePc: string, pcSeq: nat)
    ensures AllTrue(stop, BeginPc(st, vs, selected, analysis, runtimePc, pcSeq).0)
  {
    var start := StartContext(st, runtimePc, pcSeq).(evidence := analysis.evidence, sources := Locals(vs));
    PlannedRowsTrue(stop, Plan(start, {}, []), Locals(vs), analysis.ok, selected, runtimePc, pcSeq);
    var plan := PlanContext(st, vs, selected, analysis, runtimePc, pcSeq);
    var st' := BeginPc(st, vs, selected, analysis, runtimePc, pcSeq).0;
    assert st'.records == plan.st.records && st'.evidence == plan.st.evidence;
  }

  // ---------------------------------------------------------------- responses

  /** Changing one row to a true fresh value, or to a failed one, keeps the planner true. */
  lemma RowChangeTrue(stop: Stop, st: Planner, st': Planner, index: nat)
    requires AllTrue(stop, st) && index in st.records && index in st.evidence
    requires st'.evidence == st.evidence && st'.pending == st.pending && st'.records.Keys == st.records.Keys
    requires forall i :: i in st.records && i != index ==> st'.records[i] == st.records[i]
    requires st'.records[index].width == st.records[index].width
    requires st'.records[index].status == Fresh ==>
             Shows(stop, st.evidence[index], st'.records[index].width, st'.records[index].value)
    ensures AllTrue(stop, st')
  {
    forall id | id in st'.pending && st'.pending[id].memory
      ensures ReadsSlot(stop, st', st'.pending[id])
    {
      assert ReadsSlot(stop, st, st.pending[id]);
    }
  }

  lemma RegRowTrue(stop: Stop, a: Applied, p: Pending, r: Response, index: nat)
    requires AllTrue(stop, a.st) && RowsCurrent(a.st) && r.ok && r.registers.Some? && Truthful(stop, RegAnswer(r))
    ensures AllTrue(stop, ApplyRegRow(a, p, r.registers.value, index).st)
  {
    if index in a.st.records && index in a.st.evidence {
      match a.st.evidence[index] {
        case Register(_) =>
          RegisterTextShows(stop, r, a.st.evidence[index], a.st.records[index].width);
          RowChangeTrue(stop, a.st, ApplyRegRow(a, p, r.registers.value, index).st, index);
        case Stack(_) => StackRowTrue(stop, a, p, r, index);
        case _ =>
      }
    }
  }

  /** The text of a truthful register is the window of its sub-register. */
  lemma RegisterTextShows(stop: Stop, r: Response, storage: Storage, width: int)
    requires storage.Register? && r.ok && r.registers.Some? && Truthful(stop, RegAnswer(r))
    ensures var text := RegisterText(r.registers.value, storage.spec, width);
            text.Some? ==> Shows(stop, storage, width, text.value)
  {
    if RegisterText(r.registers.value, storage.spec, width).Some? {
      ExtractShows(stop.regs[storage.spec.full], storage.spec.offset, width);
    }
  }

  lemma StackRowTrue(stop: Stop, a: Applied, p: Pending, r: Response, index: nat)
    requires AllTrue(stop, a.st) && RowsCurrent(a.st) && r.ok && r.registers.Some? && Truthful(stop, RegAnswer(r))
    requires index in a.st.records && index in a.st.evidence && a.st.evidence[index].Stack?
    ensures AllTrue(stop, ApplyRegRow(a, p, r.registers.value, index).st)
  {
    var a' := ApplyRegRow(a, p, r.registers.value, index);
    var address := StackAddress(r.registers.value, a.st.evidence[index].offset);
    if address.None? {
      RowChangeTrue(stop, a.st, a'.st, index);
    } else {
      var asked := MemPending(p, index, address.value, a.st.records[index].width);
      assert ReadsSlot(stop, a.st, asked);
      forall id | id in a'.st.pending && a'.st.pending[id].memory
        ensures ReadsSlot(stop, a'.st, a'.st.pending[id])
      {
        assert a'.st.pending[id] == asked || ReadsSlot(stop, a.st, a.st.pending[id]);
      }
    }
  }

  lemma {:induction false} RegRowsTrue(stop: Stop, start: Planner, p: Pending, r: Response, indexes: seq<nat>)
    requires AllTrue(stop, start) && RowsCurrent(start) && HistoryBounded(start) && OnlyMemory(start)
    requires Distinct(indexes)
    requires start.pcSeq == Some(p.pcSeq) && start.runtimePc == p.runtimePc
    requires r.ok && r.registers.Some? && Truthful(stop, RegAnswer(r))
    ensures AllTrue(stop, ApplyRegRows(Applied(start, []), p, r.registers.value, indexes).st)
    decreases |indexes|
  {
    if indexes != [] {
      LastIsNew(indexes);
      var init := indexes[..|indexes| - 1];
      RegRowsTrue(stop, start, p, r, init);
      RegRowsKeep(start, p, r.registers.value, init);
      RegRowTrue(stop, ApplyRegRows(Applied(start, []), p, r.registers.value, init), p, r, indexes[|indexes| - 1]);
    }
  }

  lemma {:induction false} FailRowsTrue(stop: Stop, st: Planner, indexes: seq<nat>)
    requires AllTrue(stop, st)
    ensures AllTrue(stop, FailRows(st, indexes))
    decreases |indexes|
  {
    if indexes != [] {
      var init, index := indexes[..|indexes| - 1], indexes[|indexes| - 1];
      FailRowsTrue(stop, st, init);
      var before := FailRows(st, init);
      if index in before.records {
        forall id | id in before.pending && before.pending[id].memory
          ensures ReadsSlot(stop, FailRows(st, indexes), before.pending[id])
        {
          assert ReadsSlot(stop, before, before.pending[id]);
        }
      }
    }
  }

  /** A truthful register answer leaves only true rows and true addresses. */
  lemma RegisterResponseTrue(stop: Stop, st: Planner, r: Response)
    requires Good(st) && AllTrue(stop, st) && Truthful(stop, RegAnswer(r))
    ensures AllTrue(stop, ApplyReg(st, r).1)
  {
    var c := Correlated(st, r, false);
    if c.Some? {
      var p, start := c.value, Take(st, r.id.value);
      assert IsCurrent(st, r.id.value, p);
      TakeRegisterRequest(st, r);
      if r.ok && r.registers.Some? {
        RegRowsTrue(stop, start, p, r, p.indexes);
      } else {
        FailRowsTrue(stop, start, p.indexes);
      }
    }
  }

  /** The text decoded from a truthful answer at the slot's address is the slot's value. */
  lemma SlotText(stop: Stop, offset: int, r: Response, size: int)
    requires "rsp" in stop.regs && stop.regs["rsp"] + offset >= 0 && r.address == Hex(stop.regs["rsp"] + offset)
    requires r.ok && Truthful(stop, MemAnswer(r))
    ensures MemoryText(r.bytesHex, size).Some? ==> Shows(stop, Stack(offset), size, MemoryText(r.bytesHex, size).value)
  {
    HexRoundTrip(stop.regs["rsp"] + offset);
    if MemoryText(r.bytesHex, size).Some? {
      LittleEndianShows(FromHex(r.bytesHex).value);
    }
  }

  lemma TakeTrue(stop: Stop, st: Planner, id: string)
    requires AllTrue(stop, st)
    ensures AllTrue(stop, Take(st, id))
  {
    forall other | other in Take(st, id).pending && st.pending[other].memory
      ensures ReadsSlot(stop, Take(st, id), st.pending[other])
    {
      assert ReadsSlot(stop, st, st.pending[other]);
    }
  }

  lemma MemRowTrue(stop: Stop, st: Planner, p: Pending, r: Response)
    requires AllTrue(stop, st) && RowsCurrent(st) && ReadsSlot(stop, st, p)
    requires Truthful(stop, MemAnswer(r)) && r.address == p.address
    ensures AllTrue(stop, ApplyMemRow(st, p, r, p.indexes[0]))
  {
    var index := p.indexes[0];
    var text := if r.ok then MemoryText(r.bytesHex, p.size) else None;
    if text.Some? {
      SlotText(stop, st.evidence[index].offset, r, p.size);
      RowChangeTrue(stop, st, MarkFresh(st, st.records[index], text.value), index);
    } else {
      RowChangeTrue(stop, st, FailRow(st, index), index);
    }
  }

  /** Accepting a memory response means applying it to the one row of its request. */
  lemma MemoryResponseRow(st: Planner, r: Response)
    requires Good(st) && ApplyMem(st, r).0
    ensures Correlated(st, r, true).Some?
    ensures var p := Correlated(st, r, true).value;
            && p.memory && |p.indexes| == 1 && (r.address == "" || r.address == p.address)
            && ApplyMem(st, r).1 == ApplyMemRow(Take(st, r.id.value), p, r, p.indexes[0])
  {
    var p, start := Correlated(st, r, true).value, Take(st, r.id.value);
    assert IsCurrent(st, r.id.value, p);
    assert p.indexes == [p.indexes[0]] && p.indexes[..0] == [];
    assert ApplyMemRows(start, p, r, []) == start;
  }

  lemma TakenSlot(stop: Stop, st: Planner, r: Response)
    requires Good(st) && AllTrue(stop, st) && ApplyMem(st, r).0
    ensures ReadsSlot(stop, Take(st, r.id.value), Correlated(st, r, true).value) && RowsCurrent(Take(st, r.id.value))
  {
    assert ReadsSlot(stop, st, Correlated(st, r, true).value);
  }

  /** A truthful memory answer shows the bytes of the slot its row is proved to occupy. */
  lemma MemoryResponseTrue(stop: Stop, st: Planner, r: Response)
    requires Good(st) && AllTrue(stop, st) && Truthful(stop, MemAnswer(r)) && r.address != ""
    ensures AllTrue(stop, ApplyMem(st, r).1)
  {
    if ApplyMem(st, r).0 {
      MemoryResponseRow(st, r);
      TakenSlot(stop, st, r);
      TakeTrue(stop, st, r.id.value);
      MemRowTrue(stop, Take(st, r.id.value), Correlated(st, r, true).value, r);
    }
  }
}
