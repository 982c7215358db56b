/**
  From the defining instruction to the row: the static proofs about the program and the
  safety of the protocol together say what a fresh value is.
 */
module EndToEnd {
  import opened Graphs
  import opened Cfg
  import opened Values
  import opened RegisterSurvival
  import opened RecoveryModel
  import opened Target
  import opened ProtocolModel
  import opened Protocol
  import K = StackSlot
  import RD = ReachingDefinitions
  import opened Bits

  /** After the run, IDA shows local `i` as fresh, and `stop` is the one announced under the row's `pc_seq`. */
  ghost predicate FreshAtStop(now: Stop, maxHistory: int, actions: seq<Action>, i: nat, stop: Stop)
  {
    && EnabledRun(Start(now, maxHistory), actions) && AgreeingRun(Start(now, maxHistory), actions)
    && var w := RunWorld(Start(now, maxHistory), actions);
       && i in w.node.planner.records && i in w.node.planner.evidence && w.node.planner.records[i].status == Fresh
       && 1 <= w.node.planner.records[i].pcSeq <= |w.log| && stop == w.log[w.node.planner.records[i].pcSeq - 1]
  }

  function RowAfter(now: Stop, maxHistory: int, actions: seq<Action>, i: nat): Record
    requires i in RunWorld(Start(now, maxHistory), actions).node.planner.records
  {
    RunWorld(Start(now, maxHistory), actions).node.planner.records[i]
  }

  function EvidenceAfter(now: Stop, maxHistory: int, actions: seq<Action>, i: nat): Storage
    requires i in RunWorld(Start(now, maxHistory), actions).node.planner.evidence
  {
    RunWorld(Start(now, maxHistory), actions).node.planner.evidence[i]
  }

  lemma FreshRow(now: Stop, maxHistory: int, actions: seq<Action>, i: nat, stop: Stop)
    requires FreshAtStop(now, maxHistory, actions, i, stop)
    ensures var row := RowAfter(now, maxHistory, actions, i);
            row.runtimePc == Hex(stop.pc)
              && Shows(stop, EvidenceAfter(now, maxHistory, actions, i), row.width, row.value)
  {
    FreshIsTrue(now, maxHistory, actions);
    assert TrueLocal(RunWorld(Start(now, maxHistory), actions), i);
  }

  // ---------------------------------------------------------------- constants

  /** Whenever the execution runs the site, it leaves the low `width` bytes of `c` in the variable. */
  ghost predicate StoresConstant(cfg: RD.Program, site: RD.Site, c: int, width: int, e: seq<State>, values: seq<int>)
    requires |values| == |e|
  {
    forall k :: 0 <= k < |e| - 1 && Executes(cfg, e[k], e[k + 1]) && e[k] == (site.block, site.index) ==>
      SameLowBytes(values[k + 1], c, width)
  }

  ghost predicate SameLowBytes(v: int, c: int, width: int)
  {
    forall i: nat :: i < 8 * width ==> (Bit(v, i) <==> Bit(c, i))
  }

  /**
    A fresh constant local shows the variable. If its reaching-definition query was
    accepted with a site that stores the constant, then on every execution to the queried
    point that enters at a block without predecessors or defines the variable, the text
    is the variable's value there, which that site stored.
   */
  lemma FreshConstantIsTheDefinedOne(now: Stop, maxHistory: int, actions: seq<Action>, i: nat, stop: Stop, c: int,
                                     cfg: RD.Program, point: State, r: RD.Result, e: seq<State>, values: seq<int>)
    returns (j: int)
    requires FreshAtStop(now, maxHistory, actions, i, stop)
    requires EvidenceAfter(now, maxHistory, actions, i) == Constant(c)
    requires RD.Accepted(cfg, point, r) && Reciprocal(cfg) && Execution(cfg, Forward, e) && e[|e| - 1] == point
    requires RD.EntersOrDefines(cfg, e) && RD.Holds(cfg, e, values)
    requires StoresConstant(cfg, r.definitions[0], c, RowAfter(now, maxHistory, actions, i).width, e, values)
    ensures RD.LastDefinition(cfg, e, j, r.definitions[0]) && values[|e| - 1] == values[j + 1]
    ensures var row := RowAfter(now, maxHistory, actions, i);
            row.width > 0 && ShowsWindow(row.value, values[|e| - 1], 0, row.width)
  {
    FreshRow(now, maxHistory, actions, i, stop);
    j := RD.AcceptedValueIsTheDefinedOne(cfg, point, r, e, values);
    var row := RowAfter(now, maxHistory, actions, i);
    assert SameLowBytes(values[j + 1], c, row.width);
    SameWindow(row.value, c, values[j + 1], 0, row.width);
  }

  // ---------------------------------------------------------------- registers

  /** The native execution `e`, with these register files, ends at the stop. */
  ghost predicate EndsAt(cfg: Native, e: seq<State>, regs: seq<Registers>, stop: Stop)
  {
    && Execution(cfg, Forward, e) && Runs(cfg, e, regs)
    && forall name :: name in stop.regs ==> regs[|e| - 1](name) == stop.regs[name]
  }

  /** The execution entered the function at its start, or executed the definition. */
  ghost predicate CarriesDefinition(cfg: Native, d: State, e: seq<State>)
    requires Execution(cfg, Forward, e)
  {
    (e[0].1 == 0 && cfg[e[0].0].predecessors == [])
      || exists k :: 0 <= k < |e| - 1 && Executes(cfg, e[k], e[k + 1]) && e[k] == d
  }

  /**
    A fresh register local shows what its defining instruction left. If the evidence is
    the storage of a query that found no reason to reject, then on every execution that
    ends at the stop, and that entered the function at its start or executed the
    definition, the text is the number of the bits that the sub-register held right after
    the last execution of the definition.
   */
  lemma FreshRegisterIsTheDefinedOne(now: Stop, maxHistory: int, actions: seq<Action>, i: nat, stop: Stop,
                                     cfg: Native, q: Query, d: State, c: State, e: seq<State>, regs: seq<Registers>)
    returns (j: int)
    requires FreshAtStop(now, maxHistory, actions, i, stop)
    requires EvidenceAfter(now, maxHistory, actions, i) == Register(q.spec)
    requires RowAfter(now, maxHistory, actions, i).width == q.width
    requires Survives(cfg, q, d, c) && Reciprocal(cfg)
    requires EndsAt(cfg, e, regs, stop) && e[|e| - 1] == c && CarriesDefinition(cfg, d, e)
    ensures LastWrite(cfg, q, e, j)
    ensures ShowsWindow(RowAfter(now, maxHistory, actions, i).value, regs[j + 1](q.spec.full), q.spec.offset, q.width)
  {
    FreshRow(now, maxHistory, actions, i, stop);
    j := RegisterValueIsTheDefinedOne(cfg, q, d, c, e, regs);
    var full := q.spec.full;
    SameExtract(RowAfter(now, maxHistory, actions, i).value, stop.regs[full], regs[j + 1](full), q.spec.offset,
                q.width);
  }

  // ---------------------------------------------------------------- stack slots

  /** The frame's bytes from `slot` on are the target's bytes from `rsp + offset` on. */
  ghost predicate FrameAt(stop: Stop, offset: int, width: int, slot: int, memory: K.Memory)
  {
    "rsp" in stop.regs &&
    var at := stop.regs["rsp"] + offset;
    forall a :: at <= a < at + width && a in stop.mem ==> memory(slot + (a - at)) == stop.mem[a]
  }

  /** `_stack_definition_remains_valid` accepts. */
  ghost predicate ScanAccepts(code: K.Code, ea: int, currentEa: int, slot: int, width: int)
  {
    exists m: nat :: K.Accepts(code, ea, currentEa, slot, width, m)
  }

  lemma SlotBytes(stop: Stop, offset: int, width: nat, code: K.Code, ea: int, currentEa: int, slot: int, n: nat,
                  mems: seq<K.Memory>, k: nat)
    requires "rsp" in stop.regs && stop.regs["rsp"] + offset >= 0 && Readable(stop, stop.regs["rsp"] + offset, width)
    requires ScanAccepts(code, ea, currentEa, slot, width)
    requires n > 0 && K.Address(code, ea, n) == currentEa && K.Execution(code, ea, n, mems)
    requires FrameAt(stop, offset, width, slot, mems[n]) && k < width
    ensures ea in code && Bytes(stop, stop.regs["rsp"] + offset, width)[k] == mems[1](slot + k)
    ensures K.MayChange(code[ea], slot + k)
  {
    FrameByte(stop, offset, width, slot, mems[n], k);
    K.AcceptedSlotIsTheDefinedOne(code, ea, currentEa, slot, width, n, mems, slot + k);
  }

  lemma FrameByte(stop: Stop, offset: int, width: nat, slot: int, memory: K.Memory, k: nat)
    requires "rsp" in stop.regs && stop.regs["rsp"] + offset >= 0 && Readable(stop, stop.regs["rsp"] + offset, width)
    requires FrameAt(stop, offset, width, slot, memory) && k < width
    ensures Bytes(stop, stop.regs["rsp"] + offset, width)[k] == memory(slot + k)
  {
    var at := stop.regs["rsp"] + offset;
    assert at + k in stop.mem && slot + (at + k - at) == slot + k;
  }

  /** These are the bytes of the slot right after the first instruction, which writes each of them. */
  ghost predicate StoredFirst(code: K.Code, ea: int, slot: int, mems: seq<K.Memory>, bytes: seq<Byte>)
  {
    && ea in code && |mems| > 1
    && forall k :: 0 <= k < |bytes| ==> bytes[k] == mems[1](slot + k) && K.MayChange(code[ea], slot + k)
  }

  /**
    A fresh stack local shows what its defining instruction stored. If the scan accepted
    and the decode chain has a boundary at the PC, then on every execution of the chain
    that ends at the stop, the text is the number whose bits are those of the bytes right
    after the first instruction, lowest byte first, and that instruction writes each of them.
   */
  lemma FreshSlotIsTheDefinedOne(now: Stop, maxHistory: int, actions: seq<Action>, i: nat, stop: Stop, offset: int,
                                 code: K.Code, ea: int, currentEa: int, slot: int, n: nat, mems: seq<K.Memory>)
    returns (bytes: seq<Byte>)
    requires FreshAtStop(now, maxHistory, actions, i, stop)
    requires EvidenceAfter(now, maxHistory, actions, i) == Stack(offset)
    requires ScanAccepts(code, ea, currentEa, slot, RowAfter(now, maxHistory, actions, i).width)
    requires n > 0 && K.Address(code, ea, n) == currentEa && K.Execution(code, ea, n, mems)
    requires FrameAt(stop, offset, RowAfter(now, maxHistory, actions, i).width, slot, mems[n])
    ensures ShowsBytes(RowAfter(now, maxHistory, actions, i).value, bytes)
    ensures |bytes| == RowAfter(now, maxHistory, actions, i).width && StoredFirst(code, ea, slot, mems, bytes)
  {
    FreshRow(now, maxHistory, actions, i, stop);
    var row := RowAfter(now, maxHistory, actions, i);
    bytes := SlotValue(stop, offset, row.width, row.value, code, ea, currentEa, slot, n, mems);
  }

  /** The shown text of a slot is the number of the bytes its definition stored. */
  lemma SlotValue(stop: Stop, offset: int, width: int, value: string,
                  code: K.Code, ea: int, currentEa: int, slot: int, n: nat, mems: seq<K.Memory>)
    returns (bytes: seq<Byte>)
    requires Shows(stop, Stack(offset), width, value) && ScanAccepts(code, ea, currentEa, slot, width)
    requires n > 0 && K.Address(code, ea, n) == currentEa && K.Execution(code, ea, n, mems)
    requires FrameAt(stop, offset, width, slot, mems[n])
    ensures ShowsBytes(value, bytes) && |bytes| == width && StoredFirst(code, ea, slot, mems, bytes)
  {
    bytes := Bytes(stop, stop.regs["rsp"] + offset, width);
    SlotIsStored(stop, offset, width, code, ea, currentEa, slot, n, mems);
  }

  lemma SlotIsStored(stop: Stop, offset: int, width: nat, code: K.Code, ea: int, currentEa: int, slot: int, n: nat,
                     mems: seq<K.Memory>)
    requires "rsp" in stop.regs && stop.regs["rsp"] + offset >= 0 && Readable(stop, stop.regs["rsp"] + offset, width)
    requires width > 0
    requires ScanAccepts(code, ea, currentEa, slot, width)
    requires n > 0 && K.Address(code, ea, n) == currentEa && K.Execution(code, ea, n, mems)
    requires FrameAt(stop, offset, width, slot, mems[n])
    ensures StoredFirst(code, ea, slot, mems, Bytes(stop, stop.regs["rsp"] + offset, width))
  {
    var bytes := Bytes(stop, stop.regs["rsp"] + offset, width);
    SlotBytes(stop, offset, width, code, ea, currentEa, slot, n, mems, 0);
    forall k | 0 <= k < |bytes|
      ensures bytes[k] == mems[1](slot + k) && K.MayChange(code[ea], slot + k)
    {
      SlotBytes(stop, offset, width, code, ea, currentEa, slot, n, mems, k);
    }
  }
}
