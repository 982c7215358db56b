/** No waiting row is lost: complete answers, in any order, make every waiting row fresh. */
module RecoveryProgress {
  import opened Basics
  import opened Values
  import opened RecoveryModel
  import opened RecoveryRuns

  // ---------------------------------------------------------------- what a context asks for

  /** Every local whose storage is proved and whose width can be shown is among the waiting rows. */
  lemma {:induction false} AwaitedRowsWait(start: Planner, vs: seq<Variable>, ok: bool, selected: set<nat>,
                                           runtimePc: string, pcSeq: nat, v: Variable)
    requires v in vs && Decide(ok, StorageFor(start, ok, selected, v.index), v.size).Await?
    ensures v.index in PlanRows(Plan(start, {}, []), vs, ok, selected, runtimePc, pcSeq).waiting
    decreases |vs|
  {
    var init, last := vs[..|vs| - 1], vs[|vs| - 1];
    assert vs == init + [last];
    EvidenceStays(start, init, ok, selected, runtimePc, pcSeq);
    if v in init {
      AwaitedRowsWait(start, init, ok, selected, runtimePc, pcSeq, v);
    }
  }

  lemma {:induction false} EvidenceStays(start: Planner, vs: seq<Variable>, ok: bool, selected: set<nat>,
                                         runtimePc: string, pcSeq: nat)
    ensures PlanRows(Plan(start, {}, []), vs, ok, selected, runtimePc, pcSeq).st.evidence == start.evidence
    decreases |vs|
  {
    if vs != [] {
      EvidenceStays(start, vs[..|vs| - 1], ok, selected, runtimePc, pcSeq);
    }
  }

  /** The planner has asked for `p`, and the requested registers cover every row of `p`. */
  ghost predicate Asked(st: Planner, p: Pending)
  {
    && Good(st) && st.pcSeq == Some(p.pcSeq) && !p.memory && Distinct(p.indexes)
    && st.pending == map[RegId(p.pcSeq) := p]
    && forall i :: i in p.indexes ==> Awaits(st, p.registers, i)
  }

  /** A new context with something to read asks for registers that cover all its waiting rows. */
  lemma BeginAsks(st: Planner, vs: seq<Variable>, selected: set<nat>, analysis: Analysis, runtimePc: string, pcSeq: nat)
    requires Good(st) && DistinctIndexes(Locals(vs))
    ensures var (st', request) := BeginPc(st, vs, selected, analysis, runtimePc, pcSeq);
            if request.None? then
              forall v :: v in Locals(vs) ==>
                !Decide(analysis.ok, StorageFor(st', analysis.ok, selected, v.index), v.size).Await?
            else
              && RegId(pcSeq) in st'.pending && Asked(st', st'.pending[RegId(pcSeq)])
              && request.value == RegRequest(pcSeq, RegId(pcSeq), runtimePc, st'.pending[RegId(pcSeq)].registers)
              && forall v :: v in Locals(vs)
                             && Decide(analysis.ok, StorageFor(st', analysis.ok, selected, v.index), v.size).Await?
                   ==> v.index in st'.pending[RegId(pcSeq)].indexes
  {
    var start := StartContext(st, runtimePc, pcSeq).(evidence := analysis.evidence, sources := Locals(vs));
    var plan := PlanContext(st, vs, selected, analysis, runtimePc, pcSeq);
    var st' := BeginPc(st, vs, selected, analysis, runtimePc, pcSeq).0;
    BeginStepKeeps(st, vs, selected, analysis, runtimePc, pcSeq);
    PlanRowsKeep(start, Locals(vs), analysis.ok, selected, runtimePc, pcSeq);
    forall v | v in Locals(vs) && Decide(analysis.ok, StorageFor(st', analysis.ok, selected, v.index), v.size).Await?
      ensures v.index in plan.waiting
    {
      AwaitedRowsWait(start, Locals(vs), analysis.ok, selected, runtimePc, pcSeq, v);
    }
    if plan.needed != {} {
      forall i | i in plan.waiting
        ensures Awaits(st', plan.needed, i)
      {
        assert Awaits(plan.st, plan.needed, i);
      }
    }
  }

  // ---------------------------------------------------------------- the register answer

  /** The response answers `p` with a number for each register, and stack addresses stay in range. */
  ghost predicate AnswersRegisters(st: Planner, p: Pending, r: Response)
  {
    && Correlated(st, r, false) == Some(p) && r.ok && r.registers.Some?
    && (forall name :: name in p.registers ==> RegisterNumber(r.registers.value, name).Some?)
    && (forall i :: i in p.indexes && i in st.evidence && st.evidence[i].Stack? ==>
          StackAddress(r.registers.value, st.evidence[i].offset).Some?)
  }

  /** Row `i` is fresh, or its exact-width memory request is pending. */
  ghost predicate Settled(st: Planner, pcSeq: nat, i: nat)
  {
    && i in st.records
    && (|| st.records[i].status == Fresh
        || (MemId(pcSeq, i) in st.pending && st.pending[MemId(pcSeq, i)].indexes == [i]))
  }

  ghost predicate WidthsSupported(st: Planner)
  {
    forall id :: id in st.pending ==> SupportedWidth(st.pending[id].size)
  }

  lemma RegRowSettles(a: Applied, p: Pending, registers: map<string, Raw>, index: nat)
    requires Awaits(a.st, p.registers, index) && RowsCurrent(a.st) && WidthsSupported(a.st)
    requires forall name :: name in p.registers ==> RegisterNumber(registers, name).Some?
    requires a.st.evidence[index].Stack? ==> StackAddress(registers, a.st.evidence[index].offset).Some?
    ensures Settled(ApplyRegRow(a, p, registers, index).st, p.pcSeq, index)
    ensures WidthsSupported(ApplyRegRow(a, p, registers, index).st)
    ensures forall i :: i != index && Settled(a.st, p.pcSeq, i) ==>
            Settled(ApplyRegRow(a, p, registers, index).st, p.pcSeq, i)
  {
    forall i: nat | i != index
      ensures MemId(p.pcSeq, i) != MemId(p.pcSeq, index)
    {
      MemIdsDiffer(p.pcSeq, i, index);
    }
  }

  lemma {:induction false} RegRowsSettle(start: Planner, p: Pending, registers: map<string, Raw>, indexes: seq<nat>)
    requires RowsCurrent(start) && HistoryBounded(start) && start.pending == map[] && Distinct(indexes)
    requires start.pcSeq == Some(p.pcSeq) && start.runtimePc == p.runtimePc
    requires forall name :: name in p.registers ==> RegisterNumber(registers, name).Some?
    requires forall i :: i in indexes ==> Awaits(start, p.registers, i)
    requires forall i :: i in indexes && i in start.evidence && start.evidence[i].Stack? ==>
             StackAddress(registers, start.evidence[i].offset).Some?
    ensures forall i :: i in indexes ==> Settled(ApplyRegRows(Applied(start, []), p, registers, indexes).st, p.pcSeq, i)
    ensures WidthsSupported(ApplyRegRows(Applied(start, []), p, registers, indexes).st)
    decreases |indexes|
  {
    if indexes != [] {
      LastIsNew(indexes);
      var init, index := indexes[..|indexes| - 1], indexes[|indexes| - 1];
      RegRowsSettle(start, p, registers, init);
      RegRowsKeep(start, p, registers, init);
      var a := ApplyRegRows(Applied(start, []), p, registers, init);
      assert Awaits(start, p.registers, index);
      assert a.st.records[index] == start.records[index];
      RegRowSettles(a, p, registers, index);
      forall i | i in indexes
        ensures Settled(ApplyRegRow(a, p, registers, index).st, p.pcSeq, i)
      {
        assert i == index || i in init;
      }
    }
  }

  /** After a complete register answer every waiting row is fresh or waits for its own memory read. */
  lemma RegisterAnswerSettles(st: Planner, p: Pending, r: Response)
    requires Asked(st, p) && AnswersRegisters(st, p, r)
    ensures ApplyReg(st, r).0 && Good(ApplyReg(st, r).1) && OnlyMemory(ApplyReg(st, r).1)
    ensures WidthsSupported(ApplyReg(st, r).1)
    ensures ApplyReg(st, r).1.pcSeq == Some(p.pcSeq)
    ensures forall i :: i in p.indexes ==> Settled(ApplyReg(st, r).1, p.pcSeq, i)
  {
    RegStepKeeps(st, r);
    TakeRegisterRequest(st, r);
    var start := Take(st, r.id.value);
    assert IsCurrent(st, RegId(p.pcSeq), p);
    forall i | i in p.indexes
      ensures Awaits(start, p.registers, i)
    {
      assert Awaits(st, p.registers, i);
    }
    RegRowsSettle(start, p, r.registers.value, p.indexes);
    RegRowsKeep(start, p, r.registers.value, p.indexes);
  }

  // ---------------------------------------------------------------- the memory answers

  /** The response answers request `p` completely, whenever it is processed in this context. */
  ghost predicate AnswersMemory(st: Planner, p: Pending, r: Response)
  {
    && r.pcSeq == Some(p.pcSeq) && r.id == Some(p.id) && (r.runtimePc == "" || r.runtimePc == st.runtimePc)
    && r.ok && (r.address == "" || r.address == p.address) && (r.size.None? || r.size.value == p.size)
    && FromHex(r.bytesHex).Some? && |FromHex(r.bytesHex).value| == p.size
  }

  function ApplyAll(st: Planner, answers: seq<Response>): Planner
    decreases |answers|
  {
    if answers == [] then st else ApplyAll(ApplyMem(st, answers[0]).1, answers[1..])
  }

  lemma MemoryAnswerSettles(st: Planner, pcSeq: nat, r: Response)
    requires Good(st) && OnlyMemory(st) && WidthsSupported(st) && st.pcSeq == Some(pcSeq)
    requires r.id.Some? && r.id.value in st.pending && AnswersMemory(st, st.pending[r.id.value], r)
    ensures var st' := ApplyMem(st, r).1;
            && Good(st') && OnlyMemory(st') && WidthsSupported(st') && st'.pcSeq == Some(pcSeq)
            && st'.runtimePc == st.runtimePc
            && st'.pending == st.pending - {r.id.value}
            && forall i :: Settled(st, pcSeq, i) ==> Settled(st', pcSeq, i)
  {
    MemStepKeeps(st, r);
    var p, start := st.pending[r.id.value], Take(st, r.id.value);
    assert IsCurrent(st, r.id.value, p);
    MemRowsKeepPending(start, p, r, p.indexes);
    var index := p.indexes[0];
    assert p.indexes == [index] && p.indexes[..0] == [];
    assert ApplyMemRows(start, p, r, []) == start;
    var st' := ApplyMem(st, r).1;
    assert st' == ApplyMemRow(start, p, r, index);
    assert index in st.records ==> st'.records[index].status == Fresh;
    forall i | Settled(st, pcSeq, i)
      ensures Settled(st', pcSeq, i)
    {
      if i != index {
        MemIdsDiffer(pcSeq, i, index);
      }
    }
  }

  /** The answer is to a pending request, and complete. */
  ghost predicate AnswersPending(st: Planner, r: Response)
  {
    r.id.Some? && r.id.value in st.pending && AnswersMemory(st, st.pending[r.id.value], r)
  }

  ghost predicate Answered(answers: seq<Response>, id: string)
  {
    exists k :: 0 <= k < |answers| && answers[k].id == Some(id)
  }

  ghost predicate CompleteAnswers(st: Planner, answers: seq<Response>)
  {
    && (forall k :: 0 <= k < |answers| ==> AnswersPending(st, answers[k]))
    && (forall j, k :: 0 <= j < k < |answers| ==> answers[j].id != answers[k].id)
    && (forall id :: id in st.pending ==> Answered(answers, id))
  }

  lemma OtherAnswerStays(st: Planner, st': Planner, first: Response, r: Response)
    requires AnswersPending(st, first) && AnswersPending(st, r) && r.id != first.id
    requires st'.pending == st.pending - {first.id.value} && st'.runtimePc == st.runtimePc
    ensures AnswersPending(st', r)
  {
  }

  lemma OtherIdAnswered(answers: seq<Response>, id: string)
    requires answers != [] && Answered(answers, id) && answers[0].id != Some(id)
    ensures Answered(answers[1..], id)
  {
    var k :| 0 <= k < |answers| && answers[k].id == Some(id);
    assert answers[1..][k - 1].id == Some(id);
  }

  lemma RestIsComplete(st: Planner, st': Planner, answers: seq<Response>)
    requires answers != [] && CompleteAnswers(st, answers)
    requires st'.pending == st.pending - {answers[0].id.value} && st'.runtimePc == st.runtimePc
    ensures CompleteAnswers(st', answers[1..])
  {
    var rest := answers[1..];
    forall k | 0 <= k < |rest| ensures AnswersPending(st', rest[k]) {
      assert rest[k] == answers[k + 1];
      OtherAnswerStays(st, st', answers[0], answers[k + 1]);
    }
    forall id | id in st'.pending ensures Answered(rest, id) {
      OtherIdAnswered(answers, id);
    }
  }

  /** Answers to all pending memory requests, in any order, leave nothing pending and every settled row fresh. */
  lemma {:induction false} MemoryAnswersFinish(st: Planner, pcSeq: nat, answers: seq<Response>)
    requires Good(st) && OnlyMemory(st) && WidthsSupported(st) && st.pcSeq == Some(pcSeq)
    requires CompleteAnswers(st, answers)
    ensures ApplyAll(st, answers).pending == map[]
    ensures forall i :: Settled(st, pcSeq, i) ==>
            i in ApplyAll(st, answers).records && ApplyAll(st, answers).records[i].status == Fresh
    decreases |answers|
  {
    if answers == [] {
      assert st.pending == map[];
    } else {
      MemoryAnswerSettles(st, pcSeq, answers[0]);
      RestIsComplete(st, ApplyMem(st, answers[0]).1, answers);
      MemoryAnswersFinish(ApplyMem(st, answers[0]).1, pcSeq, answers[1..]);
    }
  }

  /**
    No waiting row is lost: a number for every requested register, followed by the exact
    memory answers in any order, makes every waiting row fresh and empties the table.
   */
  lemma NoWaitingRowIsLost(st: Planner, p: Pending, r: Response, answers: seq<Response>)
    requires Asked(st, p) && AnswersRegisters(st, p, r)
    requires CompleteAnswers(ApplyReg(st, r).1, answers)
    ensures ApplyAll(ApplyReg(st, r).1, answers).pending == map[]
    ensures forall i :: i in p.indexes ==>
              i in ApplyAll(ApplyReg(st, r).1, answers).records
                && ApplyAll(ApplyReg(st, r).1, answers).records[i].status == Fresh
  {
    RegisterAnswerSettles(st, p, r);
    MemoryAnswersFinish(ApplyReg(st, r).1, p.pcSeq, answers);
  }
}
