/**
  No row is forgotten: in both planners every row that has to be read is fresh, failed, or
  named by a pending request, and it fails only if an answer did not give what was asked.
 */
module Attendance {
  import opened Basics
  import opened Values
  import opened RecoveryModel
  import opened RecoveryRuns
  import A = EntryArguments
  import AR = ArgumentRows
  import RP = RecoveryProgress
  import RR = RecoveryRows
  import TA = TrueArguments

  // ---------------------------------------------------------------- locals

  /** The row's storage is proved, and its value has to be read. */
  predicate NeedsRead(row: Record)
  {
    && ExactWidth(row.width)
    && match row.storage
       case Register(spec) => row.width <= spec.width
       case Stack(_) => true
       case _ => false
  }

  /** A register request covers the rows that wait for it; a memory request is as wide as a number. */
  ghost predicate PendingFit(st: Planner, p: Pending)
  {
    if p.memory then ExactWidth(p.size) else forall i :: i in p.indexes ==> Awaits(st, p.registers, i)
  }

  ghost predicate LocalFit(st: Planner)
  {
    && Good(st) && (forall i :: i in st.records && NeedsRead(st.records[i]) ==> StorageKnown(st, i))
    && forall id :: id in st.pending ==> PendingFit(st, st.pending[id])
  }

  ghost predicate StorageKnown(st: Planner, i: nat)
    requires i in st.records
  {
    i in st.evidence && st.evidence[i] == st.records[i].storage
  }

  ghost predicate NamedPending(st: Planner, i: nat)
  {
    exists id :: id in st.pending && i in st.pending[id].indexes
  }

  ghost predicate RowAttended(st: Planner, i: nat, failing: bool)
    requires i in st.records
  {
    st.records[i].status == Fresh || (failing && st.records[i].status == Failed) || NamedPending(st, i)
  }

  /** Every row that has to be read is fresh or named by a pending request; or failed, if that is allowed. */
  ghost predicate LocalsAttended(st: Planner, failing: bool)
  {
    forall i :: i in st.records && NeedsRead(st.records[i]) ==> RowAttended(st, i, failing)
  }

  /** The rows keep what identifies them. */
  ghost predicate SameRows(st: Planner, st': Planner)
  {
    && st'.records.Keys == st.records.Keys && st'.evidence == st.evidence
    && forall i :: i in st.records ==>
         st'.records[i].width == st.records[i].width && st'.records[i].storage == st.records[i].storage
  }

  lemma ContextIsFit(st: Planner, vs: seq<Variable>, selected: set<nat>, analysis: Analysis, runtimePc: string,
                     pcSeq: nat)
    requires Good(st) && DistinctIndexes(Locals(vs))
    ensures var st' := BeginPc(st, vs, selected, analysis, runtimePc, pcSeq).0;
            && LocalFit(st') && LocalsAttended(st', false)
            && forall v :: v in Locals(vs) && RR.Waits(analysis, selected, v) ==>
                 v.index in st'.records && NeedsRead(st'.records[v.index])
  {
    var st' := BeginPc(st, vs, selected, analysis, runtimePc, pcSeq).0;
    BeginStepKeeps(st, vs, selected, analysis, runtimePc, pcSeq);
    ContextPending(st, vs, selected, analysis, runtimePc, pcSeq);
    forall i | i in st'.records && NeedsRead(st'.records[i])
      ensures StorageKnown(st', i) && RowAttended(st', i, false)
    {
      var k := RowOfContext(st, vs, selected, analysis, runtimePc, pcSeq, i);
      LocalOfContext(st, vs, selected, analysis, runtimePc, pcSeq, k);
    }
    forall v | v in Locals(vs) && RR.Waits(analysis, selected, v)
      ensures v.index in st'.records && NeedsRead(st'.records[v.index])
    {
      var k :| 0 <= k < |Locals(vs)| && Locals(vs)[k] == v;
      LocalOfContext(st, vs, selected, analysis, runtimePc, pcSeq, k);
    }
  }

  /** Every row of a new context is that of a local. */
  lemma RowOfContext(st: Planner, vs: seq<Variable>, selected: set<nat>, analysis: Analysis, runtimePc: string,
                     pcSeq: nat, i: nat) returns (k: nat)
    requires Good(st) && DistinctIndexes(Locals(vs))
    requires i in BeginPc(st, vs, selected, analysis, runtimePc, pcSeq).0.records
    ensures k < |Locals(vs)| && Locals(vs)[k].index == i
  {
    PlanRowsKeep(RR.Started(st, vs, analysis, runtimePc, pcSeq), Locals(vs), analysis.ok, selected, runtimePc, pcSeq);
    k :| k < |Locals(vs)| && Locals(vs)[k].index == i;
  }

  /** The row of a local needs a read exactly if the local waits, and is then named by the request. */
  lemma LocalOfContext(st: Planner, vs: seq<Variable>, selected: set<nat>, analysis: Analysis, runtimePc: string,
                       pcSeq: nat, k: nat)
    requires Good(st) && DistinctIndexes(Locals(vs)) && k < |Locals(vs)|
    ensures var st', v := BeginPc(st, vs, selected, analysis, runtimePc, pcSeq).0, Locals(vs)[k];
            && v.index in st'.records && (NeedsRead(st'.records[v.index]) <==> RR.Waits(analysis, selected, v))
            && (NeedsRead(st'.records[v.index]) ==> StorageKnown(st', v.index) && NamedPending(st', v.index))
  {
    var st', v := BeginPc(st, vs, selected, analysis, runtimePc, pcSeq).0, Locals(vs)[k];
    RR.RowsOfContext(st, vs, selected, analysis, runtimePc, pcSeq, k);
    RowWaits(st'.records[v.index], v, analysis, selected);
    RR.PlanCollects(RR.Started(st, vs, analysis, runtimePc, pcSeq), Locals(vs), analysis, selected, runtimePc, pcSeq);
    if RR.Waits(analysis, selected, v) {
      RR.ContextAsksFor(st, vs, selected, analysis, runtimePc, pcSeq);
      assert v in Locals(vs) && v.index in st'.pending[RegId(pcSeq)].indexes;
    }
  }

  /** The request of a new context covers the rows that wait for it. */
  lemma ContextPending(st: Planner, vs: seq<Variable>, selected: set<nat>, analysis: Analysis, runtimePc: string,
                       pcSeq: nat)
    requires Good(st) && DistinctIndexes(Locals(vs))
    ensures var st' := BeginPc(st, vs, selected, analysis, runtimePc, pcSeq).0;
            forall id :: id in st'.pending ==> PendingFit(st', st'.pending[id])
  {
    RR.ContextAsksFor(st, vs, selected, analysis, runtimePc, pcSeq);
    RP.BeginAsks(st, vs, selected, analysis, runtimePc, pcSeq);
  }

  lemma RowWaits(row: Record, v: Variable, analysis: Analysis, selected: set<nat>)
    requires row.width == v.size && row.storage == RR.ProvedStorage(analysis, selected, v)
    ensures NeedsRead(row) <==> RR.Waits(analysis, selected, v)
    ensures NeedsRead(row) ==> v.index in analysis.evidence && analysis.evidence[v.index] == row.storage
  {
    if NeedsRead(row) {
      assert RR.WaitsFor(analysis, selected, v, if row.storage.Register? then row.storage.spec.full else "rsp");
    }
  }

  /** The answer gives every register that was asked for, and all stack slots lie inside the address space. */
  ghost predicate RegistersGiven(st: Planner, r: Response)
  {
    var p := Correlated(st, r, false);
    p.Some? ==>
      && (forall name :: name in p.value.registers ==> exists n :: RR.Gives(r, name, n))
      && forall i, n :: i in st.evidence && st.evidence[i].Stack? && RR.Gives(r, "rsp", n) ==>
           0 <= n + st.evidence[i].offset < QUAD
  }

  ghost predicate BytesGiven(st: Planner, r: Response)
  {
    ApplyMem(st, r).0 ==> exists bytes :: RR.GivesBytes(Correlated(st, r, true).value, r, bytes)
  }

  lemma AnsweredRowIsAttended(st: Planner, r: Response, i: nat, failing: bool)
    requires LocalFit(st) && LocalsAttended(st, failing) && i in st.records && NeedsRead(st.records[i])
    requires Correlated(st, r, false).Some? && (failing || RegistersGiven(st, r))
    ensures i in ApplyReg(st, r).1.records && RowAttended(ApplyReg(st, r).1, i, failing)
  {
    var p, st' := Correlated(st, r, false).value, ApplyReg(st, r).1;
    RR.RegisterAnswerOutcome(st, r, i);
    if i in p.indexes {
      assert Awaits(st, p.registers, i) by {
        assert PendingFit(st, p);
      }
      if r.ok && r.registers.Some? {
        AwaitedRowIsAttended(st, st', ApplyReg(st, r).2, p, r, i, failing);
      } else if !failing {
        NothingGiven(st, r, p, i);
      }
    } else if NamedPending(st, i) {
      OnlyRequestNames(st, r, i);
    }
  }

  /** The register request is the only one pending, so it names every row that is named. */
  lemma OnlyRequestNames(st: Planner, r: Response, i: nat)
    requires Good(st) && Correlated(st, r, false).Some? && NamedPending(st, i)
    ensures i in Correlated(st, r, false).value.indexes
  {
    TakeRegisterRequest(st, r);
    var id :| id in st.pending && i in st.pending[id].indexes;
    assert id !in Take(st, r.id.value).pending;
  }

  lemma NothingGiven(st: Planner, r: Response, p: Pending, i: nat)
    requires Correlated(st, r, false) == Some(p) && Awaits(st, p.registers, i) && RegistersGiven(st, r)
    ensures r.ok && r.registers.Some?
  {
    var name := if st.evidence[i].Register? then st.evidence[i].spec.full else "rsp";
    assert name in p.registers;
    var n :| RR.Gives(r, name, n);
  }

  lemma AwaitedRowIsAttended(st: Planner, st': Planner, requests: seq<Request>, p: Pending, r: Response, i: nat,
                             failing: bool)
    requires Correlated(st, r, false) == Some(p) && Awaits(st, p.registers, i) && NeedsRead(st.records[i])
    requires StorageKnown(st, i) && i in st'.records && RR.RowAnswered(st, st', requests, p, r, i)
    requires failing || RegistersGiven(st, r)
    ensures RowAttended(st', i, failing)
  {
    if st.evidence[i].Register? {
      assert !failing ==> exists n :: RR.Gives(r, st.evidence[i].spec.full, n);
    } else {
      assert !failing ==> exists n :: RR.Gives(r, "rsp", n);
      if r.registers.Some? && RegisterNumber(r.registers.value, "rsp").Some? && !HasFailedRow(st, st', i) {
        assert i in st'.pending[MemId(p.pcSeq, i)].indexes;
      }
    }
  }

  predicate HasFailedRow(st: Planner, st': Planner, i: nat)
    requires i in st.records && i in st'.records
  {
    RR.HasFailed(st.records[i], st'.records[i])
  }

  /** A register answer leaves every row attended. */
  lemma RegisterAnswerAttends(st: Planner, r: Response, failing: bool)
    requires LocalFit(st) && LocalsAttended(st, failing) && (failing || RegistersGiven(st, r))
    ensures LocalsAttended(ApplyReg(st, r).1, failing) && SameRows(st, ApplyReg(st, r).1)
  {
    SameRowsAfterRegisters(st, r);
    var st' := ApplyReg(st, r).1;
    if Correlated(st, r, false).Some? {
      forall i | i in st'.records && NeedsRead(st'.records[i]) ensures RowAttended(st', i, failing) {
        AnsweredRowIsAttended(st, r, i, failing);
      }
    }
  }

  lemma SameRowsAfterRegisters(st: Planner, r: Response)
    requires LocalFit(st)
    ensures SameRows(st, ApplyReg(st, r).1)
  {
    var st' := ApplyReg(st, r).1;
    RegStepKeeps(st, r);
    var done :| RowsKept(st, st', done);
    if Correlated(st, r, false).Some? {
      forall i | i in st.records
        ensures st'.records[i].width == st.records[i].width && st'.records[i].storage == st.records[i].storage
      {
        RR.RegisterAnswerOutcome(st, r, i);
        assert PendingFit(st, Correlated(st, r, false).value);
      }
    }
  }

  /** Slots are asked for only as wide as a number. */
  lemma {:induction false} SlotRowsAreNumbers(start: Planner, p: Pending, registers: map<string, Raw>,
                                              indexes: seq<nat>)
    requires RowsCurrent(start) && HistoryBounded(start) && Distinct(indexes) && OnlyMemory(start)
    requires start.pcSeq == Some(p.pcSeq) && start.runtimePc == p.runtimePc
    requires forall i :: i in indexes ==> Awaits(start, p.registers, i)
    ensures forall q :: q in ApplyRegRows(Applied(start, []), p, registers, indexes).requests ==>
              q.MemRequest? && ExactWidth(q.size)
    decreases |indexes|
  {
    if indexes != [] {
      LastIsNew(indexes);
      var init, last := indexes[..|indexes| - 1], indexes[|indexes| - 1];
      SlotRowsAreNumbers(start, p, registers, init);
      RegRowsKeep(start, p, registers, init);
      var a := ApplyRegRows(Applied(start, []), p, registers, init);
      RR.SameRowBefore(start, a.st, Elements(init), last);
      assert Awaits(start, p.registers, last);
    }
  }

  lemma SlotsAreNumbers(st: Planner, r: Response)
    requires LocalFit(st)
    ensures forall q :: q in ApplyReg(st, r).2 ==> q.MemRequest? && ExactWidth(q.size)
  {
    var c := Correlated(st, r, false);
    if c.Some? && r.ok && r.registers.Some? {
      var start := Take(st, r.id.value);
      assert IsCurrent(st, r.id.value, c.value) && PendingFit(st, c.value);
      TakeRegisterRequest(st, r);
      forall i | i in c.value.indexes ensures Awaits(start, c.value.registers, i) {
        assert Awaits(st, c.value.registers, i);
      }
      SlotRowsAreNumbers(start, c.value, r.registers.value, c.value.indexes);
    }
  }

  /** A register answer leaves the planner fit. */
  lemma RegisterAnswerFits(st: Planner, r: Response)
    requires LocalFit(st)
    ensures LocalFit(ApplyReg(st, r).1)
  {
    var (accepted, st', requests) := ApplyReg(st, r);
    RegStepKeeps(st, r);
    SameRowsAfterRegisters(st, r);
    SlotsAreNumbers(st, r);
    forall i | i in st'.records && NeedsRead(st'.records[i]) ensures StorageKnown(st', i) {
      assert StorageKnown(st, i);
    }
    if accepted {
      forall id | id in st'.pending ensures PendingFit(st', st'.pending[id]) {
        PendingIsBooked(st, r, id);
      }
    }
  }

  lemma PendingIsBooked(st: Planner, r: Response, id: string)
    requires Good(st) && ApplyReg(st, r).0 && id in ApplyReg(st, r).1.pending
    ensures ApplyReg(st, r).1.pending[id].memory && RR.RequestOf(ApplyReg(st, r).1.pending[id]) in ApplyReg(st, r).2
  {
    var p := Correlated(st, r, false).value;
    AnswerIsBooked(st, r);
    assert RR.RequestOf(ApplyReg(st, r).1.pending[id]) in ApplyReg(st, r).2;
  }

  lemma AnswerIsBooked(st: Planner, r: Response)
    requires Good(st) && ApplyReg(st, r).0
    ensures RR.Booked(Applied(ApplyReg(st, r).1, ApplyReg(st, r).2))
  {
    var p, start := Correlated(st, r, false).value, Take(st, r.id.value);
    assert IsCurrent(st, r.id.value, p);
    TakeRegisterRequest(st, r);
    if r.ok && r.registers.Some? {
      RR.RegRowsBook(start, p, r.registers.value, p.indexes);
    } else {
      FailRowsKeepPending(start, p.indexes);
    }
  }

  /** A memory answer leaves every row attended, and the planner fit. */
  lemma MemoryAnswerAttends(st: Planner, r: Response, failing: bool)
    requires LocalFit(st) && LocalsAttended(st, failing) && (failing || BytesGiven(st, r))
    ensures LocalsAttended(ApplyMem(st, r).1, failing) && SameRows(st, ApplyMem(st, r).1) && LocalFit(ApplyMem(st, r).1)
  {
    var (accepted, st') := ApplyMem(st, r);
    RR.MemoryAnswerOutcome(st, r);
    MemStepKeeps(st, r);
    var done :| RowsKept(st, st', done);
    if accepted {
      var p := Correlated(st, r, true).value;
      MemoryLeavesOnlyMemory(st, r);
      forall i | i in st'.records && NeedsRead(st'.records[i]) ensures RowAttended(st', i, failing) {
        StillNamed(st, st', r, p, i, failing);
      }
      forall i | i in st'.records && NeedsRead(st'.records[i]) ensures StorageKnown(st', i) {
        assert StorageKnown(st, i);
      }
    }
  }

  lemma MemoryLeavesOnlyMemory(st: Planner, r: Response)
    requires LocalFit(st) && ApplyMem(st, r).0
    ensures forall id :: id in ApplyMem(st, r).1.pending ==>
              && id in st.pending && st.pending[id].memory && ApplyMem(st, r).1.pending[id] == st.pending[id]
              && ExactWidth(st.pending[id].size)
  {
    RR.MemoryAnswerOutcome(st, r);
    forall id | id in ApplyMem(st, r).1.pending ensures st.pending[id].memory && ExactWidth(st.pending[id].size) {
      assert st.pending[r.id.value].memory && PendingFit(st, st.pending[id]);
    }
  }

  lemma StillNamed(st: Planner, st': Planner, r: Response, p: Pending, i: nat, failing: bool)
    requires Good(st) && Correlated(st, r, true) == Some(p) && |p.indexes| == 1
    requires st'.pending == st.pending - {r.id.value} && i in st.records && i in st'.records
    requires RowAttended(st, i, failing)
    requires i != p.indexes[0] ==> st'.records[i] == st.records[i]
    requires i == p.indexes[0] ==> st'.records[i].status == Fresh || (failing && st'.records[i].status == Failed)
    ensures RowAttended(st', i, failing)
  {
    if i != p.indexes[0] && NamedPending(st, i) {
      var id :| id in st.pending && i in st.pending[id].indexes;
      assert id != r.id.value;
      assert id in st'.pending && i in st'.pending[id].indexes;
    }
  }

  // ---------------------------------------------------------------- arguments

  /** The register request covers all arguments; a stack request is for one name, under its own id. */
  ghost predicate ArgPendingFit(core: A.Core, pcSeq: nat, p: A.ArgPending)
  {
    if p.memory then AR.SlotNamed(p, pcSeq)
    else
      && p.id == ArgRegId(pcSeq)
      && forall i, name :: 0 <= i < |core.rows| && AR.NeedsRegister(core.rows[i].v, name) ==> name in p.registers
  }

  ghost predicate ArgumentsFit(core: A.Core)
  {
    && A.OnlyAtEntry(core) && (core.context.Some? && core.context.value.atEntry ==> TA.DistinctRows(core.rows))
    && forall id :: id in core.pending ==> ArgPendingFit(core, core.context.value.pcSeq, core.pending[id])
  }

  /** The argument is fresh, waits for the registers, or waits for its own slot; or it failed, if that is allowed. */
  ghost predicate ArgumentAttended(core: A.Core, row: A.Row, pcSeq: nat, failing: bool)
  {
    || row.status == Fresh || (failing && row.status == Failed) || ArgRegId(pcSeq) in core.pending
    || (A.OnStack(row.v) && ArgMemId(pcSeq, row.v.name) in core.pending)
  }

  ghost predicate ArgumentsAttended(core: A.Core, failing: bool)
  {
    core.context.Some? && core.context.value.atEntry ==>
      forall i :: 0 <= i < |core.rows| && A.IsArgument(core.rows[i].v) ==>
        ArgumentAttended(core, core.rows[i], core.context.value.pcSeq, failing)
  }

  /** The same variables in the same context. */
  ghost predicate SameArguments(core: A.Core, core': A.Core)
  {
    && core'.context == core.context && |core'.rows| == |core.rows|
    && forall i :: 0 <= i < |core.rows| ==> core'.rows[i].v == core.rows[i].v
  }

  lemma EntryIsFit(core: A.Core, vs: seq<Variable>, context: A.Context)
    requires TA.DistinctNames(vs)
    ensures var core' := A.BuildEntryPlan(core, vs, context).0;
            && ArgumentsFit(core') && ArgumentsAttended(core', false) && core'.context == Some(context)
            && |core'.rows| == |vs| && forall i :: 0 <= i < |vs| ==> core'.rows[i].v == vs[i]
  {
    AR.EntryAsksFor(core, vs, context);
    EntryTableFits(core, vs, context);
    forall i | 0 <= i < |vs| && A.IsArgument(vs[i]) && context.atEntry
      ensures ArgRegId(context.pcSeq) in A.BuildEntryPlan(core, vs, context).0.pending
    {
      assert vs[i] in vs;
    }
  }

  lemma EntryTableFits(core: A.Core, vs: seq<Variable>, context: A.Context)
    ensures var core' := A.BuildEntryPlan(core, vs, context).0;
            && A.OnlyAtEntry(core') && core'.context == Some(context)
            && forall id :: id in core'.pending ==> ArgPendingFit(core', context.pcSeq, core'.pending[id])
  {
    AR.EntryAsksFor(core, vs, context);
    var core' := A.BuildEntryPlan(core, vs, context).0;
    forall id | id in core'.pending ensures ArgPendingFit(core', context.pcSeq, core'.pending[id]) {
      forall i, name | 0 <= i < |core'.rows| && AR.NeedsRegister(core'.rows[i].v, name)
        ensures name in core'.pending[id].registers
      {
        assert vs[i] in vs;
      }
    }
  }

  /** The answer is a success, and gives every register that was asked for. */
  ghost predicate EntryRegistersGiven(core: A.Core, r: Response)
  {
    var p := A.ArgCorrelated(core, r, false);
    p.Some? ==> forall name :: name in p.value.registers ==> AR.Gives(r, name)
  }

  ghost predicate Successful(r: Response)
  {
    r.ok && r.registers.Some?
  }

  lemma AnsweredArgument(core: A.Core, r: Response, i: nat, failing: bool)
    requires ArgumentsFit(core) && A.ArgCorrelated(core, r, false).Some? && Successful(r)
    requires i < |core.rows| && A.IsArgument(core.rows[i].v) && (failing || EntryRegistersGiven(core, r))
    ensures var core', pcSeq := A.ApplyArgReg(core, r).1, core.context.value.pcSeq;
            |core'.rows| == |core.rows| && ArgumentAttended(core', core'.rows[i], pcSeq, failing)
  {
    var p, v := A.ArgCorrelated(core, r, false).value, core.rows[i].v;
    AR.RegisterAnswerOutcome(core, r);
    var name := if A.InRegister(v) then A.EntryRegister(v.argIndex.value) else "rsp";
    AR.PlaceRegister(v, name);
    assert name in p.registers by {
      assert ArgPendingFit(core, core.context.value.pcSeq, p);
    }
    assert !failing ==> AR.Gives(r, name);
  }

  lemma ArgumentRegistersAttend(core: A.Core, r: Response, failing: bool)
    requires ArgumentsFit(core) && ArgumentsAttended(core, failing)
    requires A.ArgCorrelated(core, r, false).Some? ==> Successful(r) && (failing || EntryRegistersGiven(core, r))
    ensures var core' := A.ApplyArgReg(core, r).1;
            ArgumentsFit(core') && ArgumentsAttended(core', failing) && SameArguments(core, core')
  {
    if A.ArgCorrelated(core, r, false).Some? {
      var core' := A.ApplyArgReg(core, r).1;
      A.StepOnlyAtEntry(core, A.Reg(r));
      AR.RegisterAnswerOutcome(core, r);
      forall i | 0 <= i < |core'.rows| && A.IsArgument(core'.rows[i].v)
        ensures ArgumentAttended(core', core'.rows[i], core.context.value.pcSeq, failing)
      {
        AnsweredArgument(core, r, i, failing);
      }
      forall id | id in core'.pending ensures ArgPendingFit(core', core.context.value.pcSeq, core'.pending[id]) {
        AnsweredTableFits(core, r, id);
      }
    }
  }

  lemma AnsweredTableFits(core: A.Core, r: Response, id: string)
    requires ArgumentsFit(core) && A.ArgCorrelated(core, r, false).Some? && Successful(r)
    requires id in A.ApplyArgReg(core, r).1.pending
    ensures ArgPendingFit(A.ApplyArgReg(core, r).1, core.context.value.pcSeq, A.ApplyArgReg(core, r).1.pending[id])
  {
    AR.RegisterAnswerOutcome(core, r);
    var (_, core', requests) := A.ApplyArgReg(core, r);
    var left := core.pending - {r.id.value};
    if id in left && core'.pending[id] == left[id] {
      assert ArgPendingFit(core, core.context.value.pcSeq, core.pending[id]);
    } else {
      assert AR.OldOrAsked(left, A.Issued(core'.pending, requests), id);
      var q := AR.RequestOf(core'.pending[id]);
      assert AR.InTable(A.Issued(core'.pending, requests), core.context.value.pcSeq, q);
      A.StepOnlyAtEntry(core, A.Reg(r));
      assert core'.pending[id].id == id;
    }
  }

  /** The answer is a success whenever it is for a current request. */
  ghost predicate SlotGiven(core: A.Core, r: Response)
  {
    A.ArgCorrelated(core, r, true).Some? ==> r.ok
  }

  lemma ArgumentMemoryAttends(core: A.Core, r: Response, failing: bool)
    requires ArgumentsFit(core) && ArgumentsAttended(core, failing) && (failing || SlotGiven(core, r))
    ensures var core' := A.ApplyArgMem(core, r).1;
            ArgumentsFit(core') && ArgumentsAttended(core', failing) && SameArguments(core, core')
  {
    var c := A.ArgCorrelated(core, r, true);
    if c.Some? {
      var core', pcSeq := A.ApplyArgMem(core, r).1, core.context.value.pcSeq;
      A.StepOnlyAtEntry(core, A.Mem(r));
      AR.MemoryAnswerOutcome(core, r);
      assert ArgPendingFit(core, pcSeq, c.value);
      forall i | 0 <= i < |core'.rows| && A.IsArgument(core'.rows[i].v)
        ensures ArgumentAttended(core', core'.rows[i], pcSeq, failing)
      {
        ArgumentStillAttended(core, core', r, c.value, i, failing);
      }
      forall id | id in core'.pending ensures ArgPendingFit(core', pcSeq, core'.pending[id]) {
        assert ArgPendingFit(core, pcSeq, core.pending[id]);
      }
    }
  }

  lemma ArgumentStillAttended(core: A.Core, core': A.Core, r: Response, p: A.ArgPending, i: nat, failing: bool)
    requires core.context.Some? && r.id.Some? && r.id.value == p.id && AR.SlotNamed(p, core.context.value.pcSeq)
    requires core'.pending == core.pending - {r.id.value} && i < |core.rows| == |core'.rows|
    requires core'.rows[i].v == core.rows[i].v
    requires core.rows[i].v.name !in p.names ==> core'.rows[i] == core.rows[i]
    requires core.rows[i].v.name in p.names ==>
               core'.rows[i].status == Fresh || (failing && core'.rows[i].status == Failed)
    requires ArgumentAttended(core, core.rows[i], core.context.value.pcSeq, failing)
    ensures ArgumentAttended(core', core'.rows[i], core.context.value.pcSeq, failing)
  {
    var pcSeq := core.context.value.pcSeq;
    IdKindsDiffer(pcSeq, 0, p.names[0]);
    ArgMemIdsDiffer(pcSeq, core.rows[i].v.name, p.names[0]);
  }
}
