/** What every run of the local-variable planner keeps: correlation, bounded history, provenance. */
module RecoveryRuns {
  import opened Basics
  import opened Values
  import opened RecoveryModel
  import opened RecoveryHistory

  datatype Event =
    | Begin(vs: seq<Variable>, selected: set<nat>, analysis: Analysis, runtimePc: string, pcSeq: nat)
    | Invalidate(runtimePc: string, pcSeq: nat)
    | Clear
    | Reg(r: Response)
    | Mem(r: Response)

  function Step(st: Planner, ev: Event): Planner
  {
    match ev
    case Begin(vs, selected, analysis, runtimePc, pcSeq) => BeginPc(st, vs, selected, analysis, runtimePc, pcSeq).0
    case Invalidate(runtimePc, pcSeq) => StartContext(st, runtimePc, pcSeq)
    case Clear => ClearRuntimeState(st)
    case Reg(r) => ApplyReg(st, r).1
    case Mem(r) => ApplyMem(st, r).1
  }

  function Run(st: Planner, evs: seq<Event>): Planner
    decreases |evs|
  {
    if evs == [] then st else Step(Run(st, evs[..|evs| - 1]), evs[|evs| - 1])
  }

  // ---------------------------------------------------------------- invariants

  /** Hex-Rays numbers its locals: no two share an index. */
  ghost predicate DistinctIndexes(vs: seq<Variable>)
  {
    forall i, j :: 0 <= i < j < |vs| ==> vs[i].index != vs[j].index
  }

  ghost predicate Legal(ev: Event)
  {
    ev.Begin? ==> DistinctIndexes(Locals(ev.vs))
  }

  ghost predicate RowsCurrent(st: Planner)
  {
    forall i :: i in st.records ==>
      st.records[i].index == i && st.pcSeq == Some(st.records[i].pcSeq) && st.records[i].runtimePc == st.runtimePc
  }

  /** A pending request belongs to the current context and is stored under its own, well-formed id. */
  ghost predicate IsCurrent(st: Planner, id: string, p: Pending)
  {
    && st.pcSeq == Some(p.pcSeq) && p.id == id && p.runtimePc == st.runtimePc && Distinct(p.indexes)
    && if p.memory then |p.indexes| == 1 && id == MemId(p.pcSeq, p.indexes[0]) else id == RegId(p.pcSeq)
  }

  ghost predicate PendingCurrent(st: Planner)
  {
    && (forall id :: id in st.pending ==> IsCurrent(st, id, st.pending[id]))
    && (forall id, other :: id in st.pending && other in st.pending && st.pending[id].memory ==>
       st.pending[other].memory)
  }

  ghost predicate HistoryBounded(st: Planner)
  {
    1 <= st.maxHistory && |st.history| <= st.maxHistory && DistinctKeys(st.history)
  }

  ghost predicate Good(st: Planner)
  {
    RowsCurrent(st) && PendingCurrent(st) && HistoryBounded(st)
  }

  /** The context of a planner: everything a response leaves alone. */
  ghost predicate SameContext(a: Planner, b: Planner)
  {
    && a.maxHistory == b.maxHistory && a.evidence == b.evidence && a.pcSeq == b.pcSeq && a.runtimePc == b.runtimePc
    && a.sources == b.sources
  }

  /** A row shows exactly this observation as current. */
  ghost predicate FreshAt(st: Planner, x: (Key, Observation))
  {
    && x.0.1 in st.records
    && var r := st.records[x.0.1];
       && r.status == Fresh && r.functionStart == x.0.0
       && x.1 == Observation(r.name, r.width, r.typ, DefeaOf(st.sources, x.0.1), r.value, r.pcSeq)
  }

  /** Every entry is inherited from `past`, or its row has been processed and shows it as current. */
  ghost predicate Accounted(past: History, st: Planner, done: set<nat>)
  {
    forall x :: x in st.history ==> x in past || (x.0.1 in done && FreshAt(st, x))
  }

  /** The observation that a stale row repeats. */
  ghost predicate Repeats(st: Planner, i: nat, x: (Key, Observation))
    requires i in st.records
  {
    var r := st.records[i];
    && x.0 == (r.functionStart, i) && x.1.value == r.value
    && x.1.name == r.name && x.1.width == r.width && x.1.typ == r.typ && x.1.defea == DefeaOf(st.sources, i)
  }

  /** A stale row repeats an observation of `past` made for the same variable. */
  ghost predicate BackedBy(past: History, st: Planner, i: nat)
    requires i in st.records
  {
    exists x :: x in past && Repeats(st, i, x)
  }

  // ---------------------------------------------------------------- one row

  /** Marking the row of a new index fresh keeps every account. */
  lemma MarkFreshKeeps(past: History, st: Planner, done: set<nat>, r: Record, value: string)
    requires HistoryBounded(st) && Accounted(past, st, done)
    requires r.index !in done
    ensures HistoryBounded(MarkFresh(st, r, value)) && SameContext(st, MarkFresh(st, r, value))
    ensures Accounted(past, MarkFresh(st, r, value), done + {r.index})
  {
    var key, o := (r.functionStart, r.index), Observe(st.sources, r, value);
    RecordSpec(st.history, st.maxHistory, key, o);
    var st' := MarkFresh(st, r, value);
    forall x | x in st'.history
      ensures x in past || (x.0.1 in done + {r.index} && FreshAt(st', x))
    {
      if x == (key, o) {
        assert FreshAt(st', x);
      } else {
        assert x in st.history;
        assert x in past || FreshAt(st, x);
      }
    }
  }

  /** Changing the row of a new index otherwise keeps every account. */
  lemma SetRowKeeps(past: History, st: Planner, done: set<nat>, r: Record)
    requires Accounted(past, st, done) && r.index !in done
    ensures Accounted(past, SetRow(st, r), done + {r.index})
  {
    forall x | x in st.history && x.0.1 in done && FreshAt(st, x)
      ensures FreshAt(SetRow(st, r), x)
    {
    }
  }

  // ---------------------------------------------------------------- planning a context

  ghost function Indexes(vs: seq<Variable>): set<nat>
  {
    set v | v in vs :: v.index
  }

  lemma {:induction false} DefeaIsOwn(vs: seq<Variable>, k: nat)
    requires DistinctIndexes(vs) && k < |vs|
    ensures DefeaOf(vs, vs[k].index) == vs[k].defea
  {
    if k > 0 {
      assert vs[0].index != vs[k].index;
      assert vs[1..][k - 1] == vs[k];
      DefeaIsOwn(vs[1..], k - 1);
    }
  }

  /** Row `i` waits for registers that the request asks for, with a width that can be shown. */
  ghost predicate Awaits(st: Planner, needed: set<string>, i: nat)
  {
    && i in st.records && i in st.evidence && SupportedWidth(st.records[i].width)
    && match st.evidence[i]
       case Register(spec) => spec.full in needed && st.records[i].width <= spec.width
       case Stack(_) => "rsp" in needed
       case _ => false
  }

  /** The rows of `done` are planned in the context of `start`, and the history is accounted for. */
  ghost predicate RowsPlanned(start: Planner, st: Planner, done: set<nat>)
  {
    && SameContext(start, st) && st.pending == start.pending && RowsCurrent(st) && HistoryBounded(st)
    && st.records.Keys == done && Accounted(start.history, st, done)
  }

  ghost predicate StaleBacked(past: History, st: Planner)
  {
    forall i :: i in st.records && st.records[i].status == Stale ==> BackedBy(past, st, i)
  }

  /** The waiting rows are distinct and the needed registers cover each of them. */
  ghost predicate WaitsCovered(plan: Plan)
  {
    && Distinct(plan.waiting) && (forall i :: i in plan.waiting ==> Awaits(plan.st, plan.needed, i))
    && (plan.needed == {} ==> plan.waiting == [])
  }

  /** The facts that planning the rows `vs` of a context establishes. */
  ghost predicate Planned(start: Planner, plan: Plan, vs: seq<Variable>)
  {
    RowsPlanned(start, plan.st, Indexes(vs)) && StaleBacked(start.history, plan.st) && WaitsCovered(plan)
  }

  /** Adding the row of a new index, fresh or not, keeps the planned rows. */
  lemma AddRowKeeps(start: Planner, st: Planner, done: set<nat>, r: Record, value: string)
    requires RowsPlanned(start, st, done) && r.index !in done
    requires start.pcSeq == Some(r.pcSeq) && start.runtimePc == r.runtimePc
    ensures RowsPlanned(start, SetRow(st, r), done + {r.index})
    ensures RowsPlanned(start, MarkFresh(st, r, value), done + {r.index})
  {
    MarkFreshKeeps(start.history, st, done, r, value);
    SetRowKeeps(start.history, st, done, r);
  }

  /** Adding a row that is not stale, or is backed, keeps stale rows backed. */
  lemma AddRowBacked(past: History, st: Planner, st': Planner, index: nat)
    requires StaleBacked(past, st) && st'.sources == st.sources && index !in st.records
    requires st'.records.Keys == st.records.Keys + {index}
    requires forall i :: i in st.records ==> st'.records[i] == st.records[i]
    requires st'.records[index].status == Stale ==> BackedBy(past, st', index)
    ensures StaleBacked(past, st')
  {
    forall i | i in st'.records && st'.records[i].status == Stale
      ensures BackedBy(past, st', i)
    {
      if i != index {
        assert BackedBy(past, st, i);
        var x :| x in past && Repeats(st, i, x);
        assert Repeats(st', i, x);
      }
    }
  }

  /** A stale value that a new row inherits was observed before this context, for the same variable. */
  lemma InheritedIsBacked(start: Planner, st: Planner, done: set<nat>, v: Variable, storage: Storage, runtimePc: string,
                          pcSeq: nat)
    requires RowsPlanned(start, st, done) && v.index !in done && DefeaOf(start.sources, v.index) == v.defea
    ensures var r := StaleOrUnavailable(NewRecord(st, v, storage, runtimePc, pcSeq));
            r.status == Stale ==> BackedBy(start.history, SetRow(st, r), v.index)
  {
    FindIsEntry(st.history, (v.functionStart, v.index));
    var r := StaleOrUnavailable(NewRecord(st, v, storage, runtimePc, pcSeq));
    if r.status == Stale {
      var x := ((v.functionStart, v.index), Matching(st.history, v).value);
      assert x in start.history && Repeats(SetRow(st, r), v.index, x);
    }
  }

  lemma WaitsExtend(plan: Plan, plan': Plan, index: nat)
    requires WaitsCovered(plan) && index !in plan.st.records && plan.needed <= plan'.needed
    requires plan'.st.evidence == plan.st.evidence
    requires forall i :: i in plan.st.records ==> i in plan'.st.records && plan'.st.records[i] == plan.st.records[i]
    requires plan'.waiting == plan.waiting
             || (plan'.waiting == plan.waiting + [index] && Awaits(plan'.st, plan'.needed, index))
    requires plan'.needed == {} ==> plan'.waiting == plan.waiting
    ensures WaitsCovered(plan')
  {
    forall i | i in plan.waiting
      ensures Awaits(plan'.st, plan'.needed, i) && i != index
    {
      assert Awaits(plan.st, plan.needed, i);
    }
  }

  lemma PlanRowKeepsRows(start: Planner, plan: Plan, done: set<nat>, v: Variable, ok: bool, selected: set<nat>,
                         runtimePc: string, pcSeq: nat)
    requires RowsPlanned(start, plan.st, done) && v.index !in done
    requires start.pcSeq == Some(pcSeq) && start.runtimePc == runtimePc
    ensures RowsPlanned(start, PlanRow(plan, v, ok, selected, runtimePc, pcSeq).st, done + {v.index})
  {
    var storage := StorageFor(plan.st, ok, selected, v.index);
    var r := NewRecord(plan.st, v, storage, runtimePc, pcSeq);
    match Decide(ok, storage, v.size) {
      case Show(text) => AddRowKeeps(start, plan.st, done, r, text);
      case Blank => AddRowKeeps(start, plan.st, done, r, "");
      case _ => AddRowKeeps(start, plan.st, done, StaleOrUnavailable(r), "");
    }
  }

  lemma PlanRowKeepsBacked(start: Planner, plan: Plan, done: set<nat>, v: Variable, ok: bool, selected: set<nat>,
                           runtimePc: string, pcSeq: nat)
    requires RowsPlanned(start, plan.st, done) && StaleBacked(start.history, plan.st) && v.index !in done
    requires DefeaOf(start.sources, v.index) == v.defea
    ensures StaleBacked(start.history, PlanRow(plan, v, ok, selected, runtimePc, pcSeq).st)
  {
    var storage := StorageFor(plan.st, ok, selected, v.index);
    var st' := PlanRow(plan, v, ok, selected, runtimePc, pcSeq).st;
    InheritedIsBacked(start, plan.st, done, v, storage, runtimePc, pcSeq);
    AddRowBacked(start.history, plan.st, st', v.index);
  }

  lemma PlanRowKeepsWaits(plan: Plan, v: Variable, ok: bool, selected: set<nat>, runtimePc: string, pcSeq: nat)
    requires WaitsCovered(plan) && v.index !in plan.st.records
    ensures WaitsCovered(PlanRow(plan, v, ok, selected, runtimePc, pcSeq))
  {
    WaitsExtend(plan, PlanRow(plan, v, ok, selected, runtimePc, pcSeq), v.index);
  }

  lemma PlanRowKeeps(start: Planner, plan: Plan, vs: seq<Variable>, v: Variable, ok: bool, selected: set<nat>,
                     runtimePc: string, pcSeq: nat)
    requires Planned(start, plan, vs) && v.index !in Indexes(vs)
    requires start.pcSeq == Some(pcSeq) && start.runtimePc == runtimePc && DefeaOf(start.sources, v.index) == v.defea
    ensures Planned(start, PlanRow(plan, v, ok, selected, runtimePc, pcSeq), vs + [v])
  {
    assert Indexes(vs + [v]) == Indexes(vs) + {v.index};
    PlanRowKeepsRows(start, plan, Indexes(vs), v, ok, selected, runtimePc, pcSeq);
    PlanRowKeepsBacked(start, plan, Indexes(vs), v, ok, selected, runtimePc, pcSeq);
    PlanRowKeepsWaits(plan, v, ok, selected, runtimePc, pcSeq);
  }

  lemma {:induction false} PlanRowsKeep(start: Planner, vs: seq<Variable>, ok: bool, selected: set<nat>,
                                        runtimePc: string, pcSeq: nat)
    requires HistoryBounded(start) && start.records == map[] && vs <= start.sources && DistinctIndexes(start.sources)
    requires start.pcSeq == Some(pcSeq) && start.runtimePc == runtimePc
    ensures Planned(start, PlanRows(Plan(start, {}, []), vs, ok, selected, runtimePc, pcSeq), vs)
    decreases |vs|
  {
    if vs != [] {
      var init, v := vs[..|vs| - 1], vs[|vs| - 1];
      PlanRowsKeep(start, init, ok, selected, runtimePc, pcSeq);
      assert start.sources[|vs| - 1] == v;
      DefeaIsOwn(start.sources, |vs| - 1);
      assert v.index !in Indexes(init);
      PlanRowKeeps(start, PlanRows(Plan(start, {}, []), init, ok, selected, runtimePc, pcSeq), init, v, ok, selected,
                   runtimePc, pcSeq);
      assert init + [v] == vs;
    }
  }

  // ---------------------------------------------------------------- responses

  /** A response has worked on the rows `done` only: no row became stale and the history is accounted for. */
  ghost predicate RowsKept(start: Planner, st: Planner, done: set<nat>)
  {
    && SameContext(start, st) && RowsCurrent(st) && HistoryBounded(st)
    && st.records.Keys == start.records.Keys && Accounted(start.history, st, done)
    && (forall i :: i in st.records && (i !in done || st.records[i].status == Stale) ==>
       st.records[i] == start.records[i])
  }

  lemma FreshKept(start: Planner, st: Planner, done: set<nat>, index: nat, value: string)
    requires RowsKept(start, st, done) && index in st.records && index !in done
    ensures RowsKept(start, MarkFresh(st, st.records[index], value), done + {index})
  {
    MarkFreshKeeps(start.history, st, done, st.records[index], value);
  }

  function FailRow(st: Planner, index: nat): Planner
    requires index in st.records
  {
    st.(records := st.records[index := MarkFailed(st.records[index])])
  }

  lemma FailedKept(start: Planner, st: Planner, done: set<nat>, index: nat)
    requires RowsKept(start, st, done) && index in st.records && index !in done
    ensures RowsKept(start, FailRow(st, index), done + {index})
  {
    SetRowKeeps(start.history, st, done, MarkFailed(st.records[index]));
    assert FailRow(st, index) == SetRow(st, MarkFailed(st.records[index]));
  }

  /** Splits a list of distinct indexes into its last one and the others. */
  lemma LastIsNew(xs: seq<nat>)
    requires Distinct(xs) && xs != []
    ensures Distinct(xs[..|xs| - 1]) && xs[|xs| - 1] !in Elements(xs[..|xs| - 1])
    ensures Elements(xs) == Elements(xs[..|xs| - 1]) + {xs[|xs| - 1]}
  {
    assert xs == xs[..|xs| - 1] + [xs[|xs| - 1]];
  }

  lemma {:induction false} FailRowsKeep(start: Planner, indexes: seq<nat>)
    requires RowsCurrent(start) && HistoryBounded(start) && Distinct(indexes)
    ensures RowsKept(start, FailRows(start, indexes), Elements(indexes))
    ensures FailRows(start, indexes).pending == start.pending
    decreases |indexes|
  {
    if indexes != [] {
      LastIsNew(indexes);
      var init, index := indexes[..|indexes| - 1], indexes[|indexes| - 1];
      FailRowsKeep(start, init);
      if index in start.records {
        FailedKept(start, FailRows(start, init), Elements(init), index);
      }
    }
  }

  /** The requests that answering a register response may leave pending. */
  ghost predicate OnlyMemory(st: Planner)
  {
    forall id :: id in st.pending ==> IsCurrent(st, id, st.pending[id]) && st.pending[id].memory
  }

  /** A row that is left alone may count as worked on, unless it is stale or in the history. */
  lemma UntouchedKept(start: Planner, st: Planner, done: set<nat>, index: nat)
    requires RowsKept(start, st, done) && index !in done
    ensures RowsKept(start, st, done + {index})
  {
  }

  lemma PendingKept(start: Planner, st: Planner, done: set<nat>, pending: map<string, Pending>)
    requires RowsKept(start, st, done)
    ensures RowsKept(start, st.(pending := pending), done)
  {
    forall x | x in st.history && x !in start.history ensures FreshAt(st.(pending := pending), x) {
      assert FreshAt(st, x);
    }
  }

  lemma RegRowKeeps(start: Planner, a: Applied, done: set<nat>, p: Pending, registers: map<string, Raw>, index: nat)
    requires RowsKept(start, a.st, done) && index !in done
    ensures RowsKept(start, ApplyRegRow(a, p, registers, index).st, done + {index})
  {
    var st' := ApplyRegRow(a, p, registers, index).st;
    assert index in a.st.records ==> a.st.records[index].index == index;
    RegRowOutcome(a, p, registers, index);
    if index in a.st.records && st' == FailRow(a.st, index) {
      FailedKept(start, a.st, done, index);
    } else if index in a.st.records && st' == MarkFresh(a.st, a.st.records[index], st'.records[index].value) {
      FreshKept(start, a.st, done, index, st'.records[index].value);
    } else {
      UntouchedKept(start, a.st, done, index);
      PendingKept(start, a.st, done + {index}, st'.pending);
    }
  }

  /** One row of a register response fails, becomes fresh, or changes nothing but the pending table. */
  lemma RegRowOutcome(a: Applied, p: Pending, registers: map<string, Raw>, index: nat)
    requires index in a.st.records ==> a.st.records[index].index == index
    ensures var st' := ApplyRegRow(a, p, registers, index).st;
            || st' == a.st.(pending := st'.pending)
            || (index in a.st.records && st' == FailRow(a.st, index))
            || (&& index in a.st.records && index in st'.records
                && st' == MarkFresh(a.st, a.st.records[index], st'.records[index].value))
  {
  }

  lemma RegRowKeepsMemory(a: Applied, p: Pending, registers: map<string, Raw>, index: nat)
    requires OnlyMemory(a.st) && a.st.pcSeq == Some(p.pcSeq) && a.st.runtimePc == p.runtimePc
    ensures OnlyMemory(ApplyRegRow(a, p, registers, index).st)
  {
    var a' := ApplyRegRow(a, p, registers, index);
    forall id | id in a'.st.pending
      ensures IsCurrent(a'.st, id, a'.st.pending[id]) && a'.st.pending[id].memory
    {
      if id in a.st.pending && a'.st.pending[id] == a.st.pending[id] {
        assert IsCurrent(a.st, id, a.st.pending[id]);
      }
    }
  }

  lemma {:induction false} RegRowsKeep(start: Planner, p: Pending, registers: map<string, Raw>, indexes: seq<nat>)
    requires RowsCurrent(start) && HistoryBounded(start) && Distinct(indexes) && OnlyMemory(start)
    requires start.pcSeq == Some(p.pcSeq) && start.runtimePc == p.runtimePc
    ensures RowsKept(start, ApplyRegRows(Applied(start, []), p, registers, indexes).st, Elements(indexes))
    ensures OnlyMemory(ApplyRegRows(Applied(start, []), p, registers, indexes).st)
    decreases |indexes|
  {
    if indexes != [] {
      LastIsNew(indexes);
      var init, index := indexes[..|indexes| - 1], indexes[|indexes| - 1];
      RegRowsKeep(start, p, registers, init);
      var a := ApplyRegRows(Applied(start, []), p, registers, init);
      RegRowKeeps(start, a, Elements(init), p, registers, index);
      RegRowKeepsMemory(a, p, registers, index);
    }
  }

  /** Nothing but the answered register request is pending when it is accepted. */
  lemma TakeRegisterRequest(st: Planner, r: Response)
    requires Good(st) && Correlated(st, r, false).Some?
    ensures Take(st, r.id.value).pending == map[]
  {
    var p := Correlated(st, r, false).value;
    forall id | id in st.pending
      ensures id == r.id.value
    {
      assert IsCurrent(st, id, st.pending[id]) && IsCurrent(st, r.id.value, p);
    }
  }

  /** What one response does: accepted or not, it stays in its context and creates no stale row. */
  ghost predicate ResponseKept(st: Planner, st': Planner)
  {
    exists done :: RowsKept(st, st', done)
  }

  lemma RegStepKeeps(st: Planner, r: Response)
    requires Good(st)
    ensures Good(ApplyReg(st, r).1) && ResponseKept(st, ApplyReg(st, r).1)
  {
    var c := Correlated(st, r, false);
    if c.None? {
      assert RowsKept(st, st, {});
    } else {
      var p, start := c.value, Take(st, r.id.value);
      assert IsCurrent(st, r.id.value, p);
      TakeRegisterRequest(st, r);
      var st' := ApplyReg(st, r).1;
      if !r.ok || r.registers.None? {
        FailRowsKeep(start, p.indexes);
      } else {
        RegRowsKeep(start, p, r.registers.value, p.indexes);
      }
      assert RowsKept(st, st', Elements(p.indexes));
    }
  }

  lemma MemStepKeeps(st: Planner, r: Response)
    requires Good(st)
    ensures Good(ApplyMem(st, r).1) && ResponseKept(st, ApplyMem(st, r).1)
  {
    if !ApplyMem(st, r).0 {
      assert RowsKept(st, st, {});
    } else {
      var p, start := Correlated(st, r, true).value, Take(st, r.id.value);
      assert IsCurrent(st, r.id.value, p);
      var index := p.indexes[0];
      assert p.indexes == [index];
      assert p.indexes[..0] == [];
      assert ApplyMemRows(start, p, r, []) == start;
      assert ApplyMemRows(start, p, r, p.indexes) == ApplyMemRow(start, p, r, index);
      assert RowsKept(st, start, {});
      if index in start.records {
        var text := if r.ok then MemoryText(r.bytesHex, p.size) else None;
        if text.Some? {
          FreshKept(st, start, {}, index, text.value);
        } else {
          FailedKept(st, start, {}, index);
        }
      }
    }
  }

  // ---------------------------------------------------------------- every step and every run

  /** One event in the life of the history and of stale rows. */
  ghost predicate StepAccounted(st: Planner, st': Planner)
  {
    && (forall x :: x in st'.history ==> x in st.history || FreshAt(st', x))
    && (forall i :: i in st'.records && st'.records[i].status == Stale ==>
          BackedBy(st.history, st', i)
            || (i in st.records && st.records[i] == st'.records[i] && st.sources == st'.sources))
  }

  lemma BeginStepKeeps(st: Planner, vs: seq<Variable>, selected: set<nat>, analysis: Analysis, runtimePc: string,
                       pcSeq: nat)
    requires HistoryBounded(st) && DistinctIndexes(Locals(vs))
    ensures var st' := BeginPc(st, vs, selected, analysis, runtimePc, pcSeq).0; Good(st') && StepAccounted(st, st')
  {
    var start := StartContext(st, runtimePc, pcSeq).(evidence := analysis.evidence, sources := Locals(vs));
    PlanRowsKeep(start, Locals(vs), analysis.ok, selected, runtimePc, pcSeq);
    var plan := PlanContext(st, vs, selected, analysis, runtimePc, pcSeq);
    var st' := BeginPc(st, vs, selected, analysis, runtimePc, pcSeq).0;
    assert st'.records == plan.st.records && st'.history == plan.st.history && st'.sources == plan.st.sources;
    assert plan.needed != {} ==> IsCurrent(st', RegId(pcSeq), RegPending(pcSeq, runtimePc, plan));
    forall x | x in st'.history
      ensures x in st.history || FreshAt(st', x)
    {
      assert x in st.history || FreshAt(plan.st, x);
    }
    forall i | i in st'.records && st'.records[i].status == Stale
      ensures BackedBy(st.history, st', i)
    {
      var x :| x in st.history && Repeats(plan.st, i, x);
      assert Repeats(st', i, x);
    }
  }

  lemma StepKeeps(st: Planner, ev: Event)
    requires Good(st) && Legal(ev)
    ensures Good(Step(st, ev)) && StepAccounted(st, Step(st, ev))
  {
    match ev {
      case Begin(vs, selected, analysis, runtimePc, pcSeq) =>
        BeginStepKeeps(st, vs, selected, analysis, runtimePc, pcSeq);
      case Reg(r) =>
        RegStepKeeps(st, r);
        var done :| RowsKept(st, ApplyReg(st, r).1, done);
      case Mem(r) =>
        MemStepKeeps(st, r);
        var done :| RowsKept(st, ApplyMem(st, r).1, done);
      case _ =>
    }
  }

  ghost predicate LegalRun(evs: seq<Event>)
  {
    forall i :: 0 <= i < |evs| ==> Legal(evs[i])
  }

  /** Pending requests are current, rows are current and the history is bounded after every run. */
  lemma {:induction false} RunIsGood(max: int, evs: seq<Event>)
    requires LegalRun(evs)
    ensures Good(Run(Create(max), evs))
    decreases |evs|
  {
    if evs != [] {
      RunIsGood(max, evs[..|evs| - 1]);
      StepKeeps(Run(Create(max), evs[..|evs| - 1]), evs[|evs| - 1]);
    }
  }

  /** The last step of a run, as the accounts see it. */
  lemma LastStep(max: int, evs: seq<Event>)
    requires LegalRun(evs) && evs != []
    ensures StepAccounted(Run(Create(max), evs[..|evs| - 1]), Run(Create(max), evs))
  {
    RunIsGood(max, evs[..|evs| - 1]);
    StepKeeps(Run(Create(max), evs[..|evs| - 1]), evs[|evs| - 1]);
  }

  /** Some state of the run showed this observation as fresh. */
  ghost predicate WasFresh(max: int, evs: seq<Event>, x: (Key, Observation))
  {
    exists k :: 0 <= k <= |evs| && FreshAt(Run(Create(max), evs[..k]), x)
  }

  lemma WasFreshExtends(max: int, evs: seq<Event>, n: nat, x: (Key, Observation))
    requires n <= |evs| && WasFresh(max, evs[..n], x)
    ensures WasFresh(max, evs, x)
  {
    var k :| 0 <= k <= n && FreshAt(Run(Create(max), evs[..n][..k]), x);
    assert evs[..n][..k] == evs[..k];
  }

  lemma NewInHistory(st: Planner, st': Planner, x: (Key, Observation))
    requires StepAccounted(st, st') && x in st'.history && x !in st.history
    ensures FreshAt(st', x)
  {
  }

  lemma FreshNow(max: int, evs: seq<Event>, x: (Key, Observation))
    requires FreshAt(Run(Create(max), evs), x)
    ensures WasFresh(max, evs, x)
  {
    assert evs[..|evs|] == evs;
  }

  /** The history holds only what some earlier state of the run showed as fresh. */
  lemma {:induction false} HistoryWasFresh(max: int, evs: seq<Event>, x: (Key, Observation))
    requires LegalRun(evs) && x in Run(Create(max), evs).history
    ensures WasFresh(max, evs, x)
    decreases |evs|
  {
    if evs != [] && !WasFresh(max, evs, x) {
      OlderIsInherited(max, evs, x);
      HistoryWasFresh(max, evs[..|evs| - 1], x);
      WasFreshExtends(max, evs, |evs| - 1, x);
    }
  }

  /** What no state of the run showed as fresh was in the history before its last step. */
  lemma OlderIsInherited(max: int, evs: seq<Event>, x: (Key, Observation))
    requires LegalRun(evs) && evs != [] && x in Run(Create(max), evs).history && !WasFresh(max, evs, x)
    ensures x in Run(Create(max), evs[..|evs| - 1]).history
  {
    var before, after := Run(Create(max), evs[..|evs| - 1]), Run(Create(max), evs);
    LastStep(max, evs);
    if x !in before.history {
      NewInHistory(before, after, x);
      FreshNow(max, evs, x);
    }
  }

  ghost predicate StaleRow(st: Planner, i: nat)
  {
    i in st.records && st.records[i].status == Stale
  }

  /** What the row repeats was shown as fresh somewhere in the run. */
  ghost predicate HasOrigin(max: int, evs: seq<Event>, st: Planner, i: nat)
  {
    i in st.records && exists x :: Repeats(st, i, x) && WasFresh(max, evs, x)
  }

  lemma OriginExtends(max: int, evs: seq<Event>, n: nat, st: Planner, st': Planner, i: nat)
    requires n <= |evs| && HasOrigin(max, evs[..n], st, i)
    requires StaleRow(st, i) && StaleRow(st', i) && st.records[i] == st'.records[i] && st.sources == st'.sources
    ensures HasOrigin(max, evs, st', i)
  {
    var x :| Repeats(st, i, x) && WasFresh(max, evs[..n], x);
    WasFreshExtends(max, evs, n, x);
    assert Repeats(st', i, x);
  }

  lemma BackedHasOrigin(max: int, evs: seq<Event>, n: nat, st': Planner, i: nat)
    requires LegalRun(evs) && n <= |evs| && i in st'.records && BackedBy(Run(Create(max), evs[..n]).history, st', i)
    ensures HasOrigin(max, evs, st', i)
  {
    var x :| x in Run(Create(max), evs[..n]).history && Repeats(st', i, x);
    HistoryWasFresh(max, evs[..n], x);
    WasFreshExtends(max, evs, n, x);
  }

  /**
    Stale values are real: whatever a row shows as stale was shown as fresh earlier in
    the same run, for the same function, index, name, width, type and defining address.
   */
  lemma {:induction false} StaleWasFresh(max: int, evs: seq<Event>, i: nat)
    requires LegalRun(evs) && StaleRow(Run(Create(max), evs), i)
    ensures HasOrigin(max, evs, Run(Create(max), evs), i)
    decreases |evs|
  {
    if evs != [] {
      var n := |evs| - 1;
      LastStep(max, evs);
      var st, st' := Run(Create(max), evs[..n]), Run(Create(max), evs);
      if BackedBy(st.history, st', i) {
        BackedHasOrigin(max, evs, n, st', i);
      } else {
        StaleWasFresh(max, evs[..n], i);
        OriginExtends(max, evs, n, st, st', i);
      }
    }
  }

  lemma BeginContext(st: Planner, vs: seq<Variable>, selected: set<nat>, analysis: Analysis, runtimePc: string,
                     pcSeq: nat)
    requires HistoryBounded(st) && DistinctIndexes(Locals(vs))
    ensures var st' := BeginPc(st, vs, selected, analysis, runtimePc, pcSeq).0;
            st'.pcSeq == Some(pcSeq) && st'.runtimePc == runtimePc
  {
    PlanRowsKeep(StartContext(st, runtimePc, pcSeq).(evidence := analysis.evidence, sources := Locals(vs)), Locals(vs),
                 analysis.ok, selected, runtimePc, pcSeq);
  }

  // ---------------------------------------------------------------- each id is accepted once

  predicate IsResponse(ev: Event)
  {
    ev.Reg? || ev.Mem?
  }

  predicate Accepts(st: Planner, ev: Event)
    requires IsResponse(ev)
  {
    if ev.Reg? then ApplyReg(st, ev.r).0 else ApplyMem(st, ev.r).0
  }

  /** The id is not pending, and no register request is left that could make it pending again. */
  ghost predicate Spent(st: Planner, id: string)
  {
    && st.pcSeq.Some? && id !in st.pending
    && (id == RegId(st.pcSeq.value) || RegId(st.pcSeq.value) !in st.pending)
  }

  lemma {:induction false} RegRowsAddMemory(a: Applied, p: Pending, registers: map<string, Raw>, indexes: seq<nat>)
    ensures forall id :: id in ApplyRegRows(a, p, registers, indexes).st.pending ==>
              id in a.st.pending || exists i: nat :: id == MemId(p.pcSeq, i)
    decreases |indexes|
  {
    if indexes != [] {
      RegRowsAddMemory(a, p, registers, indexes[..|indexes| - 1]);
    }
  }

  lemma {:induction false} FailRowsKeepPending(st: Planner, indexes: seq<nat>)
    ensures FailRows(st, indexes).pending == st.pending
    decreases |indexes|
  {
    if indexes != [] {
      FailRowsKeepPending(st, indexes[..|indexes| - 1]);
    }
  }

  lemma {:induction false} MemRowsKeepPending(st: Planner, p: Pending, r: Response, indexes: seq<nat>)
    ensures ApplyMemRows(st, p, r, indexes).pending == st.pending
    decreases |indexes|
  {
    if indexes != [] {
      MemRowsKeepPending(st, p, r, indexes[..|indexes| - 1]);
    }
  }

  /** A response removes the id it answers and adds memory ids only after a register response. */
  lemma PendingAfter(st: Planner, ev: Event)
    requires Good(st) && IsResponse(ev)
    ensures st.pcSeq == Step(st, ev).pcSeq
    ensures forall id :: id in Step(st, ev).pending ==>
              || (id in st.pending && (Accepts(st, ev) ==> Some(id) != ev.r.id))
              || (Accepts(st, ev) && ev.Reg? && st.pcSeq.Some? && exists i: nat :: id == MemId(st.pcSeq.value, i))
    ensures Accepts(st, ev) && ev.Reg? ==>
            st.pcSeq.Some? && ev.r.id == Some(RegId(st.pcSeq.value)) && RegId(st.pcSeq.value) in st.pending
  {
    RegStepKeeps(st, ev.r);
    MemStepKeeps(st, ev.r);
    if Accepts(st, ev) {
      var p := Correlated(st, ev.r, ev.Mem?).value;
      assert IsCurrent(st, ev.r.id.value, p);
      var start := Take(st, ev.r.id.value);
      FailRowsKeepPending(start, p.indexes);
      if ev.Mem? {
        MemRowsKeepPending(start, p, ev.r, p.indexes);
      } else if ev.r.registers.Some? {
        RegRowsAddMemory(Applied(start, []), p, ev.r.registers.value, p.indexes);
      }
    }
  }

  lemma SpentStays(st: Planner, ev: Event, id: string)
    requires Good(st) && IsResponse(ev)
    requires Spent(st, id) || (Accepts(st, ev) && ev.r.id == Some(id))
    ensures Spent(Step(st, ev), id)
  {
    PendingAfter(st, ev);
    var s := st.pcSeq.value;
    forall i: nat
      ensures RegId(s) != MemId(s, i)
    {
      IdKindsDiffer(s, i, "");
    }
    if Accepts(st, ev) && ev.Mem? {
      var p := Correlated(st, ev.r, true).value;
      assert IsCurrent(st, ev.r.id.value, p);
      if RegId(s) in st.pending {
        assert IsCurrent(st, RegId(s), st.pending[RegId(s)]);
        assert st.pending[RegId(s)].memory;
        IdKindsDiffer(s, st.pending[RegId(s)].indexes[0], "");
      }
    }
  }

  /** Within one context a request id is accepted at most once, whatever responses arrive in between. */
  lemma {:induction false} AcceptedAtMostOnce(st: Planner, first: Event, between: seq<Event>, again: Event)
    requires Good(st) && IsResponse(first) && Accepts(st, first) && IsResponse(again)
    requires forall i :: 0 <= i < |between| ==> IsResponse(between[i])
    requires again.r.id == first.r.id
    ensures Good(Run(Step(st, first), between)) && Spent(Run(Step(st, first), between), first.r.id.value)
    ensures !Accepts(Run(Step(st, first), between), again)
    decreases |between|
  {
    if between == [] {
      SpentStays(st, first, first.r.id.value);
      StepKeeps(st, first);
    } else {
      var init, last := between[..|between| - 1], between[|between| - 1];
      AcceptedAtMostOnce(st, first, init, again);
      SpentStays(Run(Step(st, first), init), last, first.r.id.value);
      StepKeeps(Run(Step(st, first), init), last);
    }
  }
}
