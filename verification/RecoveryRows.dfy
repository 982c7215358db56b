/**
  What every local row is after each event: exactly which rows show a constant, wait for a
  read or repeat an old observation, and what an answer makes of the rows it is for.
 */
module RecoveryRows {
  import opened Basics
  import opened Values
  import opened RecoveryModel
  import opened RecoveryHistory
  import opened RecoveryRuns

  // ---------------------------------------------------------------- a new context

  /** The planner's locals are the variables that are not arguments. */
  lemma {:induction false} LocalsAre(vs: seq<Variable>)
    ensures forall v :: v in Locals(vs) <==> v in vs && !v.isArg
    decreases |vs|
  {
    if vs != [] {
      LocalsAre(vs[..|vs| - 1]);
      assert vs == vs[..|vs| - 1] + [vs[|vs| - 1]];
    }
  }

  /** The history holds this value for the same variable: function, index, name, size, type and defining address. */
  ghost predicate Remembered(history: History, v: Variable, value: string)
  {
    exists o: Observation :: ((v.functionStart, v.index), o) in history && SameVariable(o, v) && o.value == value
  }

  predicate SameVariable(o: Observation, v: Variable)
  {
    o.name == v.name && o.width == v.size && o.typ == v.typ && o.defea == v.defea
  }

  /** What the analysis proved about a variable that was selected. */
  function ProvedStorage(analysis: Analysis, selected: set<nat>, v: Variable): Storage
  {
    if analysis.ok && v.index in selected && v.index in analysis.evidence then analysis.evidence[v.index] else Unproven
  }

  /** The analysis proved that the variable is the constant `c`. */
  predicate IsConstant(analysis: Analysis, selected: set<nat>, v: Variable, c: int)
  {
    analysis.ok && v.index in selected && v.index in analysis.evidence && analysis.evidence[v.index] == Constant(c)
  }

  /** The variable's value has to be read, and `register` is needed for that. */
  predicate WaitsFor(analysis: Analysis, selected: set<nat>, v: Variable, register: string)
  {
    && analysis.ok && v.index in selected && v.index in analysis.evidence && ExactWidth(v.size)
    && match analysis.evidence[v.index]
       case Register(spec) => v.size <= spec.width && register == spec.full
       case Stack(_) => register == "rsp"
       case _ => false
  }

  ghost predicate Waits(analysis: Analysis, selected: set<nat>, v: Variable)
  {
    exists register :: WaitsFor(analysis, selected, v, register)
  }

  /**
    The row of a variable in a new context: a constant is shown at once; otherwise the
    value remembered for the same variable is shown as stale; otherwise there is none. A
    failed analysis shows nothing at all.
   */
  ghost predicate RowAt(row: Record, v: Variable, history: History, analysis: Analysis, selected: set<nat>)
  {
    && row.name == v.name && row.typ == v.typ && row.width == v.size && row.functionStart == v.functionStart
    && row.storage == ProvedStorage(analysis, selected, v)
    && if exists c :: IsConstant(analysis, selected, v, c) && ExactWidth(v.size) then
         exists c :: IsConstant(analysis, selected, v, c) && row.status == Fresh && ShowsWindow(row.value, c, 0, v.size)
       else if analysis.ok && exists value :: Remembered(history, v, value) && value != "" then
         row.status == Stale && Remembered(history, v, row.value) && row.value != ""
       else row.status == Unavailable && row.value == ""
  }

  lemma {:induction false} FindIffEntry(h: History, key: Key, o: Observation)
    requires DistinctKeys(h)
    ensures Find(h, key) == Some(o) <==> (key, o) in h
  {
    FindIsEntry(h, key);
    if (key, o) in h {
      var i :| 0 <= i < |h| && h[i] == (key, o);
      var o' := Find(h, key).value;
      var j :| 0 <= j < |h| && h[j] == (key, o');
      assert i == j;
    }
  }

  lemma MatchingIffRemembered(h: History, v: Variable, value: string)
    requires DistinctKeys(h)
    ensures Remembered(h, v, value) <==> Matching(h, v).Some? && Matching(h, v).value.value == value
  {
    var key := (v.functionStart, v.index);
    if Remembered(h, v, value) {
      var o :| (key, o) in h && SameVariable(o, v) && o.value == value;
      FindIffEntry(h, key, o);
    } else if Matching(h, v).Some? {
      FindIffEntry(h, key, Matching(h, v).value);
    }
  }

  /** A planned row, where it is planned. */
  lemma PlannedRowIs(plan: Plan, v: Variable, analysis: Analysis, selected: set<nat>, runtimePc: string, pcSeq: nat)
    requires DistinctKeys(plan.st.history) && plan.st.evidence == analysis.evidence
    ensures var st' := PlanRow(plan, v, analysis.ok, selected, runtimePc, pcSeq).st;
            v.index in st'.records && RowAt(st'.records[v.index], v, plan.st.history, analysis, selected)
  {
    var storage := StorageFor(plan.st, analysis.ok, selected, v.index);
    if storage.Constant? && ExactWidth(v.size) {
      assert IsConstant(analysis, selected, v, storage.value);
      MaskShows(storage.value, v.size);
    } else {
      InheritedRowIs(plan, v, analysis, selected, storage, runtimePc, pcSeq);
    }
  }

  lemma InheritedRowIs(plan: Plan, v: Variable, analysis: Analysis, selected: set<nat>, storage: Storage,
                       runtimePc: string, pcSeq: nat)
    requires DistinctKeys(plan.st.history) && plan.st.evidence == analysis.evidence
    requires storage == StorageFor(plan.st, analysis.ok, selected, v.index)
    requires !(storage.Constant? && ExactWidth(v.size))
    ensures var st' := PlanRow(plan, v, analysis.ok, selected, runtimePc, pcSeq).st;
            v.index in st'.records && RowAt(st'.records[v.index], v, plan.st.history, analysis, selected)
  {
    var r := NewRecord(plan.st, v, storage, runtimePc, pcSeq);
    InheritedValue(plan.st.history, v, r);
    NoConstant(analysis, selected, v, storage);
    var row := if analysis.ok then StaleOrUnavailable(r) else r;
    assert RowAt(row, v, plan.st.history, analysis, selected);
    var st' := PlanRow(plan, v, analysis.ok, selected, runtimePc, pcSeq).st;
    assert st'.records == plan.st.records[v.index := row];
  }

  lemma NoConstant(analysis: Analysis, selected: set<nat>, v: Variable, storage: Storage)
    requires storage == ProvedStorage(analysis, selected, v) && !(storage.Constant? && ExactWidth(v.size))
    ensures !exists c :: IsConstant(analysis, selected, v, c) && ExactWidth(v.size)
  {
  }

  /** What a row inherits is what the history remembers. */
  lemma InheritedValue(h: History, v: Variable, r: Record)
    requires DistinctKeys(h)
    requires r.lastValue == match Matching(h, v) case None => "" case Some(o) => o.value
    ensures var row := StaleOrUnavailable(r);
            if exists value :: Remembered(h, v, value) && value != "" then
              row.status == Stale && Remembered(h, v, row.value) && row.value != ""
            else row.status == Unavailable && row.value == ""
  {
    forall value ensures Remembered(h, v, value) <==> Matching(h, v).Some? && Matching(h, v).value.value == value {
      MatchingIffRemembered(h, v, value);
    }
    assert r.lastValue != "" ==> Remembered(h, v, r.lastValue);
  }

  /** The plan after the first `k` variables. */
  function PlanOf(start: Planner, vs: seq<Variable>, k: nat, analysis: Analysis, selected: set<nat>, runtimePc: string,
                  pcSeq: nat): Plan
    requires k <= |vs|
  {
    PlanRows(Plan(start, {}, []), vs[..k], analysis.ok, selected, runtimePc, pcSeq)
  }

  /** Row `k` is what the history says at the time when it is planned. */
  ghost predicate PlannedAt(start: Planner, vs: seq<Variable>, k: nat, rows: map<nat, Record>, analysis: Analysis,
                            selected: set<nat>, runtimePc: string, pcSeq: nat)
    requires k < |vs|
  {
    && vs[k].index in rows
    && RowAt(rows[vs[k].index], vs[k], PlanOf(start, vs, k, analysis, selected, runtimePc, pcSeq).st.history, analysis,
             selected)
  }

  lemma {:induction false} PlannedRowsAre(start: Planner, vs: seq<Variable>, n: nat, analysis: Analysis,
                                          selected: set<nat>, runtimePc: string, pcSeq: nat, k: nat, plan: Plan,
                                            h: History)
    requires HistoryBounded(start) && start.records == map[] && start.sources == vs && DistinctIndexes(vs)
    requires start.pcSeq == Some(pcSeq) && start.runtimePc == runtimePc && start.evidence == analysis.evidence
    requires k < n <= |vs| && plan == PlanOf(start, vs, n, analysis, selected, runtimePc, pcSeq)
    requires h == PlanOf(start, vs, k, analysis, selected, runtimePc, pcSeq).st.history
    ensures vs[k].index in plan.st.records && RowAt(plan.st.records[vs[k].index], vs[k], h, analysis, selected)
    decreases n
  {
    var before := PlanOf(start, vs, n - 1, analysis, selected, runtimePc, pcSeq);
    PlanGrows(start, vs, n, analysis, selected, runtimePc, pcSeq);
    if k < n - 1 {
      PlannedRowsAre(start, vs, n - 1, analysis, selected, runtimePc, pcSeq, k, before, h);
      RowStays(before, vs[n - 1], analysis, selected, runtimePc, pcSeq, vs[k].index);
    } else {
      PlannedRowIs(before, vs[k], analysis, selected, runtimePc, pcSeq);
    }
  }

  lemma PlanGrows(start: Planner, vs: seq<Variable>, n: nat, analysis: Analysis, selected: set<nat>, runtimePc: string,
                  pcSeq: nat)
    requires HistoryBounded(start) && start.records == map[] && start.sources == vs && DistinctIndexes(vs)
    requires start.pcSeq == Some(pcSeq) && start.runtimePc == runtimePc && start.evidence == analysis.evidence
    requires 0 < n <= |vs|
    ensures var before := PlanOf(start, vs, n - 1, analysis, selected, runtimePc, pcSeq);
            && DistinctKeys(before.st.history) && before.st.evidence == analysis.evidence
            && PlanOf(start, vs, n, analysis, selected, runtimePc, pcSeq) ==
               PlanRow(before, vs[n - 1], analysis.ok, selected, runtimePc, pcSeq)
  {
    PlanRowsKeep(start, vs[..n - 1], analysis.ok, selected, runtimePc, pcSeq);
    assert vs[..n][..n - 1] == vs[..n - 1] && vs[..n][n - 1] == vs[n - 1];
  }

  /** Planning a variable leaves the rows of all others alone. */
  lemma RowStays(plan: Plan, v: Variable, analysis: Analysis, selected: set<nat>, runtimePc: string, pcSeq: nat, i: nat)
    requires i in plan.st.records && i != v.index
    ensures var st' := PlanRow(plan, v, analysis.ok, selected, runtimePc, pcSeq).st;
            i in st'.records && st'.records[i] == plan.st.records[i]
  {
  }

  /** The registers and rows that planning collects are those of the variables that have to be read. */
  lemma {:induction false} PlanCollects(start: Planner, vs: seq<Variable>, analysis: Analysis, selected: set<nat>,
                                        runtimePc: string, pcSeq: nat)
    requires start.evidence == analysis.evidence
    ensures var plan := PlanRows(Plan(start, {}, []), vs, analysis.ok, selected, runtimePc, pcSeq);
            && plan.st.evidence == start.evidence && plan.st.pending == start.pending
            && (forall name :: name in plan.needed <==> exists v :: v in vs && WaitsFor(analysis, selected, v, name))
            && forall i :: i in plan.waiting <==> exists v :: v in vs && v.index == i && Waits(analysis, selected, v)
    decreases |vs|
  {
    if vs != [] {
      var init, last := vs[..|vs| - 1], vs[|vs| - 1];
      assert vs == init + [last];
      PlanCollects(start, init, analysis, selected, runtimePc, pcSeq);
      var before := PlanRows(Plan(start, {}, []), init, analysis.ok, selected, runtimePc, pcSeq);
      PlanCollectsRow(before, last, analysis, selected, runtimePc, pcSeq);
    }
  }

  lemma PlanCollectsRow(plan: Plan, v: Variable, analysis: Analysis, selected: set<nat>, runtimePc: string, pcSeq: nat)
    requires plan.st.evidence == analysis.evidence
    ensures var plan' := PlanRow(plan, v, analysis.ok, selected, runtimePc, pcSeq);
            && plan'.st.evidence == plan.st.evidence && plan'.st.pending == plan.st.pending
            && (forall name :: name in plan'.needed <==> name in plan.needed || WaitsFor(analysis, selected, v, name))
            && forall i :: i in plan'.waiting <==> i in plan.waiting || (i == v.index && Waits(analysis, selected, v))
  {
    var decision := Decide(analysis.ok, StorageFor(plan.st, analysis.ok, selected, v.index), v.size);
    forall name ensures WaitsFor(analysis, selected, v, name) <==> decision == Await(name) {
    }
    assert Waits(analysis, selected, v) <==> decision.Await?;
  }

  /** The rows of a new context, each by the history at the time when it is planned. */
  lemma RowsOfContext(st: Planner, vs: seq<Variable>, selected: set<nat>, analysis: Analysis, runtimePc: string,
                      pcSeq: nat, k: nat)
    requires HistoryBounded(st) && DistinctIndexes(Locals(vs)) && k < |Locals(vs)|
    ensures var start := Started(st, vs, analysis, runtimePc, pcSeq);
            PlannedAt(start, Locals(vs), k, BeginPc(st, vs, selected, analysis, runtimePc, pcSeq).0.records, analysis,
                      selected, runtimePc, pcSeq)
  {
    var start := Started(st, vs, analysis, runtimePc, pcSeq);
    var locals := Locals(vs);
    assert locals[..|locals|] == locals;
    PlannedRowsAre(start, locals, |locals|, analysis, selected, runtimePc, pcSeq, k,
                   PlanContext(st, vs, selected, analysis, runtimePc, pcSeq),
                   PlanOf(start, locals, k, analysis, selected, runtimePc, pcSeq).st.history);
  }

  function Started(st: Planner, vs: seq<Variable>, analysis: Analysis, runtimePc: string, pcSeq: nat): Planner
  {
    StartContext(st, runtimePc, pcSeq).(evidence := analysis.evidence, sources := Locals(vs))
  }

  /**
    A new context asks for registers exactly if some local has to be read, and then for
    exactly the registers that these locals need, on behalf of exactly these locals.
   */
  lemma ContextAsksFor(st: Planner, vs: seq<Variable>, selected: set<nat>, analysis: Analysis, runtimePc: string,
                       pcSeq: nat)
    ensures var (st', q) := BeginPc(st, vs, selected, analysis, runtimePc, pcSeq);
            if exists v :: v in Locals(vs) && Waits(analysis, selected, v) then
              && RegId(pcSeq) in st'.pending
              && var p := st'.pending[RegId(pcSeq)];
                 && st'.pending == map[RegId(pcSeq) := p] && !p.memory
                 && q == Some(RegRequest(pcSeq, RegId(pcSeq), runtimePc, p.registers))
                 && (forall name :: name in p.registers <==>
                       exists v :: v in Locals(vs) && WaitsFor(analysis, selected, v, name))
                 && forall i :: i in p.indexes <==>
                      exists v :: v in Locals(vs) && v.index == i && Waits(analysis, selected, v)
            else q.None? && st'.pending == map[]
  {
    var start := Started(st, vs, analysis, runtimePc, pcSeq);
    PlanCollects(start, Locals(vs), analysis, selected, runtimePc, pcSeq);
    var plan := PlanContext(st, vs, selected, analysis, runtimePc, pcSeq);
    if v :| v in Locals(vs) && Waits(analysis, selected, v) {
      var name :| WaitsFor(analysis, selected, v, name);
      assert name in plan.needed;
    }
  }

  // ---------------------------------------------------------------- when the history has room

  lemma RecordWithRoom(h: History, max: nat, key: Key, o: Observation, v: Variable, value: string)
    requires DistinctKeys(h) && |h| < max && key.1 != v.index
    ensures |Prune(Put(h, key, o), max)| <= |h| + 1
    ensures Remembered(Prune(Put(h, key, o), max), v, value) <==> Remembered(h, v, value)
  {
    PutSpec(h, key, o);
    var h' := Put(h, key, o);
    if Remembered(h, v, value) {
      var x :| ((v.functionStart, v.index), x) in h && SameVariable(x, v) && x.value == value;
      assert ((v.functionStart, v.index), x) in h';
    }
  }

  lemma {:induction false} HistoryHasRoom(start: Planner, vs: seq<Variable>, k: nat, analysis: Analysis,
                                          selected: set<nat>, runtimePc: string, pcSeq: nat, v: Variable, value: string,
                                          plan: Plan)
    requires HistoryBounded(start) && start.records == map[] && start.sources == vs && DistinctIndexes(vs)
    requires start.pcSeq == Some(pcSeq) && start.runtimePc == runtimePc && start.evidence == analysis.evidence
    requires k <= |vs| && |start.history| + k <= start.maxHistory && forall i :: 0 <= i < k ==> vs[i].index != v.index
    requires plan == PlanOf(start, vs, k, analysis, selected, runtimePc, pcSeq)
    ensures |plan.st.history| <= |start.history| + k && plan.st.maxHistory == start.maxHistory
    ensures Remembered(plan.st.history, v, value) <==> Remembered(start.history, v, value)
  {
    if k > 0 {
      var before := PlanOf(start, vs, k - 1, analysis, selected, runtimePc, pcSeq);
      HistoryHasRoom(start, vs, k - 1, analysis, selected, runtimePc, pcSeq, v, value, before);
      PlanGrows(start, vs, k, analysis, selected, runtimePc, pcSeq);
      RowHasRoom(before, vs[k - 1], analysis, selected, runtimePc, pcSeq, v, value);
    }
  }

  lemma RowHasRoom(plan: Plan, u: Variable, analysis: Analysis, selected: set<nat>, runtimePc: string, pcSeq: nat,
                   v: Variable, value: string)
    requires DistinctKeys(plan.st.history) && |plan.st.history| < plan.st.maxHistory && u.index != v.index
    ensures var st' := PlanRow(plan, u, analysis.ok, selected, runtimePc, pcSeq).st;
            && |st'.history| <= |plan.st.history| + 1 && st'.maxHistory == plan.st.maxHistory
            && (Remembered(st'.history, v, value) <==> Remembered(plan.st.history, v, value))
  {
    var storage := StorageFor(plan.st, analysis.ok, selected, u.index);
    var decision := Decide(analysis.ok, storage, u.size);
    if decision.Show? {
      var r := NewRecord(plan.st, u, storage, runtimePc, pcSeq);
      RecordWithRoom(plan.st.history, plan.st.maxHistory, (r.functionStart, r.index),
                     Observe(plan.st.sources, r, decision.text), v, value);
    }
  }

  /** With room for the locals, each row is what the history says when the context begins. */
  lemma RowsRepeatTheHistory(st: Planner, vs: seq<Variable>, selected: set<nat>, analysis: Analysis, runtimePc: string,
                             pcSeq: nat, k: nat)
    requires HistoryBounded(st) && DistinctIndexes(Locals(vs)) && k < |Locals(vs)|
    requires |st.history| + |Locals(vs)| <= st.maxHistory
    ensures var rows := BeginPc(st, vs, selected, analysis, runtimePc, pcSeq).0.records;
            && Locals(vs)[k].index in rows
            && RowAt(rows[Locals(vs)[k].index], Locals(vs)[k], st.history, analysis, selected)
  {
    var start, locals := Started(st, vs, analysis, runtimePc, pcSeq), Locals(vs);
    RowsOfContext(st, vs, selected, analysis, runtimePc, pcSeq, k);
    var plan := PlanOf(start, locals, k, analysis, selected, runtimePc, pcSeq);
    forall value ensures Remembered(plan.st.history, locals[k], value) <==> Remembered(st.history, locals[k], value) {
      HistoryHasRoom(start, locals, k, analysis, selected, runtimePc, pcSeq, locals[k], value, plan);
    }
  }

  // ---------------------------------------------------------------- answers

  /** The row failed: it has no value, and is otherwise as before. */
  predicate HasFailed(before: Record, after: Record)
  {
    after == before.(value := "", status := Failed)
  }

  /** Only the value, its status and the value kept for later differ. */
  predicate SameIdentity(before: Record, after: Record)
  {
    after == before.(value := after.value, status := after.status, lastValue := after.lastValue)
  }

  /** The response gives a register as a number. */
  predicate Gives(r: Response, name: string, n: int)
  {
    r.ok && r.registers.Some? && name in r.registers.value && r.registers.value[name] == Number(n)
  }

  /** The request of a pending entry. */
  function RequestOf(p: Pending): Request
  {
    if p.memory then MemRequest(p.pcSeq, p.id, p.runtimePc, p.address, p.size)
    else RegRequest(p.pcSeq, p.id, p.runtimePc, p.registers)
  }

  /** The slot of row `i` is asked for: exactly its bytes, at the address that `rsp` gives. */
  ghost predicate AsksSlot(st: Planner, requests: seq<Request>, p: Pending, i: nat, address: int, width: int)
  {
    && 0 <= address < QUAD && MemId(p.pcSeq, i) in st.pending
    && var q := st.pending[MemId(p.pcSeq, i)];
       && q == Pending(true, p.pcSeq, MemId(p.pcSeq, i), p.runtimePc, [i], {}, Hex(address), width)
       && RequestOf(q) in requests
  }

  /** The response names the current context, and a pending request of this kind. */
  predicate IsFor(st: Planner, r: Response, memory: bool)
  {
    && st.pcSeq.Some? && r.pcSeq == Some(st.pcSeq.value as int) && r.runtimePc in {"", st.runtimePc}
    && r.id.Some? && r.id.value in st.pending && st.pending[r.id.value].memory == memory
  }

  /**
    A response is accepted exactly if it names the current number, not another PC, and a
    pending request of its kind; a memory response also must not name another address or
    size. What is not accepted changes nothing.
   */
  lemma AcceptedIff(st: Planner, r: Response)
    requires Good(st)
    ensures ApplyReg(st, r).0 <==> IsFor(st, r, false)
    ensures ApplyMem(st, r).0 <==>
            && IsFor(st, r, true) && r.address in {"", st.pending[r.id.value].address}
            && (r.size.Some? ==> r.size.value == st.pending[r.id.value].size)
    ensures !ApplyReg(st, r).0 ==> ApplyReg(st, r).1 == st && ApplyReg(st, r).2 == []
    ensures !ApplyMem(st, r).0 ==> ApplyMem(st, r).1 == st
  {
    if r.id.Some? && r.id.value in st.pending {
      assert IsCurrent(st, r.id.value, st.pending[r.id.value]);
    }
  }

  /** What a register answer makes of one row that waits for it. */
  ghost predicate RowAnswered(before: Planner, after: Planner, requests: seq<Request>, p: Pending, r: Response, i: nat)
    requires i in before.records && i in after.records && i in before.evidence
  {
    var row, row' := before.records[i], after.records[i];
    SameIdentity(row, row') &&
    match before.evidence[i]
    case Register(spec) =>
      if ExactWidth(row.width) && row.width <= spec.width && exists n :: Gives(r, spec.full, n) then
        exists n :: Gives(r, spec.full, n) && row'.status == Fresh && ShowsWindow(row'.value, n, spec.offset, row.width)
      else HasFailed(row, row')
    case Stack(offset) =>
      if exists n :: Gives(r, "rsp", n) && 0 <= n + offset < QUAD then
        row' == row && exists n :: Gives(r, "rsp", n) && AsksSlot(after, requests, p, i, n + offset, row.width)
      else HasFailed(row, row')
    case _ => row' == row
  }

  lemma RegRowAnswered(a: Applied, p: Pending, r: Response, i: nat)
    requires RowsCurrent(a.st) && i in a.st.records && i in a.st.evidence && r.ok && r.registers.Some?
    ensures var a' := ApplyRegRow(a, p, r.registers.value, i);
            i in a'.st.records && RowAnswered(a.st, a'.st, a'.requests, p, r, i)
  {
    match a.st.evidence[i] {
      case Register(_) => RegisterRowAnswered(a, p, r, i);
      case Stack(_) => StackRowAnswered(a, p, r, i);
      case _ =>
    }
  }

  lemma RegisterRowAnswered(a: Applied, p: Pending, r: Response, i: nat)
    requires RowsCurrent(a.st) && i in a.st.records && i in a.st.evidence && r.ok && r.registers.Some?
    requires a.st.evidence[i].Register?
    ensures var a' := ApplyRegRow(a, p, r.registers.value, i);
            i in a'.st.records && RowAnswered(a.st, a'.st, a'.requests, p, r, i)
  {
    var spec, width := a.st.evidence[i].spec, a.st.records[i].width;
    var text := RegisterText(r.registers.value, spec, width);
    if text.Some? {
      var n := r.registers.value[spec.full].n;
      assert Gives(r, spec.full, n);
      ExtractShows(n, spec.offset, width);
    }
  }

  lemma StackRowAnswered(a: Applied, p: Pending, r: Response, i: nat)
    requires RowsCurrent(a.st) && i in a.st.records && i in a.st.evidence && r.ok && r.registers.Some?
    requires a.st.evidence[i].Stack?
    ensures var a' := ApplyRegRow(a, p, r.registers.value, i);
            i in a'.st.records && RowAnswered(a.st, a'.st, a'.requests, p, r, i)
  {
    var offset := a.st.evidence[i].offset;
    if StackAddress(r.registers.value, offset).Some? {
      var n := r.registers.value["rsp"].n;
      assert Gives(r, "rsp", n);
      var a' := ApplyRegRow(a, p, r.registers.value, i);
      assert AsksSlot(a'.st, a'.requests, p, i, n + offset, a.st.records[i].width);
    }
  }

  lemma AnsweredStays(start: Planner, a: Applied, p: Pending, r: Response, i: nat, j: nat)
    requires RowsCurrent(a.st) && i != j && r.ok && r.registers.Some?
    requires i in start.records && i in start.evidence && i in a.st.records
    requires RowAnswered(start, a.st, a.requests, p, r, i)
    ensures var a' := ApplyRegRow(a, p, r.registers.value, j);
            i in a'.st.records && RowAnswered(start, a'.st, a'.requests, p, r, i)
  {
    MemIdsDiffer(p.pcSeq, i, j);
    var a' := ApplyRegRow(a, p, r.registers.value, j);
    assert a'.st.records[i] == a.st.records[i];
    assert forall q :: q in a.requests ==> q in a'.requests;
    assert MemId(p.pcSeq, i) in a.st.pending ==>
             MemId(p.pcSeq, i) in a'.st.pending && a'.st.pending[MemId(p.pcSeq, i)] == a.st.pending[MemId(p.pcSeq, i)];
  }

  lemma {:induction false} RegRowsAnswered(start: Planner, p: Pending, r: Response, indexes: seq<nat>, i: nat)
    requires RowsCurrent(start) && HistoryBounded(start) && Distinct(indexes) && OnlyMemory(start)
    requires start.pcSeq == Some(p.pcSeq) && start.runtimePc == p.runtimePc && r.ok && r.registers.Some?
    requires i in indexes && i in start.records && i in start.evidence
    ensures var a := ApplyRegRows(Applied(start, []), p, r.registers.value, indexes);
            i in a.st.records && RowAnswered(start, a.st, a.requests, p, r, i)
    decreases |indexes|
  {
    LastIsNew(indexes);
    var init, last := indexes[..|indexes| - 1], indexes[|indexes| - 1];
    RegRowsKeep(start, p, r.registers.value, init);
    var a := ApplyRegRows(Applied(start, []), p, r.registers.value, init);
    if i == last {
      SameRowBefore(start, a.st, Elements(init), i);
      RegRowAnswered(a, p, r, i);
      AnsweredFrom(start, a.st, ApplyRegRow(a, p, r.registers.value, i), p, r, i);
    } else {
      assert i in init;
      RegRowsAnswered(start, p, r, init, i);
      AnsweredStays(start, a, p, r, i, last);
    }
  }

  lemma SameRowBefore(start: Planner, st: Planner, done: set<nat>, i: nat)
    requires RowsKept(start, st, done) && i !in done && i in start.records
    ensures i in st.records && st.records[i] == start.records[i] && st.evidence == start.evidence
  {
  }

  lemma AnsweredFrom(start: Planner, st: Planner, a: Applied, p: Pending, r: Response, i: nat)
    requires i in start.records && i in start.evidence && i in st.records && i in a.st.records
    requires st.records[i] == start.records[i] && st.evidence == start.evidence
    requires RowAnswered(st, a.st, a.requests, p, r, i)
    ensures RowAnswered(start, a.st, a.requests, p, r, i)
  {
  }

  /** The pending table and the requests that were issued are the same. */
  ghost predicate Booked(a: Applied)
  {
    && (forall id :: id in a.st.pending ==> RequestOf(a.st.pending[id]) in a.requests)
    && (forall q :: q in a.requests ==> q.MemRequest? && q.id in a.st.pending && RequestOf(a.st.pending[q.id]) == q)
  }

  lemma RegRowBooks(a: Applied, p: Pending, registers: map<string, Raw>, i: nat)
    requires Booked(a) && MemId(p.pcSeq, i) !in a.st.pending
    ensures Booked(ApplyRegRow(a, p, registers, i))
    ensures forall id :: id in ApplyRegRow(a, p, registers, i).st.pending ==>
            id in a.st.pending || id == MemId(p.pcSeq, i)
  {
    var a' := ApplyRegRow(a, p, registers, i);
    if a'.st.pending == a.st.pending {
      assert a'.requests == a.requests;
    } else {
      var q := a'.st.pending[MemId(p.pcSeq, i)];
      assert a'.st.pending == a.st.pending[q.id := q] && a'.requests == a.requests + [RequestOf(q)];
      OneMoreBooked(a, a', q);
    }
  }

  lemma OneMoreBooked(a: Applied, a': Applied, q: Pending)
    requires Booked(a) && q.memory && q.id !in a.st.pending
    requires a'.st.pending == a.st.pending[q.id := q] && a'.requests == a.requests + [RequestOf(q)]
    ensures Booked(a')
  {
  }

  lemma {:induction false} RegRowsBook(start: Planner, p: Pending, registers: map<string, Raw>, indexes: seq<nat>)
    requires start.pending == map[] && Distinct(indexes)
    ensures var a := ApplyRegRows(Applied(start, []), p, registers, indexes);
            && Booked(a)
            && forall id :: id in a.st.pending ==> exists i :: i in indexes && id == MemId(p.pcSeq, i)
    decreases |indexes|
  {
    if indexes != [] {
      LastIsNew(indexes);
      var init, last := indexes[..|indexes| - 1], indexes[|indexes| - 1];
      RegRowsBook(start, p, registers, init);
      var a := ApplyRegRows(Applied(start, []), p, registers, init);
      if MemId(p.pcSeq, last) in a.st.pending {
        var i :| i in init && MemId(p.pcSeq, last) == MemId(p.pcSeq, i);
        MemIdsDiffer(p.pcSeq, last, i);
        assert false;
      }
      RegRowBooks(a, p, registers, last);
      assert forall i :: i in init ==> i in indexes;
    }
  }

  lemma {:induction false} FailedRowsAre(start: Planner, indexes: seq<nat>, i: nat)
    requires RowsCurrent(start) && i in start.records
    ensures RowsCurrent(FailRows(start, indexes)) && FailRows(start, indexes).records.Keys == start.records.Keys
    ensures var row := FailRows(start, indexes).records[i];
            if i in indexes then HasFailed(start.records[i], row) else row == start.records[i]
    decreases |indexes|
  {
    if indexes != [] {
      FailedRowsAre(start, indexes[..|indexes| - 1], i);
      assert indexes == indexes[..|indexes| - 1] + [indexes[|indexes| - 1]];
    }
  }

  /**
    A register answer that is accepted: each row that waited for it shows its
    sub-register, has its slot asked for, or failed; the slots asked for are what is
    pending afterwards, and all other rows are as before.
   */
  lemma RegisterAnswerOutcome(st: Planner, r: Response, i: nat)
    requires Good(st) && Correlated(st, r, false).Some? && i in st.records
    ensures var p := Correlated(st, r, false).value;
            var (accepted, st', requests) := ApplyReg(st, r);
            && accepted && i in st'.records && Booked(Applied(st', requests))
            && if i !in p.indexes then st'.records[i] == st.records[i]
               else if !r.ok || r.registers.None? then HasFailed(st.records[i], st'.records[i])
               else i in st.evidence ==> RowAnswered(st, st', requests, p, r, i)
  {
    var p, start := Correlated(st, r, false).value, Take(st, r.id.value);
    assert IsCurrent(st, r.id.value, p);
    TakeRegisterRequest(st, r);
    if !r.ok || r.registers.None? {
      FailedRowsAre(start, p.indexes, i);
      FailRowsKeepPending(start, p.indexes);
    } else {
      RegRowsBook(start, p, r.registers.value, p.indexes);
      RegRowsKeep(start, p, r.registers.value, p.indexes);
      if i in p.indexes && i in st.evidence {
        var a := ApplyRegRows(Applied(start, []), p, r.registers.value, p.indexes);
        RegRowsAnswered(start, p, r, p.indexes, i);
        AnsweredSince(st, start, a, p, r, i);
      }
    }
  }

  lemma AnsweredSince(st: Planner, start: Planner, a: Applied, p: Pending, r: Response, i: nat)
    requires i in start.records && i in start.evidence && i in a.st.records
    requires st.records == start.records && st.evidence == start.evidence
    requires RowAnswered(start, a.st, a.requests, p, r, i)
    ensures RowAnswered(st, a.st, a.requests, p, r, i)
  {
  }

  /** The response answers the request with these bytes. */
  predicate GivesBytes(p: Pending, r: Response, bytes: seq<Byte>)
  {
    r.ok && FromHex(r.bytesHex) == Some(bytes) && |bytes| == p.size && ExactWidth(p.size)
  }

  /**
    A memory answer is accepted exactly if it is for a current memory request and names
    neither another address nor another size. The row then shows the bytes, or failed; no
    other row changes, and nothing else is pending.
   */
  lemma MemoryAnswerOutcome(st: Planner, r: Response)
    requires Good(st)
    ensures ApplyMem(st, r).0 <==>
            && Correlated(st, r, true).Some?
            && var p := Correlated(st, r, true).value;
               (r.address == "" || r.address == p.address) && (r.size.None? || r.size.value == p.size)
    ensures ApplyMem(st, r).0 ==>
            var p, st' := Correlated(st, r, true).value, ApplyMem(st, r).1;
            && st'.pending == st.pending - {r.id.value} && st'.records.Keys == st.records.Keys && |p.indexes| == 1
            && (forall i :: i in st.records && i != p.indexes[0] ==> st'.records[i] == st.records[i])
            && (p.indexes[0] in st.records ==>
                  var row, row' := st.records[p.indexes[0]], st'.records[p.indexes[0]];
                  SameIdentity(row, row') &&
                  if exists bytes :: GivesBytes(p, r, bytes) then
                    exists bytes :: GivesBytes(p, r, bytes) && row'.status == Fresh && ShowsBytes(row'.value, bytes)
                  else HasFailed(row, row'))
  {
    if ApplyMem(st, r).0 {
      var p, start := Correlated(st, r, true).value, Take(st, r.id.value);
      assert IsCurrent(st, r.id.value, p);
      assert p.indexes == [p.indexes[0]] && p.indexes[..0] == [];
      assert ApplyMemRows(start, p, r, []) == start;
      var bytes := FromHex(r.bytesHex);
      if bytes.Some? {
        LittleEndianShows(bytes.value);
        assert GivesBytes(p, r, bytes.value) <==> r.ok && MemoryText(r.bytesHex, p.size).Some?;
      }
    }
  }
}
