/** What the history keeps: the newest observation, and with room for all rows every current one. */
module RecoveryNewest {
  import opened Basics
  import opened RecoveryModel
  import opened RecoveryHistory
  import opened RecoveryRuns

  type Mark = (Key, Observation)

  // ---------------------------------------------------------------- numbered contexts

  /** The number of the context that is open or was opened last. */
  function LastSeq(evs: seq<Event>): nat
  {
    if evs == [] then 0
    else NextSeq(LastSeq(evs[..|evs| - 1]), evs[|evs| - 1])
  }

  function NextSeq(s: nat, ev: Event): nat
  {
    match ev
    case Begin(_, _, _, _, pcSeq) => pcSeq
    case Invalidate(_, pcSeq) => pcSeq
    case _ => s
  }

  /** Contexts are numbered in order, as long as the extension stays loaded. */
  ghost predicate NeverBack(evs: seq<Event>)
  {
    forall k :: 0 < k <= |evs| ==> LastSeq(evs[..k - 1]) <= LastSeq(evs[..k])
  }

  /** A context is current, if any is, and nothing in the history is newer than `s`. */
  ghost predicate NotAhead(st: Planner, s: nat)
  {
    (st.pcSeq.Some? ==> st.pcSeq.value == s) && forall x :: x in st.history ==> x.1.pcSeq <= s
  }

  lemma StepSeq(st: Planner, ev: Event)
    requires Good(st) && Legal(ev)
    ensures match ev
            case Begin(_, _, _, _, pcSeq) => Step(st, ev).pcSeq == Some(pcSeq)
            case Invalidate(_, pcSeq) => Step(st, ev).pcSeq == Some(pcSeq)
            case Clear => Step(st, ev).pcSeq == None
            case _ => Step(st, ev).pcSeq == st.pcSeq
  {
    match ev {
      case Begin(vs, selected, analysis, runtimePc, pcSeq) =>
        BeginContext(st, vs, selected, analysis, runtimePc, pcSeq);
      case Reg(r) =>
        RegStepKeeps(st, r);
        var done :| RowsKept(st, ApplyReg(st, r).1, done);
      case Mem(r) =>
        MemStepKeeps(st, r);
        var done :| RowsKept(st, ApplyMem(st, r).1, done);
      case _ =>
    }
  }

  lemma AccountedNotAhead(st: Planner, st': Planner, s: nat, s': nat)
    requires StepAccounted(st, st') && RowsCurrent(st') && NotAhead(st, s) && s <= s'
    requires st'.pcSeq.Some? ==> st'.pcSeq.value == s'
    ensures NotAhead(st', s')
  {
  }

  lemma StepNotAhead(st: Planner, ev: Event, s: nat)
    requires Good(st) && Legal(ev) && NotAhead(st, s) && s <= NextSeq(s, ev)
    ensures NotAhead(Step(st, ev), NextSeq(s, ev))
  {
    StepKeeps(st, ev);
    StepSeq(st, ev);
    AccountedNotAhead(st, Step(st, ev), s, NextSeq(s, ev));
  }

  lemma NeverBackPrefix(evs: seq<Event>)
    requires NeverBack(evs) && evs != []
    ensures NeverBack(evs[..|evs| - 1]) && LastSeq(evs[..|evs| - 1]) <= LastSeq(evs)
  {
    var init := evs[..|evs| - 1];
    forall k | 0 < k <= |init| ensures LastSeq(init[..k - 1]) <= LastSeq(init[..k]) {
      assert init[..k] == evs[..k] && init[..k - 1] == evs[..k - 1];
    }
    assert evs[..|evs|] == evs;
  }

  lemma {:induction false} HistoryNotAhead(max: int, evs: seq<Event>)
    requires LegalRun(evs) && NeverBack(evs)
    ensures NotAhead(Run(Create(max), evs), LastSeq(evs))
    decreases |evs|
  {
    if evs != [] {
      var init := evs[..|evs| - 1];
      NeverBackPrefix(evs);
      HistoryNotAhead(max, init);
      RunIsGood(max, init);
      StepNotAhead(Run(Create(max), init), evs[|evs| - 1], LastSeq(init));
    }
  }

  // ---------------------------------------------------------------- the observations an event marks

  function MarkOf(st: Planner, r: Record, text: string): Mark
  {
    ((r.functionStart, r.index), Observe(st.sources, r, text))
  }

  /** What planning one row marks: an exact constant. */
  function PlanRowMarks(plan: Plan, v: Variable, ok: bool, selected: set<nat>, runtimePc: string, pcSeq: nat): seq<Mark>
  {
    var storage := StorageFor(plan.st, ok, selected, v.index);
    match Decide(ok, storage, v.size)
    case Show(text) => [MarkOf(plan.st, NewRecord(plan.st, v, storage, runtimePc, pcSeq), text)]
    case _ => []
  }

  function PlanMarks(plan: Plan, vs: seq<Variable>, ok: bool, selected: set<nat>, runtimePc: string,
                     pcSeq: nat): seq<Mark>
    decreases |vs|
  {
    if vs == [] then []
    else
      var init := vs[..|vs| - 1];
      PlanMarks(plan, init, ok, selected, runtimePc, pcSeq)
      + PlanRowMarks(PlanRows(plan, init, ok, selected, runtimePc, pcSeq), vs[|vs| - 1], ok, selected, runtimePc, pcSeq)
  }

  /** What one row of a register response marks: the text of a proved register. */
  function RegRowMarks(st: Planner, registers: map<string, Raw>, index: nat): seq<Mark>
  {
    if index in st.records && index in st.evidence && st.evidence[index].Register? then
      match RegisterText(registers, st.evidence[index].spec, st.records[index].width)
      case Some(text) => [MarkOf(st, st.records[index], text)]
      case None => []
    else []
  }

  function RegMarks(a: Applied, p: Pending, registers: map<string, Raw>, indexes: seq<nat>): seq<Mark>
    decreases |indexes|
  {
    if indexes == [] then []
    else
      var init := indexes[..|indexes| - 1];
      RegMarks(a, p, registers, init)
        + RegRowMarks(ApplyRegRows(a, p, registers, init).st, registers, indexes[|indexes| - 1])
  }

  function MemRowMarks(st: Planner, p: Pending, r: Response, index: nat): seq<Mark>
  {
    if index in st.records && r.ok && MemoryText(r.bytesHex, p.size).Some? then
      [MarkOf(st, st.records[index], MemoryText(r.bytesHex, p.size).value)]
    else []
  }

  function MemMarks(st: Planner, p: Pending, r: Response, indexes: seq<nat>): seq<Mark>
    decreases |indexes|
  {
    if indexes == [] then []
    else
      var init := indexes[..|indexes| - 1];
      MemMarks(st, p, r, init) + MemRowMarks(ApplyMemRows(st, p, r, init), p, r, indexes[|indexes| - 1])
  }

  function Started(st: Planner, ev: Event): Planner
    requires ev.Begin?
  {
    StartContext(st, ev.runtimePc, ev.pcSeq).(evidence := ev.analysis.evidence, sources := Locals(ev.vs))
  }

  /** The observations that an event marks as fresh, in order. */
  function Marks(st: Planner, ev: Event): seq<Mark>
  {
    match ev
    case Begin(vs, selected, analysis, runtimePc, pcSeq) =>
      PlanMarks(Plan(Started(st, ev), {}, []), Locals(vs), analysis.ok, selected, runtimePc, pcSeq)
    case Reg(r) =>
      (match Correlated(st, r, false)
       case None => []
       case Some(p) =>
         if !r.ok || r.registers.None? then []
         else RegMarks(Applied(Take(st, r.id.value), []), p, r.registers.value, p.indexes))
    case Mem(r) =>
      if !ApplyMem(st, r).0 then []
      else
        var p := Correlated(st, r, true).value;
        MemMarks(Take(st, r.id.value), p, r, p.indexes)
    case _ => []
  }

  /** The history once the marks are recorded one after the other. */
  function RecordAll(h: History, marks: seq<Mark>, max: nat): History
    decreases |marks|
  {
    if marks == [] then h
    else
      var last := marks[|marks| - 1];
      Prune(Put(RecordAll(h, marks[..|marks| - 1], max), last.0, last.1), max)
  }

  lemma RecordNext(h: History, marks: seq<Mark>, more: seq<Mark>, max: nat)
    requires |more| <= 1
    ensures RecordAll(h, marks + more, max) == RecordAll(RecordAll(h, marks, max), more, max)
  {
    if more == [] {
      assert marks + more == marks;
    } else {
      assert (marks + more)[..|marks|] == marks && more[..0] == [];
    }
  }

  lemma {:induction false} PlanRecords(plan: Plan, vs: seq<Variable>, ok: bool, selected: set<nat>, runtimePc: string,
                                       pcSeq: nat)
    ensures var st := PlanRows(plan, vs, ok, selected, runtimePc, pcSeq).st;
            && st.maxHistory == plan.st.maxHistory
            && st.history ==
               RecordAll(plan.st.history, PlanMarks(plan, vs, ok, selected, runtimePc, pcSeq), plan.st.maxHistory)
    decreases |vs|
  {
    if vs != [] {
      var init, v := vs[..|vs| - 1], vs[|vs| - 1];
      PlanRecords(plan, init, ok, selected, runtimePc, pcSeq);
      var before := PlanRows(plan, init, ok, selected, runtimePc, pcSeq);
      PlanRowRecords(before, v, ok, selected, runtimePc, pcSeq);
      RecordNext(plan.st.history, PlanMarks(plan, init, ok, selected, runtimePc, pcSeq),
                 PlanRowMarks(before, v, ok, selected, runtimePc, pcSeq), plan.st.maxHistory);
    }
  }

  lemma PlanRowRecords(plan: Plan, v: Variable, ok: bool, selected: set<nat>, runtimePc: string, pcSeq: nat)
    ensures var st := PlanRow(plan, v, ok, selected, runtimePc, pcSeq).st;
            var marks := PlanRowMarks(plan, v, ok, selected, runtimePc, pcSeq);
            && st.maxHistory == plan.st.maxHistory && |marks| <= 1
            && st.history == RecordAll(plan.st.history, marks, plan.st.maxHistory)
  {
    var marks := PlanRowMarks(plan, v, ok, selected, runtimePc, pcSeq);
    if marks != [] {
      assert marks[..0] == [];
    }
  }

  lemma RegRowRecords(a: Applied, p: Pending, registers: map<string, Raw>, index: nat)
    ensures var st := ApplyRegRow(a, p, registers, index).st;
            var marks := RegRowMarks(a.st, registers, index);
            st.maxHistory == a.st.maxHistory && |marks| <= 1
              && st.history == RecordAll(a.st.history, marks, a.st.maxHistory)
  {
    var marks := RegRowMarks(a.st, registers, index);
    if marks != [] {
      assert marks[..0] == [];
    }
  }

  lemma {:induction false} RegRecords(a: Applied, p: Pending, registers: map<string, Raw>, indexes: seq<nat>)
    ensures var st := ApplyRegRows(a, p, registers, indexes).st;
            && st.maxHistory == a.st.maxHistory
            && st.history == RecordAll(a.st.history, RegMarks(a, p, registers, indexes), a.st.maxHistory)
    decreases |indexes|
  {
    if indexes != [] {
      var init, index := indexes[..|indexes| - 1], indexes[|indexes| - 1];
      RegRecords(a, p, registers, init);
      var before := ApplyRegRows(a, p, registers, init);
      RegRowRecords(before, p, registers, index);
      RecordNext(a.st.history, RegMarks(a, p, registers, init), RegRowMarks(before.st, registers, index),
                 a.st.maxHistory);
    }
  }

  lemma MemRowRecords(st: Planner, p: Pending, r: Response, index: nat)
    ensures var st' := ApplyMemRow(st, p, r, index);
            var marks := MemRowMarks(st, p, r, index);
            st'.maxHistory == st.maxHistory && |marks| <= 1
              && st'.history == RecordAll(st.history, marks, st.maxHistory)
  {
    var marks := MemRowMarks(st, p, r, index);
    if marks != [] {
      assert marks[..0] == [];
    }
  }

  lemma {:induction false} MemRecords(st: Planner, p: Pending, r: Response, indexes: seq<nat>)
    ensures var st' := ApplyMemRows(st, p, r, indexes);
            st'.maxHistory == st.maxHistory
              && st'.history == RecordAll(st.history, MemMarks(st, p, r, indexes), st.maxHistory)
    decreases |indexes|
  {
    if indexes != [] {
      var init, index := indexes[..|indexes| - 1], indexes[|indexes| - 1];
      MemRecords(st, p, r, init);
      var before := ApplyMemRows(st, p, r, init);
      MemRowRecords(before, p, r, index);
      RecordNext(st.history, MemMarks(st, p, r, init), MemRowMarks(before, p, r, index), st.maxHistory);
    }
  }

  lemma {:induction false} FailRowsKeepHistory(st: Planner, indexes: seq<nat>)
    ensures FailRows(st, indexes).history == st.history
    decreases |indexes|
  {
    if indexes != [] {
      FailRowsKeepHistory(st, indexes[..|indexes| - 1]);
    }
  }

  /** Every event records exactly the observations it marks, in order, and prunes after each. */
  lemma StepRecords(st: Planner, ev: Event)
    ensures Step(st, ev).history == RecordAll(st.history, Marks(st, ev), st.maxHistory)
  {
    match ev {
      case Begin(vs, selected, analysis, runtimePc, pcSeq) =>
        PlanRecords(Plan(Started(st, ev), {}, []), Locals(vs), analysis.ok, selected, runtimePc, pcSeq);
      case Reg(r) =>
        var c := Correlated(st, r, false);
        if c.Some? {
          FailRowsKeepHistory(Take(st, r.id.value), c.value.indexes);
          if r.registers.Some? {
            RegRecords(Applied(Take(st, r.id.value), []), c.value, r.registers.value, c.value.indexes);
          }
        }
      case Mem(r) =>
        var c := Correlated(st, r, true);
        if c.Some? {
          MemRecords(Take(st, r.id.value), c.value, r, c.value.indexes);
        }
      case _ =>
    }
  }

  // ---------------------------------------------------------------- the last mark

  ghost predicate AllOf(marks: seq<Mark>, s: nat)
  {
    forall k :: 0 <= k < |marks| ==> marks[k].1.pcSeq == s
  }

  ghost predicate AtMost(h: History, s: nat)
  {
    forall x :: x in h ==> x.1.pcSeq <= s
  }

  /** Recording marks of the newest context keeps the history in bounds and keeps the last of them. */
  lemma {:induction false} RecordedLast(h: History, marks: seq<Mark>, max: nat, s: nat)
    requires DistinctKeys(h) && |h| <= max && max >= 1 && AtMost(h, s) && AllOf(marks, s)
    ensures var h' := RecordAll(h, marks, max);
            DistinctKeys(h') && |h'| <= max && AtMost(h', s) && (marks != [] ==> marks[|marks| - 1] in h')
    decreases |marks|
  {
    if marks != [] {
      var init, last := marks[..|marks| - 1], marks[|marks| - 1];
      RecordedLast(h, init, max, s);
      RecordSpec(RecordAll(h, init, max), max, last.0, last.1);
      NewestSurvives(RecordAll(h, init, max), max, last.0, last.1);
    }
  }

  lemma {:induction false} PlanMarksCurrent(plan: Plan, vs: seq<Variable>, ok: bool, selected: set<nat>,
                                            runtimePc: string, pcSeq: nat)
    ensures AllOf(PlanMarks(plan, vs, ok, selected, runtimePc, pcSeq), pcSeq)
    decreases |vs|
  {
    if vs != [] {
      PlanMarksCurrent(plan, vs[..|vs| - 1], ok, selected, runtimePc, pcSeq);
    }
  }

  lemma {:induction false} RegMarksCurrent(start: Planner, p: Pending, registers: map<string, Raw>, indexes: seq<nat>)
    requires RowsCurrent(start) && HistoryBounded(start) && Distinct(indexes) && OnlyMemory(start)
    requires start.pcSeq == Some(p.pcSeq) && start.runtimePc == p.runtimePc
    ensures AllOf(RegMarks(Applied(start, []), p, registers, indexes), p.pcSeq)
    decreases |indexes|
  {
    if indexes != [] {
      LastIsNew(indexes);
      RegMarksCurrent(start, p, registers, indexes[..|indexes| - 1]);
      RegRowsKeep(start, p, registers, indexes[..|indexes| - 1]);
    }
  }

  /** The marks of an event carry the number of the context it leaves open. */
  lemma MarksAreCurrent(st: Planner, ev: Event)
    requires Good(st) && Legal(ev)
    ensures Marks(st, ev) != [] ==> Step(st, ev).pcSeq.Some? && AllOf(Marks(st, ev), Step(st, ev).pcSeq.value)
  {
    StepSeq(st, ev);
    match ev {
      case Begin(vs, selected, analysis, runtimePc, pcSeq) =>
        PlanMarksCurrent(Plan(Started(st, ev), {}, []), Locals(vs), analysis.ok, selected, runtimePc, pcSeq);
      case Reg(r) =>
        var c := Correlated(st, r, false);
        if c.Some? && r.registers.Some? {
          assert IsCurrent(st, r.id.value, c.value);
          TakeRegisterRequest(st, r);
          RegMarksCurrent(Take(st, r.id.value), c.value, r.registers.value, c.value.indexes);
        }
      case Mem(r) =>
        if ApplyMem(st, r).0 {
          OneMemoryMark(st, r);
        }
      case _ =>
    }
  }

  /** An accepted memory response works on one row. */
  lemma OneMemoryMark(st: Planner, r: Response)
    requires Good(st) && ApplyMem(st, r).0
    ensures var p := Correlated(st, r, true).value;
            && p.memory && |p.indexes| == 1
            && Marks(st, Mem(r)) == MemRowMarks(Take(st, r.id.value), p, r, p.indexes[0])
            && ApplyMem(st, r).1 == ApplyMemRow(Take(st, r.id.value), p, r, p.indexes[0])
  {
    var p, start := Correlated(st, r, true).value, Take(st, r.id.value);
    assert IsCurrent(st, r.id.value, p);
    assert p.indexes[..0] == [] && ApplyMemRows(start, p, r, []) == start && MemMarks(start, p, r, []) == [];
    assert MemMarks(start, p, r, p.indexes) == [] + MemRowMarks(start, p, r, p.indexes[0]);
  }

  lemma StepKeepsLastMark(st: Planner, ev: Event, s: nat)
    requires Good(st) && Legal(ev) && NotAhead(st, s) && s <= NextSeq(s, ev)
    requires Marks(st, ev) != []
    ensures Marks(st, ev)[|Marks(st, ev)| - 1] in Step(st, ev).history
  {
    MarksAreCurrent(st, ev);
    StepNotAhead(st, ev, s);
    StepRecords(st, ev);
    RecordedLast(st.history, Marks(st, ev), st.maxHistory, NextSeq(s, ev));
  }

  /**
    In a run whose contexts are numbered in order, the observation that an event marks
    last is in the history after the event, whatever else was marked and pruned.
   */
  lemma NewestSurvivesInRun(max: int, evs: seq<Event>)
    requires LegalRun(evs) && NeverBack(evs) && evs != []
    ensures var marks := Marks(Run(Create(max), evs[..|evs| - 1]), evs[|evs| - 1]);
            marks != [] ==> marks[|marks| - 1] in Run(Create(max), evs).history
  {
    var init := evs[..|evs| - 1];
    NeverBackPrefix(evs);
    HistoryNotAhead(max, init);
    RunIsGood(max, init);
    if Marks(Run(Create(max), init), evs[|evs| - 1]) != [] {
      StepKeepsLastMark(Run(Create(max), init), evs[|evs| - 1], LastSeq(init));
    }
  }

  // ---------------------------------------------------------------- every current observation

  /** The rows of the newest context stand behind all entries of that context. */
  ghost predicate Backs(h: History, s: nat, rows: map<nat, Record>)
  {
    forall x :: x in h && x.1.pcSeq == s ==> x.0.1 in rows && rows[x.0.1].functionStart == x.0.0
  }

  ghost predicate BackedBy(m: Mark, rows: map<nat, Record>)
  {
    m.0.1 in rows && rows[m.0.1].functionStart == m.0.0
  }

  /** Entries that belong to different rows are at most as many as the rows. */
  lemma BackedCount(marks: seq<Mark>, rows: map<nat, Record>)
    requires forall i :: 0 <= i < |marks| ==> BackedBy(marks[i], rows)
    requires forall i, j :: 0 <= i < j < |marks| ==> marks[i].0 != marks[j].0
    ensures |marks| <= |rows.Keys|
  {
    var xs := seq(|marks|, i requires 0 <= i < |marks| => marks[i].0.1);
    forall i, j | 0 <= i < j < |xs| ensures xs[i] != xs[j] {
      assert BackedBy(marks[i], rows) && BackedBy(marks[j], rows);
    }
    forall x | x in xs ensures x in rows.Keys {
      var i :| 0 <= i < |xs| && xs[i] == x;
      assert BackedBy(marks[i], rows);
    }
    DistinctWithin(xs, rows.Keys);
  }

  /** With room for all rows, pruning drops no entry of the newest context. */
  lemma TopSurvives(h: History, max: nat, s: nat, rows: map<nat, Record>, y: Mark)
    requires DistinctKeys(h) && AtMost(h, s) && Backs(h, s, rows) && |rows.Keys| <= max
    requires y in h && y.1.pcSeq == s
    ensures y in Prune(h, max)
  {
    PruneSpec(h, max);
    var kept := Prune(h, max);
    if y !in kept {
      var marks := kept + [y];
      forall i | 0 <= i < |kept| ensures BackedBy(kept[i], rows) && kept[i].0 != y.0 {
        assert kept[i] in kept;
        KeysTell(h, kept[i], y);
      }
      BackedCount(marks, rows);
    }
  }

  lemma KeysTell(h: History, x: Mark, y: Mark)
    requires DistinctKeys(h) && x in h && y in h && x != y
    ensures x.0 != y.0
  {
    var i :| 0 <= i < |h| && h[i] == x;
    var j :| 0 <= j < |h| && h[j] == y;
  }

  /** The observation that a row shows. */
  function Shown(st: Planner, i: nat): Mark
    requires i in st.records
  {
    var r := st.records[i];
    ((r.functionStart, i), Observation(r.name, r.width, r.typ, DefeaOf(st.sources, i), r.value, r.pcSeq))
  }

  ghost predicate FreshIsRecorded(st: Planner)
  {
    forall i :: i in st.records && st.records[i].status == Fresh ==> Shown(st, i) in st.history
  }

  ghost predicate RowsOf(st: Planner, s: nat)
  {
    forall i :: i in st.records ==> st.records[i].pcSeq == s && st.records[i].index == i
  }

  /** All fresh rows are recorded, and all entries of their context belong to rows. */
  ghost predicate Kept(st: Planner, s: nat)
  {
    && FreshIsRecorded(st) && RowsOf(st, s) && AtMost(st.history, s) && Backs(st.history, s, st.records)
    && DistinctKeys(st.history) && |st.history| <= st.maxHistory && |st.records.Keys| <= st.maxHistory
  }

  ghost predicate SameRow(st: Planner, r: Record, s: nat)
  {
    r.pcSeq == s && (r.index in st.records ==> st.records[r.index].functionStart == r.functionStart)
  }

  /** Once a mark is put into the history, all entries of its context still belong to rows. */
  lemma PutIsBacked(h: History, s: nat, rows: map<nat, Record>, rows': map<nat, Record>, m: Mark)
    requires DistinctKeys(h) && AtMost(h, s) && Backs(h, s, rows) && m.1.pcSeq == s && BackedBy(m, rows')
    requires forall i :: i in rows ==> i in rows' && rows'[i].functionStart == rows[i].functionStart
    ensures var h' := Put(h, m.0, m.1); DistinctKeys(h') && AtMost(h', s) && Backs(h', s, rows') && m in h'
  {
    PutSpec(h, m.0, m.1);
  }

  lemma OtherRowsRecorded(st: Planner, s: nat, r: Record, value: string, i: nat)
    requires Kept(st, s) && i in st.records && st.records[i].status == Fresh && i != r.index
    ensures var m := MarkOf(st, r, value);
            Shown(MarkFresh(st, r, value), i) == Shown(st, i) && Shown(st, i) in Put(st.history, m.0, m.1)
  {
    var m := MarkOf(st, r, value);
    PutSpec(st.history, m.0, m.1);
  }

  lemma PrunedIsBacked(h: History, s: nat, rows: map<nat, Record>, max: nat)
    requires DistinctKeys(h) && AtMost(h, s) && Backs(h, s, rows)
    ensures var h' := Prune(h, max); DistinctKeys(h') && AtMost(h', s) && Backs(h', s, rows) && |h'| <= max
  {
    PruneSpec(h, max);
  }

  lemma MarkedRows(st: Planner, s: nat, r: Record, value: string)
    requires RowsOf(st, s) && SameRow(st, r, s)
    ensures var st', m := MarkFresh(st, r, value), MarkOf(st, r, value);
            && RowsOf(st', s) && st'.records.Keys == st.records.Keys + {r.index} && BackedBy(m, st'.records)
            && m.1.pcSeq == s
            && (forall i :: i in st.records ==>
               i in st'.records && st'.records[i].functionStart == st.records[i].functionStart)
            && Shown(st', r.index) == m
  {
  }

  lemma MarkedIsRecorded(st: Planner, s: nat, r: Record, value: string, i: nat)
    requires Kept(st, s) && SameRow(st, r, s) && |st.records.Keys + {r.index}| <= st.maxHistory
    requires i in MarkFresh(st, r, value).records && MarkFresh(st, r, value).records[i].status == Fresh
    ensures Shown(MarkFresh(st, r, value), i) in MarkFresh(st, r, value).history
  {
    var st', m := MarkFresh(st, r, value), MarkOf(st, r, value);
    MarkedRows(st, s, r, value);
    PutIsBacked(st.history, s, st.records, st'.records, m);
    if i != r.index {
      OtherRowsRecorded(st, s, r, value, i);
    }
    TopSurvives(Put(st.history, m.0, m.1), st.maxHistory, s, st'.records, Shown(st', i));
  }

  lemma MarkedIsKept(st: Planner, s: nat, r: Record, value: string)
    requires Kept(st, s) && SameRow(st, r, s) && |st.records.Keys + {r.index}| <= st.maxHistory
    ensures Kept(MarkFresh(st, r, value), s)
  {
    var st', m := MarkFresh(st, r, value), MarkOf(st, r, value);
    MarkedRows(st, s, r, value);
    PutIsBacked(st.history, s, st.records, st'.records, m);
    PrunedIsBacked(Put(st.history, m.0, m.1), s, st'.records, st.maxHistory);
    forall i | i in st'.records && st'.records[i].status == Fresh ensures Shown(st', i) in st'.history {
      MarkedIsRecorded(st, s, r, value, i);
    }
  }

  lemma SetIsKept(st: Planner, s: nat, r: Record)
    requires Kept(st, s) && SameRow(st, r, s) && r.status != Fresh && |st.records.Keys + {r.index}| <= st.maxHistory
    ensures Kept(SetRow(st, r), s)
  {
    SetRowsStay(st, s, r);
    SetIsRecorded(st, r);
  }

  lemma SetRowsStay(st: Planner, s: nat, r: Record)
    requires RowsOf(st, s) && Backs(st.history, s, st.records) && SameRow(st, r, s)
    ensures RowsOf(SetRow(st, r), s) && Backs(st.history, s, SetRow(st, r).records)
    ensures SetRow(st, r).records.Keys == st.records.Keys + {r.index}
  {
  }

  lemma SetIsRecorded(st: Planner, r: Record)
    requires FreshIsRecorded(st) && r.status != Fresh
    ensures FreshIsRecorded(SetRow(st, r))
  {
    forall i | i in SetRow(st, r).records && SetRow(st, r).records[i].status == Fresh
      ensures Shown(SetRow(st, r), i) in st.history
    {
      assert Shown(st, i) in st.history;
    }
  }

  lemma PlanRowKeys(plan: Plan, v: Variable, ok: bool, selected: set<nat>, runtimePc: string, pcSeq: nat)
    ensures var st := PlanRow(plan, v, ok, selected, runtimePc, pcSeq).st;
            st.records.Keys == plan.st.records.Keys + {v.index} && st.maxHistory == plan.st.maxHistory
  {
  }

  lemma PlanRowIsKept(plan: Plan, v: Variable, ok: bool, selected: set<nat>, runtimePc: string, pcSeq: nat)
    requires Kept(plan.st, pcSeq) && v.index !in plan.st.records
    requires |plan.st.records.Keys + {v.index}| <= plan.st.maxHistory
    ensures Kept(PlanRow(plan, v, ok, selected, runtimePc, pcSeq).st, pcSeq)
  {
    var storage := StorageFor(plan.st, ok, selected, v.index);
    var r := NewRecord(plan.st, v, storage, runtimePc, pcSeq);
    match Decide(ok, storage, v.size) {
      case Show(text) => MarkedIsKept(plan.st, pcSeq, r, text);
      case Blank => SetIsKept(plan.st, pcSeq, r);
      case _ => SetIsKept(plan.st, pcSeq, StaleOrUnavailable(r));
    }
  }

  lemma {:induction false} PlanKeys(plan: Plan, vs: seq<Variable>, ok: bool, selected: set<nat>, runtimePc: string,
                                    pcSeq: nat)
    requires plan.st.records == map[]
    ensures var st := PlanRows(plan, vs, ok, selected, runtimePc, pcSeq).st;
            st.records.Keys == Indexes(vs) && st.maxHistory == plan.st.maxHistory
    decreases |vs|
  {
    if vs != [] {
      var init, v := vs[..|vs| - 1], vs[|vs| - 1];
      PlanKeys(plan, init, ok, selected, runtimePc, pcSeq);
      PlanRowKeys(PlanRows(plan, init, ok, selected, runtimePc, pcSeq), v, ok, selected, runtimePc, pcSeq);
      assert vs == init + [v];
      assert Indexes(vs) == Indexes(init) + {v.index};
    }
  }

  lemma {:induction false} IndexCount(vs: seq<Variable>)
    ensures |Indexes(vs)| <= |vs|
    decreases |vs|
  {
    if vs != [] {
      var init, v := vs[..|vs| - 1], vs[|vs| - 1];
      IndexCount(init);
      assert vs == init + [v];
      assert Indexes(vs) == Indexes(init) + {v.index};
    }
  }

  /** Planning a context with room for all of its rows. */
  lemma {:induction false} PlanIsKept(plan: Plan, vs: seq<Variable>, ok: bool, selected: set<nat>, runtimePc: string,
                                      pcSeq: nat)
    requires Kept(plan.st, pcSeq) && plan.st.records == map[] && DistinctIndexes(vs) && |vs| <= plan.st.maxHistory
    ensures Kept(PlanRows(plan, vs, ok, selected, runtimePc, pcSeq).st, pcSeq)
    decreases |vs|
  {
    if vs != [] {
      var init, v := vs[..|vs| - 1], vs[|vs| - 1];
      PlanIsKept(plan, init, ok, selected, runtimePc, pcSeq);
      PlanKeys(plan, init, ok, selected, runtimePc, pcSeq);
      IndexCount(init);
      assert v.index !in Indexes(init);
      PlanRowIsKept(PlanRows(plan, init, ok, selected, runtimePc, pcSeq), v, ok, selected, runtimePc, pcSeq);
    }
  }

  lemma FailIsKept(st: Planner, s: nat, index: nat)
    requires Kept(st, s) && index in st.records
    ensures Kept(FailRow(st, index), s)
  {
    assert FailRow(st, index) == SetRow(st, MarkFailed(st.records[index]));
    assert st.records.Keys + {index} == st.records.Keys;
    SetIsKept(st, s, MarkFailed(st.records[index]));
  }

  lemma FreshIsKept(st: Planner, s: nat, index: nat, text: string)
    requires Kept(st, s) && index in st.records
    ensures Kept(MarkFresh(st, st.records[index], text), s)
  {
    assert st.records.Keys + {index} == st.records.Keys;
    MarkedIsKept(st, s, st.records[index], text);
  }

  /** The pending table plays no part. */
  lemma PendingIsFree(st: Planner, s: nat, pending: map<string, Pending>)
    requires Kept(st, s)
    ensures Kept(st.(pending := pending), s)
  {
    var st' := st.(pending := pending);
    forall i | i in st'.records && st'.records[i].status == Fresh ensures Shown(st', i) in st'.history {
      assert Shown(st, i) in st.history;
    }
  }

  lemma RegRowIsKept(a: Applied, p: Pending, registers: map<string, Raw>, index: nat, s: nat)
    requires Kept(a.st, s)
    ensures Kept(ApplyRegRow(a, p, registers, index).st, s)
  {
    var st' := ApplyRegRow(a, p, registers, index).st;
    RegRowOutcome(a, p, registers, index);
    if index in a.st.records && st' == FailRow(a.st, index) {
      FailIsKept(a.st, s, index);
    } else if index in a.st.records && st' == MarkFresh(a.st, a.st.records[index], st'.records[index].value) {
      FreshIsKept(a.st, s, index, st'.records[index].value);
    } else {
      PendingIsFree(a.st, s, st'.pending);
    }
  }

  lemma {:induction false} RegRowsAreKept(a: Applied, p: Pending, registers: map<string, Raw>, indexes: seq<nat>,
                                          s: nat)
    requires Kept(a.st, s)
    ensures Kept(ApplyRegRows(a, p, registers, indexes).st, s)
    decreases |indexes|
  {
    if indexes != [] {
      RegRowsAreKept(a, p, registers, indexes[..|indexes| - 1], s);
      RegRowIsKept(ApplyRegRows(a, p, registers, indexes[..|indexes| - 1]), p, registers, indexes[|indexes| - 1], s);
    }
  }

  lemma {:induction false} FailRowsAreKept(st: Planner, indexes: seq<nat>, s: nat)
    requires Kept(st, s)
    ensures Kept(FailRows(st, indexes), s)
    decreases |indexes|
  {
    if indexes != [] {
      FailRowsAreKept(st, indexes[..|indexes| - 1], s);
      var before := FailRows(st, indexes[..|indexes| - 1]);
      if indexes[|indexes| - 1] in before.records {
        FailIsKept(before, s, indexes[|indexes| - 1]);
      }
    }
  }

  lemma {:induction false} MemRowsAreKept(st: Planner, p: Pending, r: Response, indexes: seq<nat>, s: nat)
    requires Kept(st, s)
    ensures Kept(ApplyMemRows(st, p, r, indexes), s)
    decreases |indexes|
  {
    if indexes != [] {
      MemRowsAreKept(st, p, r, indexes[..|indexes| - 1], s);
      var before, index := ApplyMemRows(st, p, r, indexes[..|indexes| - 1]), indexes[|indexes| - 1];
      if index in before.records {
        FailIsKept(before, s, index);
        if r.ok && MemoryText(r.bytesHex, p.size).Some? {
          FreshIsKept(before, s, index, MemoryText(r.bytesHex, p.size).value);
        }
      }
    }
  }

  lemma ResponseIsKept(st: Planner, ev: Event, s: nat)
    requires Kept(st, s) && IsResponse(ev)
    ensures Kept(Step(st, ev), s)
  {
    var c := Correlated(st, ev.r, ev.Mem?);
    if c.Some? {
      var start, indexes := Take(st, ev.r.id.value), c.value.indexes;
      PendingIsFree(st, s, start.pending);
      if ev.Mem? {
        MemRowsAreKept(start, c.value, ev.r, indexes, s);
      } else if !ev.r.ok || ev.r.registers.None? {
        FailRowsAreKept(start, indexes, s);
      } else {
        RegRowsAreKept(Applied(start, []), c.value, ev.r.registers.value, indexes, s);
      }
    }
  }

  // ---------------------------------------------------------------- over whole runs

  /** The number of the context whose rows were planned last. */
  function LastBegun(evs: seq<Event>): nat
  {
    if evs == [] then 0 else if evs[|evs| - 1].Begin? then evs[|evs| - 1].pcSeq else LastBegun(evs[..|evs| - 1])
  }

  /**
    Every planned context has a larger number than the one planned before, and no more
    locals than the history has room for.
   */
  ghost predicate Roomy(max: int, evs: seq<Event>)
  {
    forall k :: 0 <= k < |evs| && evs[k].Begin? ==>
      evs[k].pcSeq > LastBegun(evs[..k]) && |Locals(evs[k].vs)| <= Create(max).maxHistory
  }

  /** The rows are kept, or there are none. */
  ghost predicate KeptIfAny(st: Planner, s: nat)
  {
    if st.records == map[] then AtMost(st.history, s) else Kept(st, s)
  }

  /** Without rows a response records nothing. */
  lemma {:induction false} NoRowsNoMarks(a: Applied, p: Pending, registers: map<string, Raw>, indexes: seq<nat>)
    requires a.st.records == map[]
    ensures var st := ApplyRegRows(a, p, registers, indexes).st; st.records == map[] && st.history == a.st.history
    decreases |indexes|
  {
    if indexes != [] {
      NoRowsNoMarks(a, p, registers, indexes[..|indexes| - 1]);
    }
  }

  lemma {:induction false} NoRowsNoFailures(st: Planner, p: Pending, r: Response, indexes: seq<nat>)
    requires st.records == map[]
    ensures FailRows(st, indexes).records == map[] && FailRows(st, indexes).history == st.history
    ensures ApplyMemRows(st, p, r, indexes).records == map[] && ApplyMemRows(st, p, r, indexes).history == st.history
    decreases |indexes|
  {
    if indexes != [] {
      NoRowsNoFailures(st, p, r, indexes[..|indexes| - 1]);
    }
  }

  lemma NoRowsNoChange(st: Planner, ev: Event)
    requires st.records == map[] && IsResponse(ev)
    ensures Step(st, ev).records == map[] && Step(st, ev).history == st.history
  {
    var c := Correlated(st, ev.r, ev.Mem?);
    if c.Some? {
      var start := Take(st, ev.r.id.value);
      NoRowsNoFailures(start, c.value, ev.r, c.value.indexes);
      if ev.r.registers.Some? {
        NoRowsNoMarks(Applied(start, []), c.value, ev.r.registers.value, c.value.indexes);
      }
    }
  }

  lemma BeginIsKept(st: Planner, ev: Event, s: nat)
    requires ev.Begin? && HistoryBounded(st) && AtMost(st.history, s) && s < ev.pcSeq
    requires DistinctIndexes(Locals(ev.vs)) && |Locals(ev.vs)| <= st.maxHistory
    ensures Kept(Step(st, ev), ev.pcSeq)
  {
    var started := Started(st, ev);
    assert Kept(started, ev.pcSeq);
    PlanIsKept(Plan(started, {}, []), Locals(ev.vs), ev.analysis.ok, ev.selected, ev.runtimePc, ev.pcSeq);
    var plan := PlanContext(st, ev.vs, ev.selected, ev.analysis, ev.runtimePc, ev.pcSeq);
    PendingIsFree(plan.st, ev.pcSeq, Step(st, ev).pending);
  }

  lemma StepIsKept(st: Planner, ev: Event, s: nat)
    requires Good(st) && Legal(ev) && KeptIfAny(st, s)
    requires ev.Begin? ==> s < ev.pcSeq && |Locals(ev.vs)| <= st.maxHistory
    ensures KeptIfAny(Step(st, ev), if ev.Begin? then ev.pcSeq else s)
  {
    match ev {
      case Begin(_, _, _, _, _) => BeginIsKept(st, ev, s);
      case Invalidate(_, _) =>
      case Clear =>
      case _ =>
        if st.records == map[] {
          NoRowsNoChange(st, ev);
        } else {
          ResponseIsKept(st, ev, s);
        }
    }
  }

  lemma {:induction false} MaxIsConstant(max: int, evs: seq<Event>)
    requires LegalRun(evs)
    ensures Run(Create(max), evs).maxHistory == Create(max).maxHistory
    decreases |evs|
  {
    if evs != [] {
      var init := evs[..|evs| - 1];
      MaxIsConstant(max, init);
      RunIsGood(max, init);
      StepMax(Run(Create(max), init), evs[|evs| - 1]);
    }
  }

  lemma StepMax(st: Planner, ev: Event)
    requires Good(st) && Legal(ev)
    ensures Step(st, ev).maxHistory == st.maxHistory
  {
    match ev {
      case Begin(vs, selected, analysis, runtimePc, pcSeq) =>
        PlanRecords(Plan(Started(st, ev), {}, []), Locals(vs), analysis.ok, selected, runtimePc, pcSeq);
      case Reg(r) =>
        RegStepKeeps(st, r);
        var done :| RowsKept(st, ApplyReg(st, r).1, done);
      case Mem(r) =>
        MemStepKeeps(st, r);
        var done :| RowsKept(st, ApplyMem(st, r).1, done);
      case _ =>
    }
  }

  lemma {:induction false} RunIsKept(max: int, evs: seq<Event>)
    requires LegalRun(evs) && Roomy(max, evs)
    ensures KeptIfAny(Run(Create(max), evs), LastBegun(evs))
    decreases |evs|
  {
    if evs != [] {
      var init := evs[..|evs| - 1];
      forall k | 0 <= k < |init| && init[k].Begin?
        ensures init[k].pcSeq > LastBegun(init[..k]) && |Locals(init[k].vs)| <= Create(max).maxHistory
      {
        assert init[k] == evs[k] && init[..k] == evs[..k];
      }
      RunIsKept(max, init);
      RunIsGood(max, init);
      MaxIsConstant(max, init);
      StepIsKept(Run(Create(max), init), evs[|evs| - 1], LastBegun(init));
    }
  }

  /**
    With room for all locals and a new number for every planned context, no current
    observation is ever lost: after every run each fresh row is in the history.
   */
  lemma EveryFreshRowIsRecorded(max: int, evs: seq<Event>)
    requires LegalRun(evs) && Roomy(max, evs)
    ensures FreshIsRecorded(Run(Create(max), evs))
  {
    RunIsKept(max, evs);
  }
}
