/**
  The native storage query: does a physical register still hold, at the current
  instruction, what the selected defining instruction left in it?
 */
module RegisterSurvival {
  import opened Graphs
  import opened Worklist
  import opened Basics
  import opened Cfg
  import opened Traces
  import opened Bits
  import ReachingDefinitions

  type Reason = ReachingDefinitions.Reason

  /** One supported register spelling and its projection on a full register. */
  datatype RegisterSpec = RegisterSpec(full: string, width: nat, offset: nat)

  /** The bits `[offset, offset + size)` of a full register that an instruction may change. */
  datatype RegisterWrite = RegisterWrite(full: string, offset: nat, size: nat) {
    predicate Covers(spec: RegisterSpec, width: nat)
    {
      offset <= spec.offset && offset + size >= spec.offset + 8 * width
    }

    predicate Overlaps(spec: RegisterSpec, width: nat)
    {
      offset < spec.offset + 8 * width && spec.offset < offset + size
    }
  }

  datatype Instruction = Instruction(ea: int, writes: seq<RegisterWrite>, isCall: bool, known: bool)

  type Native = Graph<Instruction>

  /** What the query asks: the defining and current addresses, and the storage that must survive. */
  datatype Query = Query(definition: int, current: int, spec: RegisterSpec, width: nat)

  predicate WritesAll(q: Query, f: Instruction)
  {
    f.known && exists w :: w in f.writes && w.full == q.spec.full && w.Covers(q.spec, q.width)
  }

  /** A call, an undecoded access, or a write that overlaps the storage. */
  predicate Disturbs(q: Query, f: Instruction)
  {
    || !f.known || f.isCall
    || exists w :: w in f.writes && w.full == q.spec.full && w.Overlaps(q.spec, q.width)
  }

  function Stop(q: Query): Instruction -> bool
  {
    (f: Instruction) => f.ea == q.definition || Disturbs(q, f)
  }

  // ---------------------------------------------------------------- what one inspected state contributes

  datatype Finding = Defined | Clobbered(ea: int) | Unresolved | Continues

  /** The outcome of stopping at instruction `f`. */
  function AtStop(q: Query, f: Instruction): Finding
  {
    if f.ea == q.definition then (if WritesAll(q, f) then Defined else Clobbered(f.ea))
    else if !f.known then Unresolved
    else Clobbered(f.ea)
  }

  ghost predicate Finds(cfg: Native, q: Query, s: State, finding: Finding)
  {
    if !Valid(cfg, s) || cfg[s.0].instructions == [] then finding == Unresolved
    else if Passes(cfg, Backward, Stop(q), true, s) then
      finding == (if cfg[s.0].predecessors == [] || exists p :: p in cfg[s.0].predecessors && p !in cfg
                  then Unresolved else Continues)
    else exists i :: FirstStop(cfg, Backward, Stop(q), s, i) && finding == AtStop(q, cfg[s.0].instructions[i])
  }

  method InspectState(cfg: Native, q: Query, s: State) returns (finding: Finding)
    ensures Finds(cfg, q, s, finding)
    ensures forall f :: Finds(cfg, q, s, f) ==> f == finding
  {
    if !Valid(cfg, s) || cfg[s.0].instructions == [] {
      return Unresolved;
    }
    var position := Scan(cfg, Backward, Stop(q), s);
    match position {
      case Some(i) =>
        assert Scanned(cfg, Backward, s, i);
        return AtStop(q, cfg[s.0].instructions[i]);
      case None =>
        if cfg[s.0].predecessors == [] || exists p :: p in cfg[s.0].predecessors && p !in cfg {
          return Unresolved;
        }
        return Continues;
    }
  }

  ghost predicate Inspected(cfg: Native, q: Query, start: State, s: State)
  {
    Inspects(cfg, Backward, Stop(q), true, start, s)
  }

  // ---------------------------------------------------------------- native program points

  predicate At(cfg: Native, ea: int, p: State)
  {
    p.0 in cfg && 0 <= p.1 < |cfg[p.0].instructions| && cfg[p.0].instructions[p.1].ea == ea
  }

  ghost predicate OnlyAt(cfg: Native, ea: int, p: State)
  {
    At(cfg, ea, p) && forall o :: At(cfg, ea, o) ==> o == p
  }

  /** All places of an address; the query needs exactly one. */
  method FindPoint(cfg: Native, ea: int) returns (point: Option<State>)
    ensures point.Some? ==> OnlyAt(cfg, ea, point.value)
    ensures forall p :: OnlyAt(cfg, ea, p) ==> point == Some(p)
  {
    var todo := cfg.Keys;
    var matches: seq<State> := [];
    while todo != {}
      invariant todo <= cfg.Keys
      invariant forall p :: p in matches <==> p.0 !in todo && At(cfg, ea, p)
      invariant forall i, j :: 0 <= i < j < |matches| ==> matches[i] != matches[j]
      decreases todo
    {
      var id := Pick(todo);
      todo := todo - {id};
      ghost var before := matches;
      for i := 0 to |cfg[id].instructions|
        invariant forall p :: p in matches <==> p in before || (p.0 == id && p.1 < i && At(cfg, ea, p))
        invariant forall i, j :: 0 <= i < j < |matches| ==> matches[i] != matches[j]
      {
        if cfg[id].instructions[i].ea == ea {
          matches := matches + [(id, i)];
        }
      }
    }
    assert forall i :: 0 <= i < |matches| ==> matches[i] in matches;
    if |matches| != 1 {
      assert |matches| > 1 ==> matches[0] != matches[1];
      return None;
    }
    return Some(matches[0]);
  }

  // ---------------------------------------------------------------- the query

  datatype Validation = Validation(reason: Option<Reason>, clobber: Option<int>)

  /**
    Both addresses are unique, the definition does not follow the point in its block, and
    nothing inspected objects.
   */
  ghost predicate Survives(cfg: Native, q: Query, definition: State, start: State)
  {
    && OnlyAt(cfg, q.definition, definition) && OnlyAt(cfg, q.current, start)
    && !(definition.0 == start.0 && definition.1 >= start.1)
    && (exists s :: Inspected(cfg, q, start, s) && Finds(cfg, q, s, Defined))
    && (forall s, f :: Inspected(cfg, q, start, s) && Finds(cfg, q, s, f) ==> f == Defined || f == Continues)
    && !Loops(cfg, Backward, Stop(q), true, start)
  }

  ghost predicate Recorded(cfg: Native, q: Query, states: set<State>, defined: bool, unresolved: bool,
                           clobber: Option<int>)
  {
    && (defined <==> exists s :: s in states && Finds(cfg, q, s, Defined))
    && (unresolved <==> exists s :: s in states && Finds(cfg, q, s, Unresolved))
    && (clobber.Some? ==> exists s :: s in states && Finds(cfg, q, s, Clobbered(clobber.value)))
    && (clobber.None? ==> forall s, ea :: s in states ==> !Finds(cfg, q, s, Clobbered(ea)))
  }

  method Record(cfg: Native, q: Query, states: set<State>)
    returns (defined: bool, unresolved: bool, clobber: Option<int>)
    ensures Recorded(cfg, q, states, defined, unresolved, clobber)
  {
    defined, unresolved, clobber := false, false, None;
    var todo := states;
    while todo != {}
      invariant todo <= states
      invariant Recorded(cfg, q, states - todo, defined, unresolved, clobber)
      decreases todo
    {
      var s := Pick(todo);
      var finding := InspectState(cfg, q, s);
      ghost var done := states - todo;
      todo := todo - {s};
      assert states - todo == done + {s};
      match finding {
        case Defined => defined := true;
        case Clobbered(ea) => clobber := Some(ea);
        case Unresolved => unresolved := true;
        case Continues =>
      }
    }
    assert states - todo == states;
  }

  /** Some inspected state stops at a clobbering instruction. */
  ghost predicate MeetsClobber(cfg: Native, q: Query, start: State)
  {
    exists s, ea :: Inspected(cfg, q, start, s) && Finds(cfg, q, s, Clobbered(ea))
  }

  lemma RecordedMeansSurvives(cfg: Native, q: Query, d: State, c: State, visited: set<State>,
                              defined: bool, unresolved: bool, clobber: Option<int>)
    requires OnlyAt(cfg, q.definition, d) && OnlyAt(cfg, q.current, c) && !(d.0 == c.0 && d.1 >= c.1)
    requires forall s :: s in visited <==> Inspected(cfg, q, c, s)
    requires Recorded(cfg, q, visited, defined, unresolved, clobber)
    ensures clobber.Some? <==> MeetsClobber(cfg, q, c)
    ensures Survives(cfg, q, d, c)
            <==> clobber.None? && defined && !unresolved && !Loops(cfg, Backward, Stop(q), true, c)
  {
    RecordedMeansClobber(cfg, q, c, visited, defined, unresolved, clobber);
  }

  lemma RecordedMeansClobber(cfg: Native, q: Query, c: State, visited: set<State>,
                             defined: bool, unresolved: bool, clobber: Option<int>)
    requires forall s :: s in visited <==> Inspected(cfg, q, c, s)
    requires Recorded(cfg, q, visited, defined, unresolved, clobber)
    ensures clobber.Some? <==> MeetsClobber(cfg, q, c)
  {
    if clobber.Some? {
      var s :| s in visited && Finds(cfg, q, s, Clobbered(clobber.value));
      assert Inspected(cfg, q, c, s);
    }
  }

  /** The walk from a resolved point: its verdict over everything it can inspect. */
  method WalkBack(cfg: Native, q: Query, ghost definition: State, start: State) returns (r: Validation)
    requires OnlyAt(cfg, q.definition, definition) && OnlyAt(cfg, q.current, start)
    requires !(definition.0 == start.0 && definition.1 >= start.1)
    ensures r.reason.None? <==> Survives(cfg, q, definition, start)
    ensures r.reason == Some(ReachingDefinitions.StorageClobbered) <==> MeetsClobber(cfg, q, start)
  {
    var visited, edges, exhausted := Explore(cfg, Backward, Stop(q), true, start, DefaultBudget(cfg));
    var defined, unresolved, clobber := Record(cfg, q, visited);
    RecordedMeansSurvives(cfg, q, definition, start, visited, defined, unresolved, clobber);
    if clobber.Some? {
      return Validation(Some(ReachingDefinitions.StorageClobbered), clobber);
    }
    var loop := GraphHasCycle(edges);
    if !defined || unresolved || loop {
      return Validation(Some(if loop then ReachingDefinitions.LivenessUnproven
        else ReachingDefinitions.UnresolvedPoint), None);
    }
    return Validation(None, None);
  }

  /** `_validate_register_storage_cfg`: no reason means the storage is proved intact. */
  method ValidateRegisterStorage(cfg: Native, q: Query) returns (r: Validation)
    ensures r.reason.None? <==> exists d, c :: Survives(cfg, q, d, c)
    ensures r.reason == Some(ReachingDefinitions.StorageClobbered) ==>
            exists c :: OnlyAt(cfg, q.current, c) && MeetsClobber(cfg, q, c)
  {
    r := Validation(Some(ReachingDefinitions.UnresolvedPoint), None);
    var d := FindPoint(cfg, q.definition);
    var c := FindPoint(cfg, q.current);
    if d.None? || c.None? || (d.value.0 == c.value.0 && d.value.1 >= c.value.1) {
      return;
    }
    r := WalkBack(cfg, q, d.value, c.value);
  }

  // ---------------------------------------------------------------- every execution

  /** Step `j` executes the definition, which writes the whole storage, and no later step disturbs it. */
  ghost predicate LastWrite(cfg: Native, q: Query, e: seq<State>, j: int)
  {
    && 0 <= j < |e| - 1 && Executes(cfg, e[j], e[j + 1]) && At(cfg, q.definition, e[j])
    && WritesAll(q, cfg[e[j].0].instructions[e[j].1])
    && forall i :: j < i < |e| - 1 && Executes(cfg, e[i], e[i + 1]) ==> !Disturbs(q, cfg[e[i].0].instructions[e[i].1])
  }

  lemma InspectedStop(cfg: Native, q: Query, d: State, c: State, s: State, i: int)
    requires Survives(cfg, q, d, c) && Inspected(cfg, q, c, s) && FirstStop(cfg, Backward, Stop(q), s, i)
    ensures cfg[s.0].instructions[i].ea == q.definition && WritesAll(q, cfg[s.0].instructions[i])
  {
    assert Scanned(cfg, Backward, s, i);
    assert Finds(cfg, q, s, AtStop(q, cfg[s.0].instructions[i]));
  }

  lemma SurvivorsHaveBodies(cfg: Native, q: Query, d: State, c: State)
    requires Survives(cfg, q, d, c)
    ensures AllHaveBodies(cfg, Stop(q), c)
  {
    forall s | Inspects(cfg, Backward, Stop(q), true, c, s) && s.0 in cfg
      ensures cfg[s.0].instructions != []
    {
      assert Inspected(cfg, q, c, s);
      if cfg[s.0].instructions == [] {
        assert Finds(cfg, q, s, Unresolved);
      }
    }
  }

  /**
    A valid verdict speaks about every execution that arrives at the point: either
    it has the definition as its last relevant step, or it never executes it and
    did not enter at a block without predecessors.
   */
  lemma EveryArrival(cfg: Native, q: Query, d: State, c: State, e: seq<State>) returns (j: int)
    requires Survives(cfg, q, d, c)
    requires Execution(cfg, Backward, e) && e[|e| - 1] == c
    ensures j >= 0 ==> LastWrite(cfg, q, e, j)
    ensures j < 0 ==> forall i :: 0 <= i < |e| - 1 && Executes(cfg, e[i], e[i + 1]) ==> e[i] != d
    ensures j < 0 ==> !(e[0].1 == 0 && cfg[e[0].0].predecessors == [])
  {
    SurvivorsHaveBodies(cfg, q, d, c);
    ReachesSelf(StateGraph(cfg, Backward, Stop(q), true, c), c);
    var limit: int;
    j, limit := BackwardTrace(cfg, Stop(q), true, c, e, c.1);
    forall i | j < i < |e| - 1 && Executes(cfg, e[i], e[i + 1])
      ensures !Disturbs(q, cfg[e[i].0].instructions[e[i].1]) && cfg[e[i].0].instructions[e[i].1].ea != q.definition
    {
      assert !StopsAt(cfg, Stop(q), e, i);
    }
    if j >= 0 {
      InspectedStop(cfg, q, d, c, (e[j].0, limit), e[j].1);
    } else if e[0].1 == 0 && cfg[e[0].0].predecessors == [] {
      var s := (e[0].0, limit);
      assert Inspected(cfg, q, c, s);
      assert Passes(cfg, Backward, Stop(q), true, s);
      assert Finds(cfg, q, s, Unresolved);
    }
  }

  // ---------------------------------------------------------------- the number that is read

  type Registers = string -> int

  /** Executing `f` keeps every bit that no write of `f` names; a call or an unknown instruction keeps nothing. */
  ghost predicate Effect(f: Instruction, before: Registers, after: Registers)
  {
    f.known && !f.isCall ==>
      forall r, i: nat :: (forall w :: w in f.writes && w.full == r ==> !(w.offset <= i < w.offset + w.size))
        ==> Bit(after(r), i) == Bit(before(r), i)
  }

  /** `regs[i]` is the register file before step `i` of the execution. */
  ghost predicate Runs(cfg: Native, e: seq<State>, regs: seq<Registers>)
  {
    && |regs| == |e|
    && forall i :: 0 <= i < |e| - 1 ==>
         if Executes(cfg, e[i], e[i + 1]) then Effect(cfg[e[i].0].instructions[e[i].1], regs[i], regs[i + 1])
         else regs[i + 1] == regs[i]
  }

  function Displayed(q: Query, regs: Registers): nat
  {
    Extract(regs(q.spec.full), q.spec.offset, q.width)
  }

  lemma UndisturbedStep(q: Query, f: Instruction, before: Registers, after: Registers)
    requires Effect(f, before, after) && !Disturbs(q, f)
    ensures Displayed(q, after) == Displayed(q, before)
  {
    forall i: nat | q.spec.offset <= i < q.spec.offset + 8 * q.width
      ensures Bit(after(q.spec.full), i) == Bit(before(q.spec.full), i)
    {
      forall w | w in f.writes && w.full == q.spec.full
        ensures !(w.offset <= i < w.offset + w.size)
      {
        assert !w.Overlaps(q.spec, q.width);
      }
    }
    ExtractDependsOnWindow(after(q.spec.full), before(q.spec.full), q.spec.offset, q.width);
  }

  lemma {:induction false} DisplayedIsStable(cfg: Native, q: Query, e: seq<State>, regs: seq<Registers>, j: int, k: int)
    requires LastWrite(cfg, q, e, j) && Runs(cfg, e, regs) && j < k < |e|
    ensures Displayed(q, regs[k]) == Displayed(q, regs[j + 1])
    decreases k
  {
    if k > j + 1 {
      DisplayedIsStable(cfg, q, e, regs, j, k - 1);
      if Executes(cfg, e[k - 1], e[k]) {
        UndisturbedStep(q, cfg[e[k - 1].0].instructions[e[k - 1].1], regs[k - 1], regs[k]);
      }
    }
  }

  /**
    Soundness of the register proof. On every execution that enters at a block
    without predecessors, the number extracted from the full register now is the
    one the defining instruction left there, whatever else was written since.
   */
  lemma RegisterValueIsTheDefinedOne(cfg: Native, q: Query, d: State, c: State, e: seq<State>, regs: seq<Registers>)
    returns (j: int)
    requires Survives(cfg, q, d, c) && Reciprocal(cfg)
    requires Execution(cfg, Forward, e) && e[|e| - 1] == c && Runs(cfg, e, regs)
    requires (e[0].1 == 0 && cfg[e[0].0].predecessors == [])
             || exists i :: 0 <= i < |e| - 1 && Executes(cfg, e[i], e[i + 1]) && e[i] == d
    ensures LastWrite(cfg, q, e, j)
    ensures Displayed(q, regs[|e| - 1]) == Displayed(q, regs[j + 1])
  {
    ReciprocalExecution(cfg, e);
    j := EveryArrival(cfg, q, d, c, e);
    DisplayedIsStable(cfg, q, e, regs, j, |e| - 1);
  }
}
