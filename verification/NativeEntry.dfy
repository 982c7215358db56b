/** Which entries of a function a valid register verdict covers. */
module NativeEntry {
  import opened Graphs
  import opened Worklist
  import opened Cfg
  import opened Traces
  import opened RegisterSurvival

  /** The walk passes block `entry` up to its top without meeting the definition. */
  ghost predicate Exposed(cfg: Native, q: Query, c: State, entry: int)
  {
    exists limit :: RegisterSurvival.Inspected(cfg, q, c, (entry, limit))
      && Passes(cfg, Backward, Stop(q), true, (entry, limit))
  }

  /** Every execution from the top of `entry` to the point has the definition as its last relevant step. */
  ghost predicate WrittenFrom(cfg: Native, q: Query, c: State, entry: int)
  {
    forall e :: Execution(cfg, Backward, e) && e[0] == (entry, 0) && e[|e| - 1] == c ==>
      exists j :: LastWrite(cfg, q, e, j)
  }

  lemma WriteStops(cfg: Native, q: Query, e: seq<State>, j: int)
    requires LastWrite(cfg, q, e, j)
    ensures 0 <= j < |e| - 1 && StopsAt(cfg, Stop(q), e, j)
  {
  }

  lemma NoWriteOnClearRun(cfg: Native, q: Query, c: State, entry: int, e: seq<State>)
    requires ClearRun(cfg, Backward, Stop(q), (entry, 0), c, e)
    ensures !WrittenFrom(cfg, q, c, entry)
  {
    forall j | LastWrite(cfg, q, e, j)
      ensures false
    {
      WriteStops(cfg, q, e, j);
    }
  }

  lemma ExposedRun(cfg: Native, q: Query, c: State, entry: int) returns (e: seq<State>)
    requires Valid(cfg, c) && Exposed(cfg, q, c, entry)
    ensures ClearRun(cfg, Backward, Stop(q), (entry, 0), c, e)
  {
    var limit :| RegisterSurvival.Inspected(cfg, q, c, (entry, limit))
      && Passes(cfg, Backward, Stop(q), true, (entry, limit));
    var f := InspectedBackward(cfg, Stop(q), true, c, (entry, limit));
    var h := StraightLine(cfg, Backward, Stop(q), entry, 0, limit);
    ClearJoin(cfg, Backward, Stop(q), (entry, 0), (entry, limit), c, h, f);
    e := h + f[1..];
  }

  lemma PassedToTop(cfg: Native, q: Query, c: State, entry: int, limit: int)
    requires Inspects(cfg, Backward, Stop(q), true, c, (entry, limit)) && Free(cfg, Stop(q), entry, 0, limit)
    requires AllHaveBodies(cfg, Stop(q), c)
    ensures Exposed(cfg, q, c, entry)
  {
    assert RegisterSurvival.Inspected(cfg, q, c, (entry, limit))
      && Passes(cfg, Backward, Stop(q), true, (entry, limit));
  }

  lemma CoveredRun(cfg: Native, q: Query, d: State, c: State, entry: int, e: seq<State>) returns (j: int)
    requires Survives(cfg, q, d, c) && !Exposed(cfg, q, c, entry)
    requires Execution(cfg, Backward, e) && e[0] == (entry, 0) && e[|e| - 1] == c
    ensures LastWrite(cfg, q, e, j)
  {
    SurvivorsHaveBodies(cfg, q, d, c);
    ReachesSelf(StateGraph(cfg, Backward, Stop(q), true, c), c);
    var limit: int;
    j, limit := BackwardTrace(cfg, Stop(q), true, c, e, c.1);
    if j < 0 {
      PassedToTop(cfg, q, c, entry, limit);
    } else {
      InspectedStop(cfg, q, d, c, (e[j].0, limit), e[j].1);
      forall i | j < i < |e| - 1 && Executes(cfg, e[i], e[i + 1])
        ensures !Disturbs(q, cfg[e[i].0].instructions[e[i].1])
      {
        assert !StopsAt(cfg, Stop(q), e, i);
      }
    }
  }

  /**
    A valid verdict covers the executions from an entry block exactly when no inspected
    state passes that block to its top; having no predecessors is enough.
   */
  lemma EntryIsWrittenIffNotExposed(cfg: Native, q: Query, d: State, c: State, entry: int)
    requires Survives(cfg, q, d, c) && entry in cfg
    ensures WrittenFrom(cfg, q, c, entry) <==> !Exposed(cfg, q, c, entry)
    ensures cfg[entry].predecessors == [] ==> !Exposed(cfg, q, c, entry)
  {
    if Exposed(cfg, q, c, entry) {
      var e := ExposedRun(cfg, q, c, entry);
      NoWriteOnClearRun(cfg, q, c, entry, e);
      var limit :| RegisterSurvival.Inspected(cfg, q, c, (entry, limit))
        && Passes(cfg, Backward, Stop(q), true, (entry, limit));
      assert cfg[entry].predecessors == [] ==> Finds(cfg, q, (entry, limit), Unresolved);
    } else {
      forall e | Execution(cfg, Backward, e) && e[0] == (entry, 0) && e[|e| - 1] == c
        ensures exists j :: LastWrite(cfg, q, e, j)
      {
        var j := CoveredRun(cfg, q, d, c, entry, e);
      }
    }
  }

  // ---------------------------------------------------------------- an entry that is a loop head

  const RAX: RegisterSpec := RegisterSpec("rax", 8, 0)
  const QUERY: Query := Query(17, 18, RAX, 8)

  /** Block 0 is the entry and the head of a loop; block 1 is its body and writes `rax`. */
  const LOOP: Native :=
    map[0 := Block([Instruction(16, [], false, true), Instruction(18, [], false, true)], [1], [1]),
        1 := Block([Instruction(17, [RegisterWrite("rax", 0, 64)], false, true)], [0], [0])]

  lemma LoopScans()
    ensures Passes(LOOP, Backward, Stop(QUERY), true, (0, 1))
    ensures FirstStop(LOOP, Backward, Stop(QUERY), (1, 1), 0) && !Passes(LOOP, Backward, Stop(QUERY), true, (1, 1))
    ensures Finds(LOOP, QUERY, (0, 1), Continues) && Finds(LOOP, QUERY, (1, 1), Defined)
  {
    var w := RegisterWrite("rax", 0, 64);
    assert w in LOOP[1].instructions[0].writes && w.Covers(RAX, 8);
    assert WritesAll(QUERY, LOOP[1].instructions[0]);
    assert Scanned(LOOP, Backward, (1, 1), 0);
  }

  lemma LoopStates(s: State)
    ensures RegisterSurvival.Inspected(LOOP, QUERY, (0, 1), s) <==> s == (0, 1) || s == (1, 1)
    ensures Cfg.Next(LOOP, Backward, Stop(QUERY), true, (0, 1)) == {(1, 1)}
    ensures Cfg.Next(LOOP, Backward, Stop(QUERY), true, (1, 1)) == {}
  {
    LoopScans();
    assert EntryState(LOOP, Backward, 1) == (1, 1) && EntryState(LOOP, Backward, 0) == (0, 2);
    var g := StateGraph(LOOP, Backward, Stop(QUERY), true, (0, 1));
    ReachesSelf(g, (0, 1));
    InspectsNext(LOOP, Backward, Stop(QUERY), true, (0, 1), (0, 1), 1);
    LoopIsClosed(s);
  }

  /** The walk never comes back to block 0 from below. */
  lemma LoopIsClosed(s: State)
    requires Cfg.Next(LOOP, Backward, Stop(QUERY), true, (0, 1)) == {(1, 1)}
    requires Cfg.Next(LOOP, Backward, Stop(QUERY), true, (1, 1)) == {}
    ensures RegisterSurvival.Inspected(LOOP, QUERY, (0, 1), s) ==> s == (0, 1) || s == (1, 1)
  {
    if RegisterSurvival.Inspected(LOOP, QUERY, (0, 1), s) {
      var g := StateGraph(LOOP, Backward, Stop(QUERY), true, (0, 1));
      var p :| WalkFromTo(g, (0, 1), s, p);
      WalkStaysInside(g, {(0, 1), (1, 1)}, p, |p| - 1);
    }
  }

  lemma LoopHasNoSearchCycle()
    ensures !Loops(LOOP, Backward, Stop(QUERY), true, (0, 1))
  {
    var g := StateGraph(LOOP, Backward, Stop(QUERY), true, (0, 1));
    LoopStates((0, 1));
    assert EntryState(LOOP, Backward, 1) == (1, 1) && EntryState(LOOP, Backward, 0) == (0, 2);
    assert Universe(LOOP, Backward, (0, 1)) == {(0, 1), (0, 2), (1, 1)};
    assert Cfg.Next(LOOP, Backward, Stop(QUERY), true, (0, 2)) <= {(1, 1)};
    RankedGraphIsAcyclic(g, map[(0, 1) := 0, (0, 2) := 0, (1, 1) := 1]);
  }

  lemma LoopIsValid()
    ensures Survives(LOOP, QUERY, (1, 0), (0, 1))
  {
    LoopScans();
    LoopHasNoSearchCycle();
    LoopStates((1, 1));
    forall s, f | RegisterSurvival.Inspected(LOOP, QUERY, (0, 1), s) && Finds(LOOP, QUERY, s, f)
      ensures f == Defined || f == Continues
    {
      LoopStates(s);
    }
  }

  lemma LoopIsExposed()
    ensures Exposed(LOOP, QUERY, (0, 1), 0)
  {
    LoopScans();
    LoopStates((0, 1));
  }

  /** The walk is satisfied at the loop head although the first pass through it has not executed the definition. */
  lemma NativeLoopHeadIsMissed()
    ensures Survives(LOOP, QUERY, (1, 0), (0, 1)) && !WrittenFrom(LOOP, QUERY, (0, 1), 0)
  {
    LoopIsValid();
    LoopIsExposed();
    EntryIsWrittenIffNotExposed(LOOP, QUERY, (1, 0), (0, 1), 0);
  }
}
