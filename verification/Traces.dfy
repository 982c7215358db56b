/**
  The two readings of a query: the states it inspects, and the executions of the
  program. Each inspected state is joined to the start by an execution that meets
  no stopping instruction, and every execution is followed by inspected states.
 */
module Traces {
  import opened Graphs
  import opened Worklist
  import opened Cfg

  lemma InspectedInUniverse<T>(cfg: Graph<T>, dir: Direction, stop: T -> bool, needBody: bool, start: State, s: State)
    requires Inspects(cfg, dir, stop, needBody, start, s)
    ensures s in Universe(cfg, dir, start)
  {
    var g := StateGraph(cfg, dir, stop, needBody, start);
    var p :| WalkFromTo(g, start, s, p);
    WalkStaysInside(g, g.Keys, p, |p| - 1);
  }

  lemma InspectsNext<T>(cfg: Graph<T>, dir: Direction, stop: T -> bool, needBody: bool, start: State, s: State, id: int)
    requires Inspects(cfg, dir, stop, needBody, start, s) && Passes(cfg, dir, stop, needBody, s)
    requires id in Neighbours(cfg, dir, s.0) && id in cfg
    ensures Inspects(cfg, dir, stop, needBody, start, EntryState(cfg, dir, id))
  {
    InspectedInUniverse(cfg, dir, stop, needBody, start, s);
    ReachesStep(StateGraph(cfg, dir, stop, needBody, start), start, s, EntryState(cfg, dir, id));
  }

  /** No stopping instruction lies between two boundaries of a block. */
  ghost predicate Free<T>(cfg: Graph<T>, stop: T -> bool, b: int, lo: int, hi: int)
  {
    && b in cfg && 0 <= lo <= hi <= |cfg[b].instructions|
    && forall i :: lo <= i < hi ==> !stop(cfg[b].instructions[i])
  }

  /** Every state the query inspects lies in a block with at least one instruction. */
  ghost predicate AllHaveBodies<T>(cfg: Graph<T>, stop: T -> bool, start: State)
  {
    forall s :: Inspects(cfg, Backward, stop, true, start, s) && s.0 in cfg ==> cfg[s.0].instructions != []
  }

  /**
    Follows an execution backward from a point the query covers. Either some step
    `j` is the last stopping one, and the query finds it from an inspected state; or
    no step stops, and the first point of the execution is covered as well.
   */
  lemma {:induction false} BackwardTrace<T>(cfg: Graph<T>, stop: T -> bool, needBody: bool, start: State, e: seq<State>,
                                            from: int)
    returns (j: int, limit: int)
    requires Execution(cfg, Backward, e)
    requires Inspects(cfg, Backward, stop, needBody, start, (e[|e| - 1].0, from))
    requires Free(cfg, stop, e[|e| - 1].0, e[|e| - 1].1, from)
    requires needBody ==> AllHaveBodies(cfg, stop, start)
    ensures -1 <= j < |e| - 1
    ensures forall i :: j < i < |e| - 1 ==> !StopsAt(cfg, stop, e, i)
    ensures j >= 0 ==> StopsAt(cfg, stop, e, j) && Inspects(cfg, Backward, stop, needBody, start, (e[j].0, limit))
                       && FirstStop(cfg, Backward, stop, (e[j].0, limit), e[j].1)
    ensures j == -1 ==> Inspects(cfg, Backward, stop, needBody, start, (e[0].0, limit))
                        && Free(cfg, stop, e[0].0, e[0].1, limit)
    decreases |e|
  {
    if |e| == 1 {
      return -1, from;
    }
    var n := |e| - 2;
    var init := e[..n + 1];
    assert Step(cfg, Backward, e[n], e[n + 1]);
    if StopsAt(cfg, stop, e, n) {
      return n, from;
    }
    ExecutionStaysValid(cfg, Backward, e, n);
    if Executes(cfg, e[n], e[n + 1]) {
      j, limit := BackwardTrace(cfg, stop, needBody, start, init, from);
    } else {
      var here := (e[n + 1].0, from);
      assert Passes(cfg, Backward, stop, needBody, here);
      InspectsNext(cfg, Backward, stop, needBody, start, here, e[n].0);
      j, limit := BackwardTrace(cfg, stop, needBody, start, init, e[n].1);
    }
    StopsOfPrefix(cfg, stop, e);
  }

  /** The stops of an execution without its last step. */
  lemma StopsOfPrefix<T>(cfg: Graph<T>, stop: T -> bool, e: seq<State>)
    requires |e| > 1
    ensures forall i :: 0 <= i < |e| - 2 ==> StopsAt(cfg, stop, e, i) == StopsAt(cfg, stop, e[..|e| - 1], i)
  {
  }

  /** Follows a forward execution without stopping steps: the point it ends at is covered by an inspected state. */
  lemma {:induction false} ForwardTrace<T>(cfg: Graph<T>, stop: T -> bool, start: State, e: seq<State>)
    returns (from: int)
    requires Execution(cfg, Forward, e) && e[0] == start
    requires forall i :: 0 <= i < |e| - 1 ==> !StopsAt(cfg, stop, e, i)
    ensures Inspects(cfg, Forward, stop, false, start, (e[|e| - 1].0, from))
    ensures Free(cfg, stop, e[|e| - 1].0, from, e[|e| - 1].1)
    decreases |e|
  {
    if |e| == 1 {
      ReachesSelf(StateGraph(cfg, Forward, stop, false, start), start);
      return start.1;
    }
    var n := |e| - 2;
    var init := e[..n + 1];
    forall i | 0 <= i < |init| - 1
      ensures !StopsAt(cfg, stop, init, i)
    {
      assert StopsAt(cfg, stop, e, i) == StopsAt(cfg, stop, init, i);
    }
    from := ForwardTrace(cfg, stop, start, init);
    assert Step(cfg, Forward, e[n], e[n + 1]) && !StopsAt(cfg, stop, e, n);
    if !Executes(cfg, e[n], e[n + 1]) {
      var here := (e[n].0, from);
      assert Passes(cfg, Forward, stop, false, here);
      InspectsNext(cfg, Forward, stop, false, start, here, e[n + 1].0);
      from := 0;
    }
  }

  /** One edge of the backward state graph is a jump followed by a clear scan of the block. */
  lemma BackwardEdge<T>(cfg: Graph<T>, stop: T -> bool, needBody: bool, s: State, t: State) returns (e: seq<State>)
    requires t in Next(cfg, Backward, stop, needBody, s)
    ensures ClearRun(cfg, Backward, stop, t, s, e) && |e| > 1
  {
    var f := StraightLine(cfg, Backward, stop, s.0, 0, s.1);
    var jump := [t, (s.0, 0)];
    assert ClearRun(cfg, Backward, stop, t, (s.0, 0), jump);
    ClearJoin(cfg, Backward, stop, t, (s.0, 0), s, jump, f);
    e := jump + f[1..];
  }

  lemma ForwardEdge<T>(cfg: Graph<T>, stop: T -> bool, s: State, t: State) returns (e: seq<State>)
    requires t in Next(cfg, Forward, stop, false, s)
    ensures ClearRun(cfg, Forward, stop, s, t, e) && |e| > 1
  {
    var here := (s.0, |cfg[s.0].instructions|);
    var f := StraightLine(cfg, Forward, stop, s.0, s.1, here.1);
    var jump := [here, t];
    assert ClearRun(cfg, Forward, stop, here, t, jump);
    ClearJoin(cfg, Forward, stop, s, here, t, f, jump);
    e := f + jump[1..];
  }

  lemma {:induction false} WalkIsRun<T>(cfg: Graph<T>, dir: Direction, stop: T -> bool, needBody: bool, start: State,
                                        p: seq<State>)
    returns (e: seq<State>)
    requires Walk(StateGraph(cfg, dir, stop, needBody, start), p) && Valid(cfg, p[0]) && (dir == Forward ==> !needBody)
    ensures if dir == Backward then ClearRun(cfg, dir, stop, p[|p| - 1], p[0], e)
            else ClearRun(cfg, dir, stop, p[0], p[|p| - 1], e)
    ensures |e| >= |p|
    decreases |p|
  {
    if |p| == 1 {
      e := [p[0]];
      return;
    }
    var n := |p| - 2;
    var f := WalkIsRun(cfg, dir, stop, needBody, start, p[..n + 1]);
    assert Edge(StateGraph(cfg, dir, stop, needBody, start), p[n], p[n + 1]);
    if dir == Backward {
      var h := BackwardEdge(cfg, stop, needBody, p[n], p[n + 1]);
      ClearJoin(cfg, dir, stop, p[n + 1], p[n], p[0], h, f);
      e := h + f[1..];
    } else {
      var h := ForwardEdge(cfg, stop, p[n], p[n + 1]);
      ClearJoin(cfg, dir, stop, p[0], p[n], p[n + 1], f, h);
      e := f + h[1..];
    }
  }

  lemma InspectedBackward<T>(cfg: Graph<T>, stop: T -> bool, needBody: bool, start: State, s: State)
    returns (e: seq<State>)
    requires Valid(cfg, start) && Inspects(cfg, Backward, stop, needBody, start, s)
    ensures ClearRun(cfg, Backward, stop, s, start, e)
  {
    var p :| WalkFromTo(StateGraph(cfg, Backward, stop, needBody, start), start, s, p);
    e := WalkIsRun(cfg, Backward, stop, needBody, start, p);
  }

  lemma InspectedForward<T>(cfg: Graph<T>, stop: T -> bool, start: State, s: State) returns (e: seq<State>)
    requires Valid(cfg, start) && Inspects(cfg, Forward, stop, false, start, s)
    ensures ClearRun(cfg, Forward, stop, start, s, e)
  {
    var p :| WalkFromTo(StateGraph(cfg, Forward, stop, false, start), start, s, p);
    e := WalkIsRun(cfg, Forward, stop, false, start, p);
  }

  /** A clear execution to the query's point starts at a point covered by an inspected state. */
  lemma ClearRunIsInspected<T>(cfg: Graph<T>, stop: T -> bool, start: State, a: State, e: seq<State>)
    returns (limit: int)
    requires Valid(cfg, start) && ClearRun(cfg, Backward, stop, a, start, e)
    ensures Inspects(cfg, Backward, stop, false, start, (a.0, limit)) && Free(cfg, stop, a.0, a.1, limit)
  {
    limit := ClearRunIsCovered(cfg, stop, false, start, a, e);
  }

  // ---------------------------------------------------------------- loops, read as executions

  /** `e` leads from the end of block `b` back to it, and `f` from there to the point, both without a stop. */
  ghost predicate Circles<T>(cfg: Graph<T>, stop: T -> bool, start: State, b: int, e: seq<State>, f: seq<State>)
  {
    && b in cfg && |e| > 1
    && ClearRun(cfg, Backward, stop, EntryState(cfg, Backward, b), EntryState(cfg, Backward, b), e)
    && ClearRun(cfg, Backward, stop, EntryState(cfg, Backward, b), start, f)
  }

  /** Some executions into the point can go round any number of times without a stop. */
  ghost predicate Revolves<T>(cfg: Graph<T>, stop: T -> bool, start: State)
  {
    exists b, e, f :: Circles(cfg, stop, start, b, e, f)
  }

  lemma WalkInLarger<T>(cfg: Graph<T>, stop: T -> bool, needBody: bool, start: State, b: int, p: seq<State>)
    requires b in cfg && Walk(StateGraph(cfg, Backward, stop, needBody, EntryState(cfg, Backward, b)), p)
    ensures Walk(StateGraph(cfg, Backward, stop, needBody, start), p)
  {
    var h := StateGraph(cfg, Backward, stop, needBody, EntryState(cfg, Backward, b));
    var g := StateGraph(cfg, Backward, stop, needBody, start);
    forall i | 0 <= i < |p| - 1 ensures Edge(g, p[i], p[i + 1]) {
      assert Edge(h, p[i], p[i + 1]);
    }
  }

  lemma ReachesJoin(g: Edges, a: State, b: State, c: State)
    requires Reaches(g, a, b) && Reaches(g, b, c)
    ensures Reaches(g, a, c)
  {
    var p: seq<State> :| WalkFromTo(g, a, b, p);
    var q: seq<State> :| WalkFromTo(g, b, c, q);
    var r := p + q[1..];
    forall i | 0 <= i < |r| - 1 ensures Edge(g, r[i], r[i + 1]) {
      if i < |p| - 1 {
        assert Edge(g, p[i], p[i + 1]);
      } else {
        assert Edge(g, q[i - |p| + 1], q[i - |p| + 2]);
      }
    }
    assert WalkFromTo(g, a, c, r);
  }

  /** What a query from a block's end inspects, a query that inspects that end inspects as well. */
  lemma InspectsThrough<T>(cfg: Graph<T>, stop: T -> bool, needBody: bool, start: State, b: int, s: State)
    requires b in cfg && Inspects(cfg, Backward, stop, needBody, start, EntryState(cfg, Backward, b))
    requires Inspects(cfg, Backward, stop, needBody, EntryState(cfg, Backward, b), s)
    ensures Inspects(cfg, Backward, stop, needBody, start, s)
    ensures Reaches(StateGraph(cfg, Backward, stop, needBody, start), EntryState(cfg, Backward, b), s)
  {
    var end, g := EntryState(cfg, Backward, b), StateGraph(cfg, Backward, stop, needBody, start);
    var p :| WalkFromTo(StateGraph(cfg, Backward, stop, needBody, end), end, s, p);
    WalkInLarger(cfg, stop, needBody, start, b, p);
    assert WalkFromTo(g, end, s, p);
    ReachesJoin(g, start, end, s);
  }

  /** A clear execution into the point starts where the query inspects. */
  lemma ClearRunIsCovered<T>(cfg: Graph<T>, stop: T -> bool, needBody: bool, start: State, a: State, e: seq<State>)
    returns (limit: int)
    requires Valid(cfg, start) && ClearRun(cfg, Backward, stop, a, start, e)
    requires needBody ==> AllHaveBodies(cfg, stop, start)
    ensures Inspects(cfg, Backward, stop, needBody, start, (a.0, limit)) && Free(cfg, stop, a.0, a.1, limit)
  {
    ReachesSelf(StateGraph(cfg, Backward, stop, needBody, start), start);
    var j: int;
    j, limit := BackwardTrace(cfg, stop, needBody, start, e, start.1);
  }

  lemma CycleRevolves<T>(cfg: Graph<T>, stop: T -> bool, needBody: bool, start: State)
    requires Valid(cfg, start) && Loops(cfg, Backward, stop, needBody, start)
    ensures Revolves(cfg, stop, start)
  {
    var g := StateGraph(cfg, Backward, stop, needBody, start);
    var p: seq<State> :| Cycle(g, p) && Reaches(g, start, p[0]);
    assert Edge(g, p[0], p[1]);
    ReachesStep(g, start, p[0], p[1]);
    var b := p[1].0;
    assert p[1] == EntryState(cfg, Backward, b);
    var round := p[1..] + [p[1]];
    forall i | 0 <= i < |round| - 1 ensures Edge(g, round[i], round[i + 1]) {
      assert i < |p| - 2 ==> Edge(g, p[i + 1], p[i + 2]);
    }
    var e := WalkIsRun(cfg, Backward, stop, needBody, start, round);
    var f := InspectedBackward(cfg, stop, needBody, start, p[1]);
    assert Circles(cfg, stop, start, b, e, f);
  }

  /** The first step of a run from a block's end jumps; what follows comes back to the end. */
  lemma CircleReturns<T>(cfg: Graph<T>, stop: T -> bool, needBody: bool, b: int, e: seq<State>) returns (s: State)
    requires b in cfg && |e| > 1 && (needBody ==> AllHaveBodies(cfg, stop, EntryState(cfg, Backward, b)))
    requires ClearRun(cfg, Backward, stop, EntryState(cfg, Backward, b), EntryState(cfg, Backward, b), e)
    ensures Inspects(cfg, Backward, stop, needBody, EntryState(cfg, Backward, b), s)
    ensures EntryState(cfg, Backward, b) in Next(cfg, Backward, stop, needBody, s)
  {
    var end := EntryState(cfg, Backward, b);
    assert Step(cfg, Backward, e[0], e[1]) && Jumps(cfg, Backward, b, e[1].0);
    var rest := e[1..];
    forall i | 0 <= i < |rest| - 1 ensures Step(cfg, Backward, rest[i], rest[i + 1]) && !StopsAt(cfg, stop, rest, i) {
      assert !StopsAt(cfg, stop, e, i + 1) && Step(cfg, Backward, e[i + 1], e[i + 2]);
    }
    var limit := ClearRunIsCovered(cfg, stop, needBody, end, rest[0], rest);
    s := (rest[0].0, limit);
    assert Passes(cfg, Backward, stop, needBody, s);
  }

  lemma CirclesLoop<T>(cfg: Graph<T>, stop: T -> bool, needBody: bool, start: State, b: int, e: seq<State>,
                       f: seq<State>)
    requires Valid(cfg, start) && Circles(cfg, stop, start, b, e, f)
    requires needBody ==> AllHaveBodies(cfg, stop, start)
    ensures Loops(cfg, Backward, stop, needBody, start)
  {
    var end, g := EntryState(cfg, Backward, b), StateGraph(cfg, Backward, stop, needBody, start);
    var limit := ClearRunIsCovered(cfg, stop, needBody, start, end, f);
    if needBody {
      forall s | Inspects(cfg, Backward, stop, true, end, s) && s.0 in cfg ensures cfg[s.0].instructions != [] {
        InspectsThrough(cfg, stop, true, start, b, s);
      }
    }
    var s := CircleReturns(cfg, stop, needBody, b, e);
    InspectsThrough(cfg, stop, needBody, start, b, s);
    InspectedInUniverse(cfg, Backward, stop, needBody, start, s);
    var p: seq<State> :| WalkFromTo(g, end, s, p);
    var round := p + [end];
    forall i | 0 <= i < |round| - 1 ensures Edge(g, round[i], round[i + 1]) {
      assert i < |p| - 1 ==> Edge(g, p[i], p[i + 1]);
    }
    assert Cycle(g, round);
  }

  /** The search meets a cycle exactly if executions into the point can go round without a stop. */
  lemma LoopsIffRevolves<T>(cfg: Graph<T>, stop: T -> bool, needBody: bool, start: State)
    requires Valid(cfg, start) && (needBody ==> AllHaveBodies(cfg, stop, start))
    ensures Loops(cfg, Backward, stop, needBody, start) <==> Revolves(cfg, stop, start)
  {
    if Loops(cfg, Backward, stop, needBody, start) {
      CycleRevolves(cfg, stop, needBody, start);
    } else if b, e, f :| Circles(cfg, stop, start, b, e, f) {
      CirclesLoop(cfg, stop, needBody, start, b, e, f);
    }
  }
}
