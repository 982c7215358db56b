/**
  Control-flow graphs of straight-line blocks, their executions, and the bounded
  state search that the reaching-definition, liveness and register queries share.
 */
module Cfg {
  import opened Basics
  import opened Graphs
  import opened Worklist

  datatype Block<T> = Block(instructions: seq<T>, predecessors: seq<int>, successors: seq<int>)

  type Graph<T> = map<int, Block<T>>

  /** Backward queries walk predecessor edges, forward queries successor edges. */
  datatype Direction = Backward | Forward

  // ---------------------------------------------------------------- reciprocity

  ghost predicate Reciprocal<T>(cfg: Graph<T>)
  {
    && (forall a, b :: a in cfg && b in cfg[a].successors ==> b in cfg && a in cfg[b].predecessors)
    && (forall a, b :: b in cfg && a in cfg[b].predecessors ==> a in cfg && b in cfg[a].successors)
  }

  /** All edges of one block exist in both directions. */
  ghost predicate BlockReciprocal<T>(cfg: Graph<T>, id: int)
    requires id in cfg
  {
    && (forall b :: b in cfg[id].successors ==> b in cfg && id in cfg[b].predecessors)
    && (forall a :: a in cfg[id].predecessors ==> a in cfg && id in cfg[a].successors)
  }

  method CheckBlock<T>(cfg: Graph<T>, id: int) returns (ok: bool)
    requires id in cfg
    ensures ok <==> BlockReciprocal(cfg, id)
  {
    for i := 0 to |cfg[id].successors|
      invariant forall k :: 0 <= k < i ==> cfg[id].successors[k] in cfg && id in cfg[cfg[id].successors[k]].predecessors
    {
      var next := cfg[id].successors[i];
      if next !in cfg || id !in cfg[next].predecessors {
        return false;
      }
    }
    for i := 0 to |cfg[id].predecessors|
      invariant forall k :: 0 <= k < i ==>
                cfg[id].predecessors[k] in cfg && id in cfg[cfg[id].predecessors[k]].successors
    {
      var previous := cfg[id].predecessors[i];
      if previous !in cfg || id !in cfg[previous].successors {
        return false;
      }
    }
    return true;
  }

  lemma AllBlocksReciprocal<T>(cfg: Graph<T>)
    ensures Reciprocal(cfg) <==> forall id :: id in cfg ==> BlockReciprocal(cfg, id)
  {
  }

  /** `_validate_cfg_reciprocity`: false stands for the exception it raises. */
  method ValidateReciprocity<T>(cfg: Graph<T>) returns (ok: bool)
    ensures ok <==> Reciprocal(cfg)
  {
    AllBlocksReciprocal(cfg);
    var todo := cfg.Keys;
    while todo != {}
      invariant todo <= cfg.Keys
      invariant forall id :: id in cfg && id !in todo ==> BlockReciprocal(cfg, id)
      decreases todo
    {
      var id := Pick(todo);
      var good := CheckBlock(cfg, id);
      if !good {
        return false;
      }
      todo := todo - {id};
    }
    return true;
  }

  // ---------------------------------------------------------------- executions

  predicate Valid<T>(cfg: Graph<T>, s: State)
  {
    s.0 in cfg && 0 <= s.1 <= |cfg[s.0].instructions|
  }

  /** The step from `s` to `t` executes the instruction at `s`. */
  predicate Executes<T>(cfg: Graph<T>, s: State, t: State)
  {
    s.0 in cfg && 0 <= s.1 < |cfg[s.0].instructions| && t == (s.0, s.1 + 1)
  }

  /** Control passes from the end of block `a` to the start of block `b`. */
  predicate Jumps<T>(cfg: Graph<T>, dir: Direction, a: int, b: int)
  {
    a in cfg && b in cfg && if dir == Backward then a in cfg[b].predecessors else b in cfg[a].successors
  }

  predicate Step<T>(cfg: Graph<T>, dir: Direction, s: State, t: State)
  {
    || Executes(cfg, s, t)
    || (Jumps(cfg, dir, s.0, t.0) && s.1 == |cfg[s.0].instructions| && t.1 == 0)
  }

  ghost predicate Execution<T>(cfg: Graph<T>, dir: Direction, e: seq<State>)
  {
    && |e| > 0 && Valid(cfg, e[0])
    && forall i :: 0 <= i < |e| - 1 ==> Step(cfg, dir, e[i], e[i + 1])
  }

  lemma {:induction false} ExecutionStaysValid<T>(cfg: Graph<T>, dir: Direction, e: seq<State>, k: nat)
    requires Execution(cfg, dir, e) && k < |e|
    ensures Valid(cfg, e[k])
  {
    if k > 0 {
      ExecutionStaysValid(cfg, dir, e, k - 1);
      assert Step(cfg, dir, e[k - 1], e[k]);
    }
  }

  /** On a reciprocal graph both readings of the edges give the same executions. */
  lemma ReciprocalExecution<T>(cfg: Graph<T>, e: seq<State>)
    requires Reciprocal(cfg)
    ensures Execution(cfg, Forward, e) <==> Execution(cfg, Backward, e)
  {
    forall i | 0 <= i < |e| - 1
      ensures Step(cfg, Forward, e[i], e[i + 1]) <==> Step(cfg, Backward, e[i], e[i + 1])
    {
    }
  }

  /** The `i`th step executes an instruction at which the query would stop. */
  predicate StopsAt<T>(cfg: Graph<T>, stop: T -> bool, e: seq<State>, i: int)
    requires 0 <= i < |e| - 1
  {
    Executes(cfg, e[i], e[i + 1]) && stop(cfg[e[i].0].instructions[e[i].1])
  }

  /** Step `j` is the last at which the query would stop. */
  ghost predicate LastStop<T>(cfg: Graph<T>, stop: T -> bool, e: seq<State>, j: int)
  {
    0 <= j < |e| - 1 && StopsAt(cfg, stop, e, j) && forall i :: j < i < |e| - 1 ==> !StopsAt(cfg, stop, e, i)
  }

  /** `e` leads to `start`, and step `j` is its last stop. */
  ghost predicate ArrivesFrom<T>(cfg: Graph<T>, stop: T -> bool, start: State, e: seq<State>, j: int)
  {
    Execution(cfg, Backward, e) && e[|e| - 1] == start && LastStop(cfg, stop, e, j)
  }

  /**
    Control may enter the function here, as far as the graph shows: nothing leads to the
    block, or something unknown.
   */
  predicate Enters<T>(cfg: Graph<T>, b: int)
    requires b in cfg
  {
    cfg[b].predecessors == [] || exists p :: p in cfg[b].predecessors && p !in cfg
  }

  /** An execution from `a` to `b` that executes no stopping instruction. */
  ghost predicate ClearRun<T>(cfg: Graph<T>, dir: Direction, stop: T -> bool, a: State, b: State, e: seq<State>)
  {
    && Execution(cfg, dir, e) && e[0] == a && e[|e| - 1] == b
    && forall i :: 0 <= i < |e| - 1 ==> !StopsAt(cfg, stop, e, i)
  }

  lemma ClearJoin<T>(cfg: Graph<T>, dir: Direction, stop: T -> bool, a: State, b: State, c: State, e: seq<State>,
                     f: seq<State>)
    requires ClearRun(cfg, dir, stop, a, b, e) && ClearRun(cfg, dir, stop, b, c, f)
    ensures ClearRun(cfg, dir, stop, a, c, e + f[1..])
  {
    var g := e + f[1..];
    forall i | 0 <= i < |g| - 1
      ensures Step(cfg, dir, g[i], g[i + 1]) && !StopsAt(cfg, stop, g, i)
    {
      if i < |e| - 1 {
        assert g[i] == e[i] && g[i + 1] == e[i + 1];
        assert !StopsAt(cfg, stop, e, i);
      } else {
        var k := i - |e| + 1;
        assert g[i] == f[k] && g[i + 1] == f[k + 1];
        assert !StopsAt(cfg, stop, f, k);
      }
    }
  }

  /** Straight-line execution from boundary `lo` to boundary `hi` of one block. */
  lemma StraightLine<T>(cfg: Graph<T>, dir: Direction, stop: T -> bool, b: int, lo: int, hi: int)
    returns (e: seq<State>)
    requires b in cfg && 0 <= lo <= hi <= |cfg[b].instructions|
    requires forall i :: lo <= i < hi ==> !stop(cfg[b].instructions[i])
    ensures ClearRun(cfg, dir, stop, (b, lo), (b, hi), e)
  {
    e := seq(hi - lo + 1, i => (b, lo + i));
    forall i | 0 <= i < |e| - 1
      ensures Step(cfg, dir, e[i], e[i + 1]) && !StopsAt(cfg, stop, e, i)
    {
      assert e[i] == (b, lo + i) && e[i + 1] == (b, lo + i + 1);
    }
  }

  // ---------------------------------------------------------------- the state graph of a query

  /** The instruction positions a query scans from state `s`, in either direction. */
  predicate Scanned<T>(cfg: Graph<T>, dir: Direction, s: State, i: int)
    requires s.0 in cfg
  {
    if dir == Backward then 0 <= i < s.1 else s.1 <= i < |cfg[s.0].instructions|
  }

  /** The scan from `s` runs off the block without stopping; `needBody` rejects empty blocks. */
  predicate Passes<T>(cfg: Graph<T>, dir: Direction, stop: T -> bool, needBody: bool, s: State)
  {
    && Valid(cfg, s)
    && (needBody ==> cfg[s.0].instructions != [])
    && forall i :: 0 <= i < |cfg[s.0].instructions| && Scanned(cfg, dir, s, i) ==> !stop(cfg[s.0].instructions[i])
  }

  /** `pos` is the first stopping position that the scan from `s` meets. */
  ghost predicate FirstStop<T>(cfg: Graph<T>, dir: Direction, stop: T -> bool, s: State, pos: int)
  {
    && Valid(cfg, s) && 0 <= pos < |cfg[s.0].instructions| && Scanned(cfg, dir, s, pos)
    && stop(cfg[s.0].instructions[pos])
    && forall i :: 0 <= i < |cfg[s.0].instructions| && Scanned(cfg, dir, s, i)
                   && (if dir == Backward then pos < i else i < pos)
         ==> !stop(cfg[s.0].instructions[i])
  }

  /** The scan inside one block, in the direction of the query. */
  method Scan<T>(cfg: Graph<T>, dir: Direction, stop: T -> bool, s: State) returns (pos: Option<nat>)
    requires Valid(cfg, s)
    ensures pos.Some? ==> FirstStop(cfg, dir, stop, s, pos.value)
    ensures pos.None? <==> Passes(cfg, dir, stop, false, s)
  {
    var instructions := cfg[s.0].instructions;
    if dir == Backward {
      for i := s.1 downto 0
        invariant forall k :: i <= k < s.1 ==> !stop(instructions[k])
      {
        if stop(instructions[i]) {
          return Some(i);
        }
      }
    } else {
      for i := s.1 to |instructions|
        invariant forall k :: s.1 <= k < i ==> !stop(instructions[k])
      {
        if stop(instructions[i]) {
          return Some(i);
        }
      }
    }
    return None;
  }

  function Neighbours<T>(cfg: Graph<T>, dir: Direction, b: int): seq<int>
    requires b in cfg
  {
    if dir == Backward then cfg[b].predecessors else cfg[b].successors
  }

  /** Where a query enters a neighbouring block: at its end going backward, at its start going forward. */
  function EntryState<T>(cfg: Graph<T>, dir: Direction, b: int): State
    requires b in cfg
  {
    (b, if dir == Backward then |cfg[b].instructions| else 0)
  }

  function Next<T>(cfg: Graph<T>, dir: Direction, stop: T -> bool, needBody: bool, s: State): set<State>
  {
    if Passes(cfg, dir, stop, needBody, s)
    then set id | id in Neighbours(cfg, dir, s.0) && id in cfg :: EntryState(cfg, dir, id)
    else {}
  }

  function Universe<T>(cfg: Graph<T>, dir: Direction, start: State): set<State>
  {
    {start} + set id | id in cfg :: EntryState(cfg, dir, id)
  }

  function StateGraph<T>(cfg: Graph<T>, dir: Direction, stop: T -> bool, needBody: bool, start: State): (g: Edges)
    ensures Closed(g) && start in g
  {
    map s | s in Universe(cfg, dir, start) :: Next(cfg, dir, stop, needBody, s)
  }

  /** States that a query started at `start` inspects when nothing cuts it short. */
  ghost predicate Inspects<T>(cfg: Graph<T>, dir: Direction, stop: T -> bool, needBody: bool, start: State, s: State)
  {
    Reaches(StateGraph(cfg, dir, stop, needBody, start), start, s)
  }

  ghost predicate Loops<T>(cfg: Graph<T>, dir: Direction, stop: T -> bool, needBody: bool, start: State)
  {
    CyclicFrom(StateGraph(cfg, dir, stop, needBody, start), start)
  }

  lemma {:induction false} UniverseCount<T>(cfg: Graph<T>, ids: set<int>, dir: Direction)
    requires ids <= cfg.Keys
    ensures |set id | id in ids :: EntryState(cfg, dir, id)| <= |ids|
  {
    if ids != {} {
      var x := Member(ids);
      UniverseCount(cfg, ids - {x}, dir);
      assert (set id | id in ids :: EntryState(cfg, dir, id))
          == (set id | id in ids - {x} :: EntryState(cfg, dir, id)) + {EntryState(cfg, dir, x)};
    }
  }

  /** A query has at most one state per block besides its first one. */
  lemma VisitedBound<T>(cfg: Graph<T>, dir: Direction, start: State, visited: set<State>)
    requires visited <= Universe(cfg, dir, start)
    ensures |visited| <= |cfg.Keys| + 1
  {
    UniverseCount(cfg, cfg.Keys, dir);
    SubsetCount(visited, Universe(cfg, dir, start));
  }

  /** The default budget of all three queries. */
  function DefaultBudget<T>(cfg: Graph<T>): (budget: int)
    ensures budget > |cfg.Keys| + 1
  {
    if |cfg.Keys| * 4 + 4 > 64 then |cfg.Keys| * 4 + 4 else 64
  }

  // ---------------------------------------------------------------- the search

  /** Records the edges out of `state` and queues the unvisited neighbours. */
  method PushNeighbours<T>(cfg: Graph<T>, dir: Direction, state: State, ids: seq<int>, visited: set<State>,
                           edges: Edges, pending: seq<State>) returns (edges': Edges, pending': seq<State>)
    requires state in edges && edges[state] == {} && state in visited
    ensures edges.Keys <= edges'.Keys
    ensures edges'[state] == set id | id in ids && id in cfg :: EntryState(cfg, dir, id)
    ensures forall v :: v in edges' && v != state ==> if v in edges then edges'[v] == edges[v] else edges'[v] == {}
    ensures forall v :: v in pending ==> v in pending'
    ensures forall v :: v in pending' ==> v in pending || v in edges'[state]
    ensures forall v :: v in edges'[state] ==> v in visited || v in pending'
  {
    edges', pending' := edges, pending;
    for i := 0 to |ids|
      invariant edges.Keys <= edges'.Keys
      invariant edges'[state] == set id | id in ids[..i] && id in cfg :: EntryState(cfg, dir, id)
      invariant forall v :: v in edges' && v != state ==> if v in edges then edges'[v] == edges[v] else edges'[v] == {}
      invariant forall v :: v in pending ==> v in pending'
      invariant forall v :: v in pending' ==> v in pending || v in edges'[state]
      invariant forall v :: v in edges'[state] ==> v in visited || v in pending'
    {
      assert ids[..i + 1] == ids[..i] + [ids[i]];
      if ids[i] in cfg {
        var next := EntryState(cfg, dir, ids[i]);
        edges' := edges'[state := edges'[state] + {next}];
        if next !in edges' {
          edges' := edges'[next := {}];
        }
        if next !in visited {
          pending' := pending' + [next];
        }
      }
    }
    assert ids[..|ids|] == ids;
  }

  /** The worklist loop of the three queries; it stops early only when the budget is spent. */
  method RunWorklist<T>(cfg: Graph<T>, dir: Direction, stop: T -> bool, needBody: bool, start: State, budget: int)
    returns (visited: set<State>, edges: Edges, pending: seq<State>)
    ensures Explored(StateGraph(cfg, dir, stop, needBody, start), start, visited, edges, pending)
    ensures pending != [] ==> pending[|pending| - 1] !in visited && |visited| >= budget
  {
    ghost var g := StateGraph(cfg, dir, stop, needBody, start);
    pending, visited, edges := [start], {}, map[];
    ReachesSelf(g, start);
    while pending != []
      invariant Explored(g, start, visited, edges, pending)
      decreases g.Keys - visited, |pending|
    {
      var state := pending[|pending| - 1];
      var rest := pending[..|pending| - 1];
      assert state in pending;
      if state in visited {
        ExploredSkip(g, start, visited, edges, pending);
        pending := rest;
        continue;
      }
      if |visited| >= budget {
        break;
      }
      var edges', pending' := ExpandState(cfg, dir, stop, needBody, state, visited, edges, rest);
      ExploredStep(g, start, visited, edges, pending, edges', pending');
      visited, edges, pending := visited + {state}, edges', pending';
    }
  }

  /**
    Unless the budget cuts it short, the search visits exactly the states the query
    can inspect, and its edge record is cyclic exactly when such states form a cycle.
    Only a budget of at most the number of blocks can cut it short.
   */
  method Explore<T>(cfg: Graph<T>, dir: Direction, stop: T -> bool, needBody: bool, start: State, budget: int)
    returns (visited: set<State>, edges: Edges, exhausted: bool)
    ensures forall s :: s in visited ==> Inspects(cfg, dir, stop, needBody, start, s)
    ensures !exhausted ==> forall s :: Inspects(cfg, dir, stop, needBody, start, s) ==> s in visited
    ensures !exhausted ==> (Cyclic(edges) <==> Loops(cfg, dir, stop, needBody, start))
    ensures |visited| <= |cfg.Keys| + 1
    ensures exhausted ==> budget <= |visited| <= |cfg.Keys|
  {
    ghost var g := StateGraph(cfg, dir, stop, needBody, start);
    var pending: seq<State>;
    visited, edges, pending := RunWorklist(cfg, dir, stop, needBody, start, budget);
    exhausted := pending != [];
    VisitedBound(cfg, dir, start, visited);
    if exhausted {
      var state := pending[|pending| - 1];
      assert state in pending;
      VisitedBound(cfg, dir, start, visited + {state});
      assert |visited + {state}| == |visited| + 1;
    } else {
      ExploredAll(g, start, visited, edges);
    }
  }

  /** Scans one newly visited state: its edges are exactly the states the query enters next. */
  method ExpandState<T>(cfg: Graph<T>, dir: Direction, stop: T -> bool, needBody: bool, state: State,
                        visited: set<State>, edges: Edges, pending: seq<State>)
    returns (edges': Edges, pending': seq<State>)
    requires state !in visited && (state in edges ==> edges[state] == {})
    ensures edges.Keys <= edges'.Keys && state in edges' && edges'[state] == Next(cfg, dir, stop, needBody, state)
    ensures forall v :: v in edges' && v != state ==> if v in edges then edges'[v] == edges[v] else edges'[v] == {}
    ensures forall v :: v in pending ==> v in pending'
    ensures forall v :: v in pending' ==> v in pending || v in edges'[state]
    ensures forall v :: v in edges'[state] ==> v in visited || v == state || v in pending'
  {
    edges' := if state in edges then edges else edges[state := {}];
    pending' := pending;
    if !Valid(cfg, state) || (needBody && cfg[state.0].instructions == []) {
      return;
    }
    var position := Scan(cfg, dir, stop, state);
    if position.None? {
      edges', pending' :=
        PushNeighbours(cfg, dir, state, Neighbours(cfg, dir, state.0), visited + {state}, edges', pending');
    }
  }
}
