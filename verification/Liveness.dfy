/**
  The forward liveness query: is the value at a program point used on some path
  before it is redefined?
 */
module Liveness {
  import opened Graphs
  import opened Worklist
  import opened Basics
  import opened Cfg
  import opened Traces
  import opened ReachingDefinitions

  /** A use whose native address is known ends the scan as live, a definition ends it as dead. */
  predicate KnownUse(f: Fact)
  {
    f.use && f.ea.Some?
  }

  predicate Ends(f: Fact)
  {
    KnownUse(f) || Defines(f)
  }

  datatype FutureUses = FutureUses(uses: seq<Site>, hiddenUse: bool, loop: bool, exhausted: bool, visited: nat)

  /** `_future_use_rejection_reason`. */
  function Verdict(r: FutureUses): (reason: Option<Reason>)
  {
    if r.uses != [] then None
    else if r.hiddenUse || r.loop || r.exhausted then Some(LivenessUnproven)
    else Some(NotLive)
  }

  // ---------------------------------------------------------------- what one inspected state contributes

  ghost predicate Inspected(cfg: Program, start: State, s: State)
  {
    Inspects(cfg, Forward, Ends, false, start, s)
  }

  ghost predicate FindsUse(cfg: Program, s: State, site: Site)
  {
    && s.0 == site.block && FirstStop(cfg, Forward, Ends, s, site.index)
    && KnownUse(cfg[s.0].instructions[site.index])
    && site.ea == cfg[s.0].instructions[site.index].ea
  }

  /** The scan from `s` reads, before it ends, a use whose native address is unknown. */
  ghost predicate FindsHiddenUse(cfg: Program, s: State)
  {
    exists i :: Free(cfg, Ends, s.0, s.1, i) && i < |cfg[s.0].instructions|
                && cfg[s.0].instructions[i].use && cfg[s.0].instructions[i].ea.None?
  }

  ghost predicate Broken(cfg: Program, s: State)
  {
    || !Valid(cfg, s)
    || (Passes(cfg, Forward, Ends, false, s) && exists n :: n in cfg[s.0].successors && n !in cfg)
  }

  method InspectState(cfg: Program, s: State) returns (site: Option<Site>, hidden: bool, broken: bool)
    ensures site.Some? ==> FindsUse(cfg, s, site.value)
    ensures forall t :: FindsUse(cfg, s, t) ==> site == Some(t)
    ensures hidden <==> FindsHiddenUse(cfg, s)
    ensures broken <==> Broken(cfg, s)
  {
    site, hidden, broken := None, false, false;
    if !Valid(cfg, s) {
      return None, false, true;
    }
    var instructions := cfg[s.0].instructions;
    var i := s.1;
    while i < |instructions|
      invariant s.1 <= i <= |instructions| && Free(cfg, Ends, s.0, s.1, i)
      invariant hidden <==> exists k :: s.1 <= k < i && instructions[k].use && instructions[k].ea.None?
    {
      var fact := instructions[i];
      if fact.use && fact.ea.None? {
        hidden := true;
        assert Free(cfg, Ends, s.0, s.1, i) && instructions[i].use;
      }
      if Ends(fact) {
        assert FirstStop(cfg, Forward, Ends, s, i);
        if KnownUse(fact) {
          site := Some(Site(s.0, i, fact.ea));
        }
        return;
      }
      i := i + 1;
    }
    broken := exists n :: n in cfg[s.0].successors && n !in cfg;
  }

  // ---------------------------------------------------------------- the query

  ghost predicate Recorded(cfg: Program, states: set<State>, uses: seq<Site>, hidden: bool, broken: bool)
  {
    && Sorted(uses)
    && (forall site :: site in uses <==> exists s :: s in states && FindsUse(cfg, s, site))
    && (hidden <==> exists s :: s in states && FindsHiddenUse(cfg, s))
    && (broken <==> exists s :: s in states && Broken(cfg, s))
  }

  method Record(cfg: Program, states: set<State>) returns (uses: seq<Site>, hidden: bool, broken: bool)
    ensures Recorded(cfg, states, uses, hidden, broken)
  {
    uses, hidden, broken := [], false, false;
    var todo := states;
    while todo != {}
      invariant todo <= states
      invariant Recorded(cfg, states - todo, uses, hidden, broken)
      decreases todo
    {
      var s := Pick(todo);
      var site, h, b := InspectState(cfg, s);
      ghost var done := states - todo;
      todo := todo - {s};
      assert states - todo == done + {s};
      if site.Some? {
        uses := Insert(uses, site.value);
      }
      hidden, broken := hidden || h, broken || b;
    }
    assert states - todo == states;
  }

  /** The answer over every state the query can inspect; `cut` says that the budget ended it early. */
  ghost predicate Answer(cfg: Program, start: State, r: FutureUses, cut: bool)
  {
    && (forall site :: site in r.uses ==> exists s :: Inspected(cfg, start, s) && FindsUse(cfg, s, site))
    && (cut ==> r.exhausted)
    && (!cut ==>
          && (forall s, site :: Inspected(cfg, start, s) && FindsUse(cfg, s, site) ==> site in r.uses)
          && (r.hiddenUse <==> exists s :: Inspected(cfg, start, s) && FindsHiddenUse(cfg, s))
          && (r.exhausted <==> exists s :: Inspected(cfg, start, s) && Broken(cfg, s))
          && (r.loop <==> Loops(cfg, Forward, Ends, false, start)))
  }

  /**
    The uses are the record of the `seen` states, as many as the result says, all of them
    states the query can inspect.
   */
  ghost predicate RecordOf(cfg: Program, start: State, r: FutureUses, seen: set<State>)
  {
    && |seen| == r.visited && (forall s :: s in seen ==> Inspected(cfg, start, s))
    && exists broken :: Recorded(cfg, seen, r.uses, r.hiddenUse, broken)
  }

  /** `_find_future_uses`: a search that is cut short has at least used up its budget. */
  method FindFutureUses(cfg: Program, block: int, boundary: int, maxStates: Option<int>)
    returns (r: FutureUses, ghost cut: bool)
    ensures Answer(cfg, (block, boundary), r, cut)
    ensures r.visited <= |cfg.Keys| + 1
    ensures exists seen :: RecordOf(cfg, (block, boundary), r, seen)
    ensures cut ==> maxStates.Some? && maxStates.value <= r.visited <= |cfg.Keys|
  {
    var budget := if maxStates.Some? then maxStates.value else DefaultBudget(cfg);
    var visited, edges, early := Explore(cfg, Forward, Ends, false, (block, boundary), budget);
    var uses, hidden, broken := Record(cfg, visited);
    var loop := GraphHasCycle(edges);
    r := FutureUses(uses, hidden, loop, early || broken, |visited|);
    cut := early;
    assert Recorded(cfg, visited, uses, hidden, broken) && RecordOf(cfg, (block, boundary), r, visited);
  }

  // ---------------------------------------------------------------- what the verdict means

  /** `e` runs from `start` to an instruction satisfying `use`, and executes no definition on the way. */
  ghost predicate UseRun(cfg: Program, start: State, use: Fact -> bool, e: seq<State>)
  {
    && Execution(cfg, Forward, e) && e[0] == start
    && (forall i :: 0 <= i < |e| - 1 ==> !StopsAt(cfg, Defines, e, i))
    && var last := e[|e| - 1];
       Valid(cfg, last) && last.1 < |cfg[last.0].instructions| && use(cfg[last.0].instructions[last.1])
  }

  predicate AnyUse(f: Fact)
  {
    f.use
  }

  ghost predicate Live(cfg: Program, start: State, use: Fact -> bool)
  {
    exists e :: UseRun(cfg, start, use, e)
  }

  /** The graph the microcode collector hands over: a real point, and every successor exists. */
  ghost predicate WellFormed(cfg: Program, start: State)
  {
    Valid(cfg, start) && forall b, n :: b in cfg && n in cfg[b].successors ==> n in cfg
  }

  /** The first known use or definition that an execution meets, if any. */
  lemma {:induction false} FirstEnd(cfg: Program, e: seq<State>, n: nat) returns (k: nat)
    requires n < |e|
    ensures k <= n && forall i :: 0 <= i < k ==> !StopsAt(cfg, Ends, e, i)
    ensures k < n ==> StopsAt(cfg, Ends, e, k)
  {
    if n == 0 {
      return 0;
    }
    k := FirstEnd(cfg, e, n - 1);
    if k == n - 1 && !StopsAt(cfg, Ends, e, k) {
      k := n;
    }
  }

  /** A run to a use is followed by an inspected state that finds a known use or a hidden one. */
  lemma UseRunIsFound(cfg: Program, start: State, e: seq<State>) returns (s: State)
    requires UseRun(cfg, start, AnyUse, e)
    ensures Inspected(cfg, start, s)
    ensures (exists site :: FindsUse(cfg, s, site)) || FindsHiddenUse(cfg, s)
    ensures KnownUse(cfg[e[|e| - 1].0].instructions[e[|e| - 1].1]) ==> exists site :: FindsUse(cfg, s, site)
  {
    var k := FirstEnd(cfg, e, |e| - 1);
    var f := e[..k + 1];
    forall i | 0 <= i < |f| - 1
      ensures !StopsAt(cfg, Ends, f, i)
    {
      assert StopsAt(cfg, Ends, e, i) == StopsAt(cfg, Ends, f, i);
    }
    var from := ForwardTrace(cfg, Ends, start, f);
    ExecutionStaysValid(cfg, Forward, f, k);
    s := (e[k].0, from);
    var fact := cfg[e[k].0].instructions[e[k].1];
    if k < |e| - 1 {
      assert !StopsAt(cfg, Defines, e, k);
    }
    if KnownUse(fact) {
      assert FindsUse(cfg, s, Site(s.0, e[k].1, fact.ea));
    } else {
      assert Free(cfg, Ends, s.0, s.1, e[k].1);
    }
  }

  /** What an inspected state finds is reached by an execution free of definitions. */
  lemma FoundUseHasRun(cfg: Program, start: State, s: State, i: int, use: Fact -> bool)
    requires Valid(cfg, start) && Inspected(cfg, start, s)
    requires Free(cfg, Ends, s.0, s.1, i) && i < |cfg[s.0].instructions| && use(cfg[s.0].instructions[i])
    ensures Live(cfg, start, use)
  {
    var f := InspectedForward(cfg, Ends, start, s);
    var h := StraightLine(cfg, Forward, Ends, s.0, s.1, i);
    ClearJoin(cfg, Forward, Ends, start, s, (s.0, i), f, h);
    var e := f + h[1..];
    forall k | 0 <= k < |e| - 1
      ensures !StopsAt(cfg, Defines, e, k)
    {
      assert !StopsAt(cfg, Ends, e, k);
    }
    assert UseRun(cfg, start, use, e);
  }

  /** Accepted as live exactly when some execution reaches a known use before any redefinition. */
  lemma AcceptedIffLive(cfg: Program, start: State, r: FutureUses)
    requires Answer(cfg, start, r, false) && WellFormed(cfg, start)
    ensures Verdict(r).None? <==> Live(cfg, start, KnownUse)
  {
    if r.uses != [] {
      assert r.uses[0] in r.uses;
      var s :| Inspected(cfg, start, s) && FindsUse(cfg, s, r.uses[0]);
      FoundUseHasRun(cfg, start, s, r.uses[0].index, KnownUse);
    } else if e :| UseRun(cfg, start, KnownUse, e) {
      assert UseRun(cfg, start, AnyUse, e);
      var s := UseRunIsFound(cfg, start, e);
    }
  }

  /** Even a search that the budget cuts short accepts only live values. */
  lemma AcceptedIsLive(cfg: Program, start: State, r: FutureUses, cut: bool)
    requires Answer(cfg, start, r, cut) && Valid(cfg, start) && Verdict(r).None?
    ensures Live(cfg, start, KnownUse)
  {
    assert r.uses[0] in r.uses;
    var s :| Inspected(cfg, start, s) && FindsUse(cfg, s, r.uses[0]);
    FoundUseHasRun(cfg, start, s, r.uses[0].index, KnownUse);
  }

  /** A well-formed graph never ends the query for a missing block. */
  lemma WellFormedIsUnbroken(cfg: Program, start: State, s: State)
    requires WellFormed(cfg, start) && Inspected(cfg, start, s)
    ensures !Broken(cfg, s)
  {
    InspectedInUniverse(cfg, Forward, Ends, false, start, s);
  }

  /** "Not live" is reported exactly when no execution reaches any use first and the search met no loop. */
  lemma NotLiveIffNoUse(cfg: Program, start: State, r: FutureUses)
    requires Answer(cfg, start, r, false) && WellFormed(cfg, start)
    ensures Verdict(r) == Some(NotLive) <==> !Live(cfg, start, AnyUse) && !Loops(cfg, Forward, Ends, false, start)
  {
    if Live(cfg, start, AnyUse) {
      var e :| UseRun(cfg, start, AnyUse, e);
      var s := UseRunIsFound(cfg, start, e);
    } else {
      if r.uses != [] {
        AcceptedIffLive(cfg, start, r);
        var e :| UseRun(cfg, start, KnownUse, e);
        assert UseRun(cfg, start, AnyUse, e);
        assert false;
      }
      if s :| Inspected(cfg, start, s) && FindsHiddenUse(cfg, s) {
        var i :| Free(cfg, Ends, s.0, s.1, i) && i < |cfg[s.0].instructions| && cfg[s.0].instructions[i].use;
        FoundUseHasRun(cfg, start, s, i, AnyUse);
        assert false;
      }
      if s :| Inspected(cfg, start, s) && Broken(cfg, s) {
        WellFormedIsUnbroken(cfg, start, s);
        assert false;
      }
    }
  }

  // ---------------------------------------------------------------- a loop without a use

  /** One block that jumps to itself and uses nothing. */
  const IDLE_LOOP: Program := map[0 := Block([Fact(Some(16), false, false, false)], [0], [0])]

  lemma IdleLoops()
    ensures Loops(IDLE_LOOP, Forward, Ends, false, (0, 0))
  {
    var g := StateGraph(IDLE_LOOP, Forward, Ends, false, (0, 0));
    assert EntryState(IDLE_LOOP, Forward, 0) == (0, 0) && Passes(IDLE_LOOP, Forward, Ends, false, (0, 0));
    ReachesSelf(g, (0, 0));
    assert Edge(g, (0, 0), (0, 0));
    assert Cycle(g, [(0, 0), (0, 0)]);
  }

  lemma IdleIsNotLive()
    ensures !Live(IDLE_LOOP, (0, 0), AnyUse) && !Live(IDLE_LOOP, (0, 0), KnownUse)
  {
    assert forall f: Fact :: KnownUse(f) ==> AnyUse(f);
    assert !AnyUse(IDLE_LOOP[0].instructions[0]);
  }

  /** No path reaches a use, and yet every complete search of the loop says "unproven" and not "not live". */
  lemma IdleLoopIsUnproven(r: FutureUses)
    requires Answer(IDLE_LOOP, (0, 0), r, false)
    ensures !Live(IDLE_LOOP, (0, 0), AnyUse) && Verdict(r) == Some(LivenessUnproven)
  {
    IdleLoops();
    IdleIsNotLive();
    AcceptedIffLive(IDLE_LOOP, (0, 0), r);
    NotLiveIffNoUse(IDLE_LOOP, (0, 0), r);
  }
}
