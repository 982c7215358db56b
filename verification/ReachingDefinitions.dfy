/**
  The backward reaching-definition query for one local variable: which whole
  definitions reach a program point, and when the answer is a proof.
 */
module ReachingDefinitions {
  import opened Graphs
  import opened Worklist
  import opened Basics
  import opened Cfg
  import opened Traces

  /** What one microinstruction does to the variable. */
  datatype Fact = Fact(ea: Option<int>, whole: bool, overlapping: bool, use: bool)

  type Program = Graph<Fact>

  predicate Defines(f: Fact)
  {
    f.whole || f.overlapping
  }

  datatype Site = Site(block: int, index: int, ea: Option<int>)

  datatype Reason =
    | NoDefinition
    | AmbiguousDefinition
    | NotLive
    | LivenessUnproven
    | StorageClobbered
    | UnresolvedPoint

  datatype Result = Result(
    definitions: seq<Site>,
    unresolved: bool,
    overlapping: bool,
    loop: bool,
    exhausted: bool,
    visited: nat)

  /** `_reaching_definition_rejection_reason`. */
  function Rejection(r: Result): (reason: Option<Reason>)
  {
    if r.overlapping then Some(AmbiguousDefinition)
    else if |r.definitions| == 0 then Some(NoDefinition)
    else if |r.definitions| > 1 then Some(AmbiguousDefinition)
    else if r.unresolved then Some(NoDefinition)
    else if r.loop || r.exhausted then Some(AmbiguousDefinition)
    else None
  }

  // ---------------------------------------------------------------- what one inspected state contributes

  ghost predicate Contributes(cfg: Program, s: State, site: Site)
  {
    && s.0 == site.block && FirstStop(cfg, Backward, Defines, s, site.index)
    && cfg[s.0].instructions[site.index].whole
    && site.ea == cfg[s.0].instructions[site.index].ea
  }

  ghost predicate MeetsOverlap(cfg: Program, s: State)
  {
    exists i :: FirstStop(cfg, Backward, Defines, s, i) && cfg[s.0].instructions[i].overlapping
  }

  ghost predicate Unresolved(cfg: Program, s: State)
  {
    || !Valid(cfg, s)
    || (Passes(cfg, Backward, Defines, false, s)
        && (cfg[s.0].predecessors == [] || exists p :: p in cfg[s.0].predecessors && p !in cfg))
  }

  ghost predicate Inspected(cfg: Program, start: State, s: State)
  {
    Inspects(cfg, Backward, Defines, false, start, s)
  }

  // ---------------------------------------------------------------- the definition table

  predicate Before(a: Site, b: Site)
  {
    a.block < b.block || (a.block == b.block && a.index < b.index)
  }

  predicate Sorted(sites: seq<Site>)
  {
    forall i, j :: 0 <= i < j < |sites| ==> Before(sites[i], sites[j])
  }

  /** Adds a site to the sorted table; a site with the same key is stored once. */
  method Insert(sites: seq<Site>, site: Site) returns (out: seq<Site>)
    requires Sorted(sites)
    requires forall t :: t in sites && t.block == site.block && t.index == site.index ==> t == site
    ensures Sorted(out)
    ensures forall t :: t in out <==> t in sites || t == site
  {
    var k := 0;
    while k < |sites| && Before(sites[k], site)
      invariant 0 <= k <= |sites|
      invariant forall i :: 0 <= i < k ==> Before(sites[i], site)
    {
      k := k + 1;
    }
    if k < |sites| && sites[k].block == site.block && sites[k].index == site.index {
      assert sites[k] in sites;
      return sites;
    }
    out := sites[..k] + [site] + sites[k..];
    InsertedSorted(sites, site, k);
  }

  lemma InsertedSorted(sites: seq<Site>, site: Site, k: nat)
    requires Sorted(sites) && k <= |sites| && (forall i :: 0 <= i < k ==> Before(sites[i], site))
    requires k < |sites| ==> Before(site, sites[k])
    ensures var out := sites[..k] + [site] + sites[k..];
            Sorted(out) && forall t :: t in out <==> t in sites || t == site
  {
    InsertedElements(sites[..k], site, sites[k..]);
    assert sites == sites[..k] + sites[k..];
    InsertionSorts(sites, site, k);
  }

  lemma InsertedElements(low: seq<Site>, site: Site, high: seq<Site>)
    ensures forall t :: t in low + [site] + high <==> t in low + high || t == site
  {
  }

  lemma InsertionSorts(sites: seq<Site>, site: Site, k: nat)
    requires Sorted(sites) && k <= |sites| && (forall i :: 0 <= i < k ==> Before(sites[i], site))
    requires k < |sites| ==> Before(site, sites[k])
    ensures Sorted(sites[..k] + [site] + sites[k..])
  {
    var out := sites[..k] + [site] + sites[k..];
    forall i, j | 0 <= i < j < |out|
      ensures Before(out[i], out[j])
    {
      assert out[i] == (if i < k then sites[i] else if i == k then site else sites[i - 1]);
      assert out[j] == (if j < k then sites[j] else if j == k then site else sites[j - 1]);
    }
  }

  // ---------------------------------------------------------------- the query

  /** The record of a set of inspected states. */
  ghost predicate Recorded(cfg: Program, states: set<State>, definitions: seq<Site>, unresolved: bool,
                           overlapping: bool)
  {
    && Sorted(definitions)
    && (forall site :: site in definitions <==> exists s :: s in states && Contributes(cfg, s, site))
    && (unresolved <==> exists s :: s in states && Unresolved(cfg, s))
    && (overlapping <==> exists s :: s in states && MeetsOverlap(cfg, s))
  }

  /** What the scan of one state says. */
  method InspectState(cfg: Program, s: State) returns (site: Option<Site>, unresolved: bool, overlapping: bool)
    ensures site.Some? ==> Contributes(cfg, s, site.value)
    ensures forall t :: Contributes(cfg, s, t) ==> site == Some(t)
    ensures unresolved <==> Unresolved(cfg, s)
    ensures overlapping <==> MeetsOverlap(cfg, s)
  {
    site, unresolved, overlapping := None, false, false;
    if !Valid(cfg, s) {
      return None, true, false;
    }
    var position := Scan(cfg, Backward, Defines, s);
    match position {
      case Some(i) =>
        var fact := cfg[s.0].instructions[i];
        overlapping := fact.overlapping;
        assert overlapping ==> FirstStop(cfg, Backward, Defines, s, i);
        if fact.whole {
          site := Some(Site(s.0, i, fact.ea));
        }
      case None =>
        unresolved := cfg[s.0].predecessors == [] || exists p :: p in cfg[s.0].predecessors && p !in cfg;
    }
  }

  method Record(cfg: Program, states: set<State>) returns (definitions: seq<Site>, unresolved: bool, overlapping: bool)
    ensures Recorded(cfg, states, definitions, unresolved, overlapping)
  {
    definitions, unresolved, overlapping := [], false, false;
    var todo := states;
    while todo != {}
      invariant todo <= states
      invariant Recorded(cfg, states - todo, definitions, unresolved, overlapping)
      decreases todo
    {
      var s := Pick(todo);
      var site, u, o := InspectState(cfg, s);
      ghost var done := states - todo;
      todo := todo - {s};
      assert states - todo == done + {s};
      if site.Some? {
        definitions := Insert(definitions, site.value);
      }
      unresolved, overlapping := unresolved || u, overlapping || o;
    }
    assert states - todo == states;
  }

  /** The answer of the query, stated over every state it can inspect. */
  ghost predicate Answer(cfg: Program, start: State, r: Result)
  {
    && Sorted(r.definitions)
    && (forall site :: site in r.definitions ==> exists s :: Inspected(cfg, start, s) && Contributes(cfg, s, site))
    && (!r.exhausted ==>
          && (forall s, site :: Inspected(cfg, start, s) && Contributes(cfg, s, site) ==> site in r.definitions)
          && (r.unresolved <==> exists s :: Inspected(cfg, start, s) && Unresolved(cfg, s))
          && (r.overlapping <==> exists s :: Inspected(cfg, start, s) && MeetsOverlap(cfg, s))
          && (r.loop <==> Loops(cfg, Backward, Defines, false, start)))
  }

  /** The result is the record of the `seen` states, as many as it says, all of them states the query can inspect. */
  ghost predicate RecordOf(cfg: Program, start: State, r: Result, seen: set<State>)
  {
    && |seen| == r.visited && (forall s :: s in seen ==> Inspected(cfg, start, s))
    && Recorded(cfg, seen, r.definitions, r.unresolved, r.overlapping)
  }

  /** `_find_reaching_definitions`: a search that is not complete has at least used up its budget. */
  method FindReachingDefinitions(cfg: Program, block: int, boundary: int, maxStates: Option<int>) returns (r: Result)
    ensures Answer(cfg, (block, boundary), r)
    ensures r.visited <= |cfg.Keys| + 1
    ensures exists seen :: RecordOf(cfg, (block, boundary), r, seen)
    ensures r.exhausted ==> maxStates.Some? && maxStates.value <= r.visited <= |cfg.Keys|
  {
    var budget := if maxStates.Some? then maxStates.value else DefaultBudget(cfg);
    var visited, edges, exhausted := Explore(cfg, Backward, Defines, false, (block, boundary), budget);
    var definitions, unresolved, overlapping := Record(cfg, visited);
    var loop := GraphHasCycle(edges);
    r := Result(definitions, unresolved, overlapping, loop, exhausted, |visited|);
    assert RecordOf(cfg, (block, boundary), r, visited);
  }

  // ---------------------------------------------------------------- what the answer means

  /** `e` runs from just after `site` to `start` without another definition. */
  ghost predicate Carries(cfg: Program, site: Site, start: State, e: seq<State>)
  {
    ClearRun(cfg, Backward, Defines, (site.block, site.index + 1), start, e)
  }

  /** The instruction at `site` is a whole definition and some execution carries it to `start` undisturbed. */
  ghost predicate ReachesUndisturbed(cfg: Program, start: State, site: Site)
  {
    && site.block in cfg && 0 <= site.index < |cfg[site.block].instructions|
    && cfg[site.block].instructions[site.index].whole
    && site.ea == cfg[site.block].instructions[site.index].ea
    && exists e :: Carries(cfg, site, start, e)
  }

  lemma ContributedSiteReaches(cfg: Program, start: State, s: State, site: Site)
    requires Valid(cfg, start) && Inspected(cfg, start, s) && Contributes(cfg, s, site)
    ensures ReachesUndisturbed(cfg, start, site)
  {
    var f := InspectedBackward(cfg, Defines, false, start, s);
    var a := (site.block, site.index + 1);
    var e := StraightLine(cfg, Backward, Defines, s.0, a.1, s.1);
    ClearJoin(cfg, Backward, Defines, a, s, start, e, f);
    assert Carries(cfg, site, start, e + f[1..]);
  }

  /** Even a search that the budget cuts short reports only definitions that do reach. */
  lemma ReportedSitesReach(cfg: Program, start: State, r: Result, site: Site)
    requires Answer(cfg, start, r) && Valid(cfg, start) && site in r.definitions
    ensures ReachesUndisturbed(cfg, start, site)
  {
    var s :| Inspected(cfg, start, s) && Contributes(cfg, s, site);
    ContributedSiteReaches(cfg, start, s, site);
  }

  /** A site is reported exactly when it reaches the point along code free of definitions. */
  lemma SiteReportedIffItReaches(cfg: Program, start: State, r: Result, site: Site)
    requires Answer(cfg, start, r) && !r.exhausted && Valid(cfg, start)
    ensures site in r.definitions <==> ReachesUndisturbed(cfg, start, site)
  {
    if site in r.definitions {
      ReportedSitesReach(cfg, start, r, site);
    } else if ReachesUndisturbed(cfg, start, site) {
      var e :| Carries(cfg, site, start, e);
      var limit := ClearRunIsInspected(cfg, Defines, start, (site.block, site.index + 1), e);
      assert Inspected(cfg, start, (site.block, limit)) && Contributes(cfg, (site.block, limit), site);
      assert false;
    }
  }

  /** Step `j` of the execution executes `site`, wholly defines the variable, and no later step defines it. */
  ghost predicate LastDefinition(cfg: Program, e: seq<State>, j: int, site: Site)
  {
    && 0 <= j < |e| - 1 && Executes(cfg, e[j], e[j + 1]) && e[j] == (site.block, site.index)
    && cfg[site.block].instructions[site.index].whole && !cfg[site.block].instructions[site.index].overlapping
    && forall i :: j < i < |e| - 1 ==> !StopsAt(cfg, Defines, e, i)
  }

  ghost predicate Accepted(cfg: Program, start: State, r: Result)
  {
    Answer(cfg, start, r) && Valid(cfg, start) && Rejection(r).None?
  }

  /** After acceptance, an execution that defines the variable at all has the reported site as its last definition. */
  lemma AcceptedIsLastDefinition(cfg: Program, start: State, r: Result, e: seq<State>) returns (j: int)
    requires Accepted(cfg, start, r)
    requires Execution(cfg, Backward, e) && e[|e| - 1] == start
    ensures j == -1 ==> ClearRun(cfg, Backward, Defines, e[0], start, e)
    ensures j != -1 ==> LastDefinition(cfg, e, j, r.definitions[0])
  {
    ReachesSelf(StateGraph(cfg, Backward, Defines, false, start), start);
    var limit: int;
    j, limit := BackwardTrace(cfg, Defines, false, start, e, start.1);
    if j >= 0 {
      var s, i := (e[j].0, limit), e[j].1;
      assert Inspected(cfg, start, s) && FirstStop(cfg, Backward, Defines, s, i);
      assert !MeetsOverlap(cfg, s);
      var site := Site(s.0, i, cfg[s.0].instructions[i].ea);
      assert Contributes(cfg, s, site);
      assert site in r.definitions;
    }
  }

  /**
    The recovery guarantee: on a reciprocal graph every execution that enters at a
    block without predecessors arrives with the accepted site as its last definition.
   */
  lemma EveryEntryPathIsDefined(cfg: Program, start: State, r: Result, e: seq<State>) returns (j: int)
    requires Accepted(cfg, start, r) && Reciprocal(cfg)
    requires Execution(cfg, Forward, e) && e[|e| - 1] == start
    requires e[0].1 == 0 && cfg[e[0].0].predecessors == []
    ensures LastDefinition(cfg, e, j, r.definitions[0])
  {
    ReciprocalExecution(cfg, e);
    j := AcceptedIsLastDefinition(cfg, start, r, e);
    if j == -1 {
      var limit := ClearRunIsInspected(cfg, Defines, start, e[0], e);
      assert Inspected(cfg, start, (e[0].0, limit)) && Unresolved(cfg, (e[0].0, limit));
    }
  }

  /** `values[k]` is the variable before step `k`: only an instruction that defines it changes it. */
  ghost predicate Holds(cfg: Program, e: seq<State>, values: seq<int>)
  {
    |values| == |e| && forall k :: 0 <= k < |e| - 1 && !StopsAt(cfg, Defines, e, k) ==> values[k + 1] == values[k]
  }

  lemma {:induction false} ClearKeepsValue(cfg: Program, e: seq<State>, values: seq<int>, j: nat, k: nat)
    requires Holds(cfg, e, values) && j <= k < |e| && forall i :: j <= i < |e| - 1 ==> !StopsAt(cfg, Defines, e, i)
    ensures values[k] == values[j]
    decreases k
  {
    if j < k {
      ClearKeepsValue(cfg, e, values, j, k - 1);
    }
  }

  /** The execution starts in a block without predecessors, or defines the variable on its way. */
  ghost predicate EntersOrDefines(cfg: Program, e: seq<State>)
  {
    |e| > 0 && e[0].0 in cfg &&
    ((e[0].1 == 0 && cfg[e[0].0].predecessors == []) || exists k :: 0 <= k < |e| - 1 && StopsAt(cfg, Defines, e, k))
  }

  /** After acceptance the variable holds what the reported site stored when it was executed last. */
  lemma AcceptedValueIsTheDefinedOne(cfg: Program, start: State, r: Result, e: seq<State>, values: seq<int>)
    returns (j: int)
    requires Accepted(cfg, start, r) && Reciprocal(cfg)
    requires Execution(cfg, Forward, e) && e[|e| - 1] == start && EntersOrDefines(cfg, e) && Holds(cfg, e, values)
    ensures LastDefinition(cfg, e, j, r.definitions[0]) && values[|e| - 1] == values[j + 1]
  {
    j := EnteredOrDefined(cfg, start, r, e);
    ClearKeepsValue(cfg, e, values, j + 1, |e| - 1);
  }

  lemma EnteredOrDefined(cfg: Program, start: State, r: Result, e: seq<State>) returns (j: int)
    requires Accepted(cfg, start, r) && Reciprocal(cfg)
    requires Execution(cfg, Forward, e) && e[|e| - 1] == start && EntersOrDefines(cfg, e)
    ensures LastDefinition(cfg, e, j, r.definitions[0])
  {
    if e[0].1 == 0 && cfg[e[0].0].predecessors == [] {
      j := EveryEntryPathIsDefined(cfg, start, r, e);
    } else {
      ReciprocalExecution(cfg, e);
      j := AcceptedIsLastDefinition(cfg, start, r, e);
    }
  }

  /** Block `entry` is entered at its top and the point is reached from there through definition-free code. */
  ghost predicate EntryExposed(cfg: Program, start: State, entry: int)
  {
    exists limit :: Inspected(cfg, start, (entry, limit)) && Passes(cfg, Backward, Defines, false, (entry, limit))
  }

  /** Every execution from the top of `entry` to the point has the site as its last definition. */
  ghost predicate DefinedFrom(cfg: Program, start: State, entry: int, site: Site)
  {
    forall e :: Execution(cfg, Backward, e) && e[0] == (entry, 0) && e[|e| - 1] == start
      ==> exists j :: LastDefinition(cfg, e, j, site)
  }

  /**
    An accepted answer covers executions from a given entry block exactly when no
    inspected state scans that block to its top; having no predecessors is enough.
   */
  lemma EntryIsCoveredIffNotExposed(cfg: Program, start: State, r: Result, entry: int)
    requires Accepted(cfg, start, r) && entry in cfg
    ensures DefinedFrom(cfg, start, entry, r.definitions[0]) <==> !EntryExposed(cfg, start, entry)
    ensures cfg[entry].predecessors == [] ==> !EntryExposed(cfg, start, entry)
  {
    if EntryExposed(cfg, start, entry) {
      var limit :| Inspected(cfg, start, (entry, limit)) && Passes(cfg, Backward, Defines, false, (entry, limit));
      var f := InspectedBackward(cfg, Defines, false, start, (entry, limit));
      var h := StraightLine(cfg, Backward, Defines, entry, 0, limit);
      ClearJoin(cfg, Backward, Defines, (entry, 0), (entry, limit), start, h, f);
      var e := h + f[1..];
      forall j | LastDefinition(cfg, e, j, r.definitions[0])
        ensures false
      {
        assert StopsAt(cfg, Defines, e, j);
      }
      assert cfg[entry].predecessors == [] ==> Unresolved(cfg, (entry, limit));
    } else {
      forall e | Execution(cfg, Backward, e) && e[0] == (entry, 0) && e[|e| - 1] == start
        ensures exists j :: LastDefinition(cfg, e, j, r.definitions[0])
      {
        var j := AcceptedIsLastDefinition(cfg, start, r, e);
        if j == -1 {
          var limit := ClearRunIsInspected(cfg, Defines, start, e[0], e);
          assert Passes(cfg, Backward, Defines, false, (entry, limit));
        }
      }
    }
  }

  /** After acceptance no definition-free backward walk has more than one state per block plus the first. */
  lemma AcceptedWalksAreShort(cfg: Program, start: State, r: Result, p: seq<State>)
    requires Accepted(cfg, start, r)
    requires Walk(StateGraph(cfg, Backward, Defines, false, start), p) && p[0] == start
    ensures |p| <= |cfg.Keys| + 1
  {
    var g := StateGraph(cfg, Backward, Defines, false, start);
    forall k | 0 <= k < |p|
      ensures p[k] in g.Keys
    {
      WalkStaysInside(g, g.Keys, p, k);
    }
    VisitedBound(cfg, Backward, start, g.Keys);
    if |p| > |cfg.Keys| + 1 {
      LongWalkLoops(g, start, p);
      assert false;
    }
  }

  lemma LongWalkLoops(g: Edges, start: State, p: seq<State>)
    requires Walk(g, p) && p[0] == start && |p| > |g.Keys| && forall k :: 0 <= k < |p| ==> p[k] in g.Keys
    ensures CyclicFrom(g, start)
  {
    var i, j := Pigeonhole(p, g.Keys);
    assert Cycle(g, p[i..j + 1]);
    assert WalkFromTo(g, start, p[i], p[..i + 1]);
  }

  // ---------------------------------------------------------------- an entry block that is also a loop head

  /** Block 0 is the entry and the head of a loop; block 1 is its body and defines the variable. */
  function LoopHeadProgram(): Program
  {
    map[0 := Block([Fact(Some(16), false, false, false)], [1], [1]),
        1 := Block([Fact(Some(17), true, false, false)], [0], [0])]
  }

  function LoopHeadAnswer(): Result
  {
    Result([Site(1, 0, Some(17))], false, false, false, false, 2)
  }

  lemma LoopHeadStates(s: State)
    ensures Inspected(LoopHeadProgram(), (0, 1), s) <==> s == (0, 1) || s == (1, 1)
    ensures Next(LoopHeadProgram(), Backward, Defines, false, (0, 1)) == {(1, 1)}
    ensures FirstStop(LoopHeadProgram(), Backward, Defines, (1, 1), 0)
    ensures Next(LoopHeadProgram(), Backward, Defines, false, (1, 1)) == {}
  {
    var cfg, start := LoopHeadProgram(), (0, 1);
    assert Passes(cfg, Backward, Defines, false, start);
    assert EntryState(cfg, Backward, 1) == (1, 1) && EntryState(cfg, Backward, 0) == start;
    assert FirstStop(cfg, Backward, Defines, (1, 1), 0);
    assert !Passes(cfg, Backward, Defines, false, (1, 1)) by {
      assert Scanned(cfg, Backward, (1, 1), 0);
    }
    ReachesSelf(StateGraph(cfg, Backward, Defines, false, start), start);
    InspectsNext(cfg, Backward, Defines, false, start, start, 1);
    if Inspected(cfg, start, s) {
      InspectedInUniverse(cfg, Backward, Defines, false, start, s);
    }
  }

  lemma LoopHeadHasNoSearchCycle()
    ensures !Loops(LoopHeadProgram(), Backward, Defines, false, (0, 1))
  {
    var g := StateGraph(LoopHeadProgram(), Backward, Defines, false, (0, 1));
    LoopHeadStates((0, 1));
    assert Universe(LoopHeadProgram(), Backward, (0, 1)) == {(0, 1), (1, 1)};
    RankedGraphIsAcyclic(g, map[(0, 1) := 0, (1, 1) := 1]);
  }

  lemma LoopHeadIsAccepted()
    ensures Accepted(LoopHeadProgram(), (0, 1), LoopHeadAnswer())
  {
    var cfg, start, r := LoopHeadProgram(), (0, 1), LoopHeadAnswer();
    LoopHeadHasNoSearchCycle();
    LoopHeadStates(start);
    forall s | Inspected(cfg, start, s)
      ensures s == (0, 1) || s == (1, 1)
    {
      LoopHeadStates(s);
    }
    LoopHeadStates((1, 1));
    assert Contributes(cfg, (1, 1), r.definitions[0]);
  }

  lemma LoopHeadIsExposed()
    ensures EntryExposed(LoopHeadProgram(), (0, 1), 0)
  {
    LoopHeadStates((0, 1));
    assert Inspected(LoopHeadProgram(), (0, 1), (0, 1)) && Passes(LoopHeadProgram(), Backward, Defines, false, (0, 1));
  }

  lemma ExposedEntryIsMissed(cfg: Program, start: State, r: Result, entry: int)
    requires Accepted(cfg, start, r) && EntryExposed(cfg, start, entry)
    ensures !DefinedFrom(cfg, start, entry, r.definitions[0])
  {
    EntryIsCoveredIffNotExposed(cfg, start, r, entry);
  }

  /** The query accepts at the loop head although the first pass through it has defined nothing yet. */
  lemma LoopHeadEntryIsMissed()
    ensures exists cfg, start, r, entry ::
              Accepted(cfg, start, r) && EntryExposed(cfg, start, entry)
                && !DefinedFrom(cfg, start, entry, r.definitions[0])
  {
    LoopHeadIsAccepted();
    LoopHeadIsExposed();
    ExposedEntryIsMissed(LoopHeadProgram(), (0, 1), LoopHeadAnswer(), 0);
  }
}
