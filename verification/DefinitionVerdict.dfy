/**
  When a complete reaching-definition answer is accepted, in terms of executions alone:
  one whole definition arrives, nothing else does, and no execution goes round.
 */
module DefinitionVerdict {
  import opened Graphs
  import opened Worklist
  import opened Cfg
  import opened Traces
  import opened ReachingDefinitions

  /** Whatever instruction defines the variable last on an execution into the point defines it as a whole. */
  ghost predicate NothingPartialArrives(cfg: Program, start: State)
  {
    forall e: seq<State>, j: int :: ArrivesFrom(cfg, Defines, start, e, j) ==>
      !cfg[e[j].0].instructions[e[j].1].overlapping
  }

  /** No execution enters the function and arrives without a definition. */
  ghost predicate NothingUndefinedArrives(cfg: Program, start: State)
  {
    forall a: State, e: seq<State> :: ClearRun(cfg, Backward, Defines, a, start, e) ==> !(a.1 == 0 && Enters(cfg, a.0))
  }

  /** The site is the only definition that arrives, on every execution there is. */
  ghost predicate DefinesAlone(cfg: Program, start: State, site: Site)
  {
    && OnlySite(cfg, start, site) && NothingPartialArrives(cfg, start) && NothingUndefinedArrives(cfg, start)
    && !Revolves(cfg, Defines, start)
  }

  /** The site's definition arrives, and no other whole one. */
  ghost predicate OnlySite(cfg: Program, start: State, site: Site)
  {
    ReachesUndisturbed(cfg, start, site) && forall other :: ReachesUndisturbed(cfg, start, other) ==> other == site
  }

  /** An execution that stops at instruction `i` of the inspected state's block and then runs clear to the point. */
  lemma StopsAndArrives(cfg: Program, start: State, s: State, i: int) returns (e: seq<State>)
    requires Valid(cfg, start) && Inspected(cfg, start, s) && FirstStop(cfg, Backward, Defines, s, i)
    ensures ArrivesFrom(cfg, Defines, start, e, 0) && e[0] == (s.0, i)
  {
    var f := InspectedBackward(cfg, Defines, false, start, s);
    var h := StraightLine(cfg, Backward, Defines, s.0, i + 1, s.1);
    ClearJoin(cfg, Backward, Defines, (s.0, i + 1), s, start, h, f);
    var tail := h + f[1..];
    e := [(s.0, i)] + tail;
    forall k | 0 <= k < |e| - 1
      ensures Step(cfg, Backward, e[k], e[k + 1]) && (k > 0 ==> !StopsAt(cfg, Defines, e, k))
    {
      if k > 0 {
        assert e[k] == tail[k - 1] && e[k + 1] == tail[k] && !StopsAt(cfg, Defines, tail, k - 1);
      }
    }
  }

  lemma PartialIffOverlap(cfg: Program, start: State)
    requires Valid(cfg, start)
    ensures NothingPartialArrives(cfg, start) <==> !exists s :: Inspected(cfg, start, s) && MeetsOverlap(cfg, s)
  {
    if s :| Inspected(cfg, start, s) && MeetsOverlap(cfg, s) {
      var i :| FirstStop(cfg, Backward, Defines, s, i) && cfg[s.0].instructions[i].overlapping;
      var e := StopsAndArrives(cfg, start, s, i);
    } else {
      forall e: seq<State>, j: int | ArrivesFrom(cfg, Defines, start, e, j)
        ensures !cfg[e[j].0].instructions[e[j].1].overlapping
      {
        ReachesSelf(StateGraph(cfg, Backward, Defines, false, start), start);
        var k, limit := BackwardTrace(cfg, Defines, false, start, e, start.1);
        assert k == j;
        assert !MeetsOverlap(cfg, (e[j].0, limit));
      }
    }
  }

  lemma UndefinedIffUnresolved(cfg: Program, start: State)
    requires Valid(cfg, start)
    ensures NothingUndefinedArrives(cfg, start) <==> !exists s :: Inspected(cfg, start, s) && Unresolved(cfg, s)
  {
    if s :| Inspected(cfg, start, s) && Unresolved(cfg, s) {
      InspectedInUniverse(cfg, Backward, Defines, false, start, s);
      var f := InspectedBackward(cfg, Defines, false, start, s);
      var h := StraightLine(cfg, Backward, Defines, s.0, 0, s.1);
      ClearJoin(cfg, Backward, Defines, (s.0, 0), s, start, h, f);
    } else {
      forall a: State, e: seq<State> | ClearRun(cfg, Backward, Defines, a, start, e)
        ensures !(a.1 == 0 && Enters(cfg, a.0))
      {
        var limit := ClearRunIsCovered(cfg, Defines, false, start, a, e);
        assert !Unresolved(cfg, (a.0, limit));
      }
    }
  }

  /** One site is reported exactly if one site arrives. */
  lemma OneSiteIff(cfg: Program, start: State, r: Result)
    requires Answer(cfg, start, r) && !r.exhausted && Valid(cfg, start)
    ensures |r.definitions| == 1 <==> exists site :: OnlySite(cfg, start, site)
  {
    forall site ensures site in r.definitions <==> ReachesUndisturbed(cfg, start, site) {
      SiteReportedIffItReaches(cfg, start, r, site);
    }
    if |r.definitions| == 1 {
      assert r.definitions[0] in r.definitions && OnlySite(cfg, start, r.definitions[0]);
    } else if |r.definitions| > 1 {
      assert Before(r.definitions[0], r.definitions[1]);
      assert r.definitions[0] in r.definitions && r.definitions[1] in r.definitions;
    }
  }

  /** A complete answer is accepted exactly if one site defines the variable alone. */
  lemma AcceptedIffDefinedAlone(cfg: Program, start: State, r: Result)
    requires Answer(cfg, start, r) && !r.exhausted && Valid(cfg, start)
    ensures Rejection(r).None? <==> exists site :: DefinesAlone(cfg, start, site)
  {
    OneSiteIff(cfg, start, r);
    PartialIffOverlap(cfg, start);
    UndefinedIffUnresolved(cfg, start);
    LoopsIffRevolves(cfg, Defines, false, start);
    if Rejection(r).None? {
      var site :| OnlySite(cfg, start, site);
      assert DefinesAlone(cfg, start, site);
    }
  }
}
