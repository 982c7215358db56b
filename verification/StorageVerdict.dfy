/**
  When the native walk finds a register storage intact, in terms of executions and of
  what instructions can do to the number that is shown.
 */
module StorageVerdict {
  import opened Graphs
  import opened Worklist
  import opened Cfg
  import opened Traces
  import opened Bits
  import opened RegisterSurvival

  // ---------------------------------------------------------------- one instruction

  /** Some execution of the instruction changes the number that is shown. */
  ghost predicate CanChange(q: Query, f: Instruction)
  {
    exists before, after :: Effect(f, before, after) && Displayed(q, before) != Displayed(q, after)
  }

  /** One write of the instruction holds every bit of the storage. */
  ghost predicate WritesEveryBit(q: Query, f: Instruction)
  {
    f.known && exists w :: w in f.writes && w.full == q.spec.full && HoldsWindow(w, q)
  }

  ghost predicate HoldsWindow(w: RegisterWrite, q: Query)
  {
    forall i: nat :: q.spec.offset <= i < q.spec.offset + 8 * q.width ==> InWrite(w, i)
  }

  predicate InWrite(w: RegisterWrite, i: nat)
  {
    w.offset <= i < w.offset + w.size
  }

  /** Storage and writes are not empty. */
  ghost predicate Proper(q: Query, f: Instruction)
  {
    q.width > 0 && forall w :: w in f.writes ==> w.size > 0
  }

  lemma {:induction false} BitOfPow2(n: nat, i: nat)
    ensures Bit(Pow2(n), i) <==> i == n
    decreases n
  {
    if n == 0 {
      if i > 0 {
        ZeroHasNoBits(i - 1);
      }
    } else {
      assert Pow2(n) / 2 == Pow2(n - 1);
      if i > 0 {
        BitOfPow2(n - 1, i - 1);
      }
    }
  }

  /** An instruction that may set bit `i` of the window can change the number. */
  lemma SetsBit(q: Query, f: Instruction, i: nat)
    requires q.spec.offset <= i < q.spec.offset + 8 * q.width
    requires f.known && !f.isCall ==> exists w :: w in f.writes && w.full == q.spec.full && InWrite(w, i)
    ensures CanChange(q, f)
  {
    var before: Registers := (r: string) => 0;
    var after: Registers := (r: string) => if r == q.spec.full then Pow2(i) else 0;
    forall r, k: nat | f.known && !f.isCall
                       && forall w :: w in f.writes && w.full == r ==> !(w.offset <= k < w.offset + w.size)
      ensures Bit(after(r), k) == Bit(before(r), k)
    {
      BitOfPow2(i, k);
      ZeroHasNoBits(k);
    }
    assert Effect(f, before, after);
    SetBitShows(i, q.spec.offset, q.width);
  }

  /** A bit of the window shows. */
  lemma SetBitShows(i: nat, offset: nat, width: nat)
    requires offset <= i < offset + 8 * width
    ensures Extract(Pow2(i), offset, width) != Extract(0, offset, width)
  {
    BitOfPow2(i, i);
    ZeroHasNoBits(i);
    ExtractIsWindow(Pow2(i), offset, width);
    ExtractIsWindow(0, offset, width);
    assert Bit(Extract(Pow2(i), offset, width), i - offset) != Bit(Extract(0, offset, width), i - offset);
  }

  /** The walk objects to an instruction exactly if it can change the number that is shown. */
  lemma DisturbsIffItCanChange(q: Query, f: Instruction)
    requires Proper(q, f)
    ensures Disturbs(q, f) <==> CanChange(q, f)
  {
    if CanChange(q, f) && !Disturbs(q, f) {
      var before, after :| Effect(f, before, after) && Displayed(q, before) != Displayed(q, after);
      UndisturbedStep(q, f, before, after);
      assert false;
    }
    if Disturbs(q, f) {
      if f.known && !f.isCall {
        var w :| w in f.writes && w.full == q.spec.full && w.Overlaps(q.spec, q.width);
        var i := if w.offset < q.spec.offset then q.spec.offset else w.offset;
        assert InWrite(w, i);
        SetsBit(q, f, i);
      } else {
        SetsBit(q, f, q.spec.offset);
      }
    }
  }

  lemma CoversIffItHolds(w: RegisterWrite, q: Query)
    requires q.width > 0
    ensures w.Covers(q.spec, q.width) <==> HoldsWindow(w, q)
  {
    if HoldsWindow(w, q) {
      assert InWrite(w, q.spec.offset);
      assert InWrite(w, q.spec.offset + 8 * q.width - 1);
    }
  }

  /** The definition is good enough exactly if one of its writes holds every bit. */
  lemma WritesAllIff(q: Query, f: Instruction)
    requires q.width > 0
    ensures WritesAll(q, f) <==> WritesEveryBit(q, f)
  {
    forall w | w in f.writes ensures w.Covers(q.spec, q.width) <==> HoldsWindow(w, q) {
      CoversIffItHolds(w, q);
    }
  }

  // ---------------------------------------------------------------- all executions

  /** The walk's objects, by what they can do. */
  ghost function Relevant(q: Query): Instruction -> bool
  {
    (f: Instruction) => f.ea == q.definition || CanChange(q, f)
  }

  /** Two ways to stop that agree on all instructions of the function. */
  ghost predicate StopsAlike(cfg: Native, stop: Instruction -> bool, other: Instruction -> bool)
  {
    forall b, i :: AlikeAt(cfg, stop, other, b, i)
  }

  predicate AlikeAt(cfg: Native, stop: Instruction -> bool, other: Instruction -> bool, b: int, i: int)
  {
    b in cfg && 0 <= i < |cfg[b].instructions| ==> stop(cfg[b].instructions[i]) == other(cfg[b].instructions[i])
  }

  /** `e` leads from behind the instruction at `d` to the point without a stop. */
  ghost predicate RunsBehind(cfg: Native, stop: Instruction -> bool, d: State, c: State, e: seq<State>)
  {
    ClearRun(cfg, Backward, stop, (d.0, d.1 + 1), c, e)
  }

  /**
    An execution of the definition arrives, and whatever last can matter on an execution
    that arrives is the definition.
   */
  ghost predicate OnlyTheDefinitionArrives(cfg: Native, stop: Instruction -> bool, d: State, c: State)
  {
    && (exists e :: RunsBehind(cfg, stop, d, c, e))
    && (forall e: seq<State>, j: int :: ArrivesFrom(cfg, stop, c, e, j) ==> e[j] == d)
  }

  /** No execution enters the function, or comes through an empty block, and arrives without anything that matters. */
  ghost predicate NothingElseArrives(cfg: Native, stop: Instruction -> bool, c: State)
  {
    forall a: State, e: seq<State> :: ClearRun(cfg, Backward, stop, a, c, e) ==>
      cfg[a.0].instructions != [] && !(a.1 == 0 && Enters(cfg, a.0))
  }

  ghost predicate ArrivesAlone(cfg: Native, stop: Instruction -> bool, d: State, c: State)
  {
    OnlyTheDefinitionArrives(cfg, stop, d, c) && NothingElseArrives(cfg, stop, c) && !Revolves(cfg, stop, c)
  }

  /** Both addresses are single points, and the definition does not stand behind the current one in its block. */
  ghost predicate Points(cfg: Native, q: Query, d: State, c: State)
  {
    OnlyAt(cfg, q.definition, d) && OnlyAt(cfg, q.current, c) && !(d.0 == c.0 && d.1 >= c.1)
  }

  /** An execution that stops at instruction `i` of the inspected state's block and then runs clear to the point. */
  lemma StopsAndArrives(cfg: Native, q: Query, c: State, s: State, i: int) returns (e: seq<State>)
    requires Valid(cfg, c) && Inspected(cfg, q, c, s) && FirstStop(cfg, Backward, Stop(q), s, i)
    ensures ArrivesFrom(cfg, Stop(q), c, e, 0) && e[0] == (s.0, i)
    ensures |e| > 1 && RunsBehind(cfg, Stop(q), (s.0, i), c, e[1..])
  {
    var f := InspectedBackward(cfg, Stop(q), true, c, s);
    var h := StraightLine(cfg, Backward, Stop(q), s.0, i + 1, s.1);
    ClearJoin(cfg, Backward, Stop(q), (s.0, i + 1), s, c, h, f);
    var tail := h + f[1..];
    e := [(s.0, i)] + tail;
    assert e[1..] == tail;
    forall k | 0 <= k < |e| - 1
      ensures Step(cfg, Backward, e[k], e[k + 1]) && (k > 0 ==> !StopsAt(cfg, Stop(q), e, k))
    {
      if k > 0 {
        assert e[k] == tail[k - 1] && e[k + 1] == tail[k] && !StopsAt(cfg, Stop(q), tail, k - 1);
      }
    }
  }

  lemma SurvivorArrives(cfg: Native, q: Query, d: State, c: State)
    requires Survives(cfg, q, d, c)
    ensures WritesAll(q, cfg[d.0].instructions[d.1]) && OnlyTheDefinitionArrives(cfg, Stop(q), d, c)
  {
    var s :| Inspected(cfg, q, c, s) && Finds(cfg, q, s, Defined);
    var i :| FirstStop(cfg, Backward, Stop(q), s, i) && Defined == AtStop(q, cfg[s.0].instructions[i]);
    assert At(cfg, q.definition, (s.0, i));
    var run := StopsAndArrives(cfg, q, c, s, i);
    assert RunsBehind(cfg, Stop(q), d, c, run[1..]);
    forall e: seq<State>, j: int | ArrivesFrom(cfg, Stop(q), c, e, j) ensures e[j] == d {
      OnlyDefinitionStops(cfg, q, d, c, e, j);
    }
  }

  lemma OnlyDefinitionStops(cfg: Native, q: Query, d: State, c: State, e: seq<State>, j: int)
    requires Survives(cfg, q, d, c) && ArrivesFrom(cfg, Stop(q), c, e, j)
    ensures e[j] == d
  {
    SurvivorsHaveBodies(cfg, q, d, c);
    ReachesSelf(StateGraph(cfg, Backward, Stop(q), true, c), c);
    var k, limit := BackwardTrace(cfg, Stop(q), true, c, e, c.1);
    assert k == j;
    InspectedStop(cfg, q, d, c, (e[j].0, limit), e[j].1);
    assert At(cfg, q.definition, e[j]);
  }

  lemma SurvivorIsAlone(cfg: Native, q: Query, d: State, c: State)
    requires Survives(cfg, q, d, c)
    ensures NothingElseArrives(cfg, Stop(q), c) && !Revolves(cfg, Stop(q), c)
  {
    SurvivorsHaveBodies(cfg, q, d, c);
    LoopsIffRevolves(cfg, Stop(q), true, c);
    forall a: State, e: seq<State> | ClearRun(cfg, Backward, Stop(q), a, c, e)
      ensures cfg[a.0].instructions != [] && !(a.1 == 0 && Enters(cfg, a.0))
    {
      var limit := ClearRunIsCovered(cfg, Stop(q), true, c, a, e);
      assert Inspected(cfg, q, c, (a.0, limit));
      assert !Finds(cfg, q, (a.0, limit), Unresolved);
    }
  }

  lemma AloneHasBodies(cfg: Native, q: Query, c: State)
    requires Valid(cfg, c) && NothingElseArrives(cfg, Stop(q), c)
    ensures AllHaveBodies(cfg, Stop(q), c)
  {
    forall s | Inspects(cfg, Backward, Stop(q), true, c, s) && s.0 in cfg ensures cfg[s.0].instructions != [] {
      var e := InspectedBackward(cfg, Stop(q), true, c, s);
    }
  }

  /** Every inspected state finds the definition or passes on. */
  lemma AloneFinds(cfg: Native, q: Query, d: State, c: State, s: State, f: Finding)
    requires Points(cfg, q, d, c) && WritesAll(q, cfg[d.0].instructions[d.1]) && ArrivesAlone(cfg, Stop(q), d, c)
    requires Inspected(cfg, q, c, s) && Finds(cfg, q, s, f)
    ensures f == Defined || f == Continues
  {
    AloneHasBodies(cfg, q, c);
    InspectedInUniverse(cfg, Backward, Stop(q), true, c, s);
    if Passes(cfg, Backward, Stop(q), true, s) {
      var e := InspectedBackward(cfg, Stop(q), true, c, s);
      var h := StraightLine(cfg, Backward, Stop(q), s.0, 0, s.1);
      ClearJoin(cfg, Backward, Stop(q), (s.0, 0), s, c, h, e);
    } else {
      var i :| FirstStop(cfg, Backward, Stop(q), s, i) && f == AtStop(q, cfg[s.0].instructions[i]);
      var e := StopsAndArrives(cfg, q, c, s, i);
      assert e[0] == d;
    }
  }

  lemma AloneIsDefined(cfg: Native, q: Query, d: State, c: State)
    requires Points(cfg, q, d, c) && WritesAll(q, cfg[d.0].instructions[d.1]) && ArrivesAlone(cfg, Stop(q), d, c)
    ensures exists s :: Inspected(cfg, q, c, s) && Finds(cfg, q, s, Defined)
  {
    AloneHasBodies(cfg, q, c);
    var e :| RunsBehind(cfg, Stop(q), d, c, e);
    var limit := ClearRunIsCovered(cfg, Stop(q), true, c, (d.0, d.1 + 1), e);
    var s := (d.0, limit);
    assert FirstStop(cfg, Backward, Stop(q), s, d.1);
    assert Scanned(cfg, Backward, s, d.1);
    assert Finds(cfg, q, s, Defined);
  }

  lemma SurvivesIffAlone(cfg: Native, q: Query, d: State, c: State)
    ensures Survives(cfg, q, d, c) <==>
            Points(cfg, q, d, c) && WritesAll(q, cfg[d.0].instructions[d.1]) && ArrivesAlone(cfg, Stop(q), d, c)
  {
    if Survives(cfg, q, d, c) {
      SurvivorArrives(cfg, q, d, c);
      SurvivorIsAlone(cfg, q, d, c);
    } else if Points(cfg, q, d, c) && WritesAll(q, cfg[d.0].instructions[d.1]) && ArrivesAlone(cfg, Stop(q), d, c) {
      AloneHasBodies(cfg, q, c);
      LoopsIffRevolves(cfg, Stop(q), true, c);
      AloneIsDefined(cfg, q, d, c);
      forall s, f | Inspected(cfg, q, c, s) && Finds(cfg, q, s, f) ensures f == Defined || f == Continues {
        AloneFinds(cfg, q, d, c, s, f);
      }
    }
  }

  // ---------------------------------------------------------------- the same, by what instructions can do

  lemma SameRuns(cfg: Native, stop: Instruction -> bool, other: Instruction -> bool, a: State, b: State, e: seq<State>)
    requires StopsAlike(cfg, stop, other)
    ensures ClearRun(cfg, Backward, stop, a, b, e) == ClearRun(cfg, Backward, other, a, b, e)
    ensures forall i :: 0 <= i < |e| - 1 ==> StopsAt(cfg, stop, e, i) == StopsAt(cfg, other, e, i)
  {
    forall i | 0 <= i < |e| - 1 ensures StopsAt(cfg, stop, e, i) == StopsAt(cfg, other, e, i) {
      if Executes(cfg, e[i], e[i + 1]) {
        assert AlikeAt(cfg, stop, other, e[i].0, e[i].1);
      }
    }
  }

  lemma SameArrivals(cfg: Native, stop: Instruction -> bool, other: Instruction -> bool, d: State, c: State)
    requires StopsAlike(cfg, stop, other) && ArrivesAlone(cfg, stop, d, c)
    ensures ArrivesAlone(cfg, other, d, c)
  {
    var run :| RunsBehind(cfg, stop, d, c, run);
    SameRuns(cfg, stop, other, (d.0, d.1 + 1), c, run);
    assert RunsBehind(cfg, other, d, c, run);
    forall e: seq<State>, j: int | ArrivesFrom(cfg, other, c, e, j) ensures e[j] == d {
      SameRuns(cfg, stop, other, c, c, e);
      assert ArrivesFrom(cfg, stop, c, e, j);
    }
    forall a: State, e: seq<State> | ClearRun(cfg, Backward, other, a, c, e)
      ensures cfg[a.0].instructions != [] && !(a.1 == 0 && Enters(cfg, a.0))
    {
      SameRuns(cfg, stop, other, a, c, e);
    }
    if b, e, f :| Circles(cfg, other, c, b, e, f) {
      SameRuns(cfg, stop, other, EntryState(cfg, Backward, b), EntryState(cfg, Backward, b), e);
      SameRuns(cfg, stop, other, EntryState(cfg, Backward, b), c, f);
      assert Circles(cfg, stop, c, b, e, f);
    }
  }

  /**
    The verdict is exact. A storage is found intact if and only if both addresses are
    single points, the definition writes every bit, an execution of it arrives, and on
    every execution that arrives the last instruction that can change the number is the
    definition, with no way in or round without it.
   */
  lemma SurvivesIff(cfg: Native, q: Query, d: State, c: State)
    requires forall b, i :: b in cfg && 0 <= i < |cfg[b].instructions| ==> Proper(q, cfg[b].instructions[i])
    ensures Survives(cfg, q, d, c) <==>
            Points(cfg, q, d, c) && WritesEveryBit(q, cfg[d.0].instructions[d.1])
              && ArrivesAlone(cfg, Relevant(q), d, c)
  {
    SurvivesIffAlone(cfg, q, d, c);
    forall b, i ensures AlikeAt(cfg, Stop(q), Relevant(q), b, i) && AlikeAt(cfg, Relevant(q), Stop(q), b, i) {
      if b in cfg && 0 <= i < |cfg[b].instructions| {
        DisturbsIffItCanChange(q, cfg[b].instructions[i]);
      }
    }
    if Points(cfg, q, d, c) {
      assert Proper(q, cfg[d.0].instructions[d.1]);
      WritesAllIff(q, cfg[d.0].instructions[d.1]);
      if ArrivesAlone(cfg, Stop(q), d, c) {
        SameArrivals(cfg, Stop(q), Relevant(q), d, c);
      }
      if ArrivesAlone(cfg, Relevant(q), d, c) {
        SameArrivals(cfg, Relevant(q), Stop(q), d, c);
      }
    }
  }
}
