/** `AnalysisSelectionCache`, and the fairness of its rotation over whole runs. */
module SelectionCache {
  import opened Basics
  import opened Selection

  datatype Fingerprint = Fingerprint(index: int, name: string, typ: string, size: int, isArg: bool,
                                     argIndex: Option<int>, defea: string)

  datatype Key = Key(pcSeq: int, functionEa: int, currentEa: int, filter: string, watched: seq<int>,
                     variables: seq<Fingerprint>)

  datatype Call = Call(pcSeq: int, functionEa: int, currentEa: int, filter: string, variables: seq<Fingerprint>,
                       req: Request) {
    function CacheKey(): Key
    {
      Key(pcSeq, functionEa, currentEa, filter, req.watched, variables)
    }
  }

  datatype Cache = Cache(key: Option<Key>, indexes: set<int>, cursors: map<int, nat>) {
    function Cursor(functionEa: int): nat
    {
      if functionEa in cursors then cursors[functionEa] else 0
    }
  }

  /** The set is a choice that `Select` may make from this cursor. */
  ghost predicate Picks(req: Request, cursor: nat, selected: set<int>, next: nat)
  {
    exists picked: seq<int> ::
      && Chosen(req, picked) && selected == Elements(picked)
      && (Unfiltered(req) ==> SweepsSome(req, picked, cursor, next))
  }

  predicate Hit(cache: Cache, call: Call)
  {
    cache.key == Some(call.CacheKey())
  }

  /** A repeated question gets the same answer; a new one moves the cursor of its function and no other. */
  ghost predicate Answered(before: Cache, call: Call, selected: set<int>, after: Cache)
  {
    if Hit(before, call) then selected == before.indexes && after == before
    else
      && call.functionEa in after.cursors
      && after == Cache(Some(call.CacheKey()), selected,
                        before.cursors[call.functionEa := after.cursors[call.functionEa]])
      && Picks(call.req, before.Cursor(call.functionEa), selected, after.cursors[call.functionEa])
  }

  /** A stored answer is used only for the same number, function, PC, filter, watch list and variables. */
  lemma HitIsTheSameQuestion(before: Cache, asked: Call, selected: set<int>, after: Cache, call: Call)
    requires Answered(before, asked, selected, after) && !Hit(before, asked)
    ensures Hit(after, call) <==>
            && call.pcSeq == asked.pcSeq && call.functionEa == asked.functionEa && call.currentEa == asked.currentEa
            && call.filter == asked.filter && call.req.watched == asked.req.watched && call.variables == asked.variables
    ensures Hit(after, call) ==> after.indexes == selected
  {
  }

  function Invalidated(cache: Cache, clearCursors: bool): Cache
  {
    Cache(None, {}, if clearCursors then map[] else cache.cursors)
  }

  class AnalysisSelectionCache {
    var key: Option<Key>
    var indexes: set<int>
    var cursorByFunction: map<int, nat>

    ghost function Value(): Cache
      reads this
    {
      Cache(key, indexes, cursorByFunction)
    }

    constructor ()
      ensures Value() == Cache(None, {}, map[])
    {
      key, indexes, cursorByFunction := None, {}, map[];
    }

    method Invalidate(clearCursors: bool)
      modifies this
      ensures Value() == Invalidated(old(Value()), clearCursors)
    {
      key := None;
      indexes := {};
      if clearCursors {
        cursorByFunction := map[];
      }
    }

    method SelectFor(call: Call) returns (selected: set<int>)
      requires WellFormed(call.req)
      modifies this
      ensures Answered(old(Value()), call, selected, Value())
    {
      if key == Some(call.CacheKey()) {
        return indexes;
      }
      var cursor := if call.functionEa in cursorByFunction then cursorByFunction[call.functionEa] else 0;
      var picked, next := Select(call.req, cursor);
      cursorByFunction := cursorByFunction[call.functionEa := next];
      key := Some(call.CacheKey());
      selected := Elements(picked);
      indexes := selected;
      assert Picks(call.req, cursor, selected, next);
    }
  }

  // ---------------------------------------------------------------- whole runs

  datatype Event = Ask(call: Call, selected: set<int>) | Invalidate(clearCursors: bool)

  ghost predicate Step(before: Cache, ev: Event, after: Cache)
  {
    match ev
    case Ask(call, selected) => Answered(before, call, selected, after)
    case Invalidate(clearCursors) => after == Invalidated(before, clearCursors)
  }

  ghost predicate Run(states: seq<Cache>, events: seq<Event>)
  {
    && |states| == |events| + 1
    && forall i :: 0 <= i < |events| ==> Step(states[i], events[i], states[i + 1])
  }

  /** An uncached selection for the function. */
  predicate Uncached(before: Cache, ev: Event, functionEa: int)
  {
    ev.Ask? && ev.call.functionEa == functionEa && !Hit(before, ev.call)
  }

  /** The number of uncached selections for the function among the first `n` events. */
  function Turns(states: seq<Cache>, events: seq<Event>, functionEa: int, n: nat): nat
    requires |states| == |events| + 1 && n <= |events|
  {
    if n == 0 then 0
    else
      Turns(states, events, functionEa, n - 1)
      + (if Uncached(states[n - 1], events[n - 1], functionEa) then 1 else 0)
  }

  ghost predicate PickedBy(states: seq<Cache>, events: seq<Event>, functionEa: int, n: nat, x: int)
    requires |states| == |events| + 1 && n <= |events|
  {
    exists i :: 0 <= i < n && Uncached(states[i], events[i], functionEa) && x in events[i].selected
  }

  /** The same locals each time, all visible, at most `k` of them with priority, and the same budget. */
  ghost predicate SteadyRequest(req: Request, locals: seq<int>, budget: nat, k: nat)
  {
    && req.locals == locals && Budget(req) == budget && |Priority(req)| <= k
    && forall i :: i in locals ==> i in req.matching
  }

  ghost predicate Steady(states: seq<Cache>, events: seq<Event>, functionEa: int, locals: seq<int>, budget: nat, k: nat)
    requires |states| == |events| + 1
  {
    && (forall i :: 0 <= i < |events| ==> events[i] != Invalidate(true))
    && (forall i :: 0 <= i < |events| && Uncached(states[i], events[i], functionEa) ==>
       SteadyRequest(events[i].call.req, locals, budget, k))
  }

  predicate SamePlace(n: nat, cursor: nat, place: nat)
    requires n > 0
  {
    cursor % n == place % n
  }

  lemma CursorOn(n: nat, cursor: nat, next: nat, place: nat, count: nat)
    requires n > 0 && SamePlace(n, cursor, place) && next == (cursor % n + count) % n
    ensures SamePlace(n, next, place + count)
  {
    ModAdd(place, count, n);
    ModUnique(next, n, 0, next);
  }

  lemma PlaceOn(locals: seq<int>, cursor: nat, start: nat, total: nat, j: nat)
    requires locals != [] && SamePlace(|locals|, cursor, start + total)
    ensures Place(locals, cursor % |locals|, j) == Place(locals, start, total + j)
  {
    ModAdd(start + total, j, |locals|);
  }

  /** Enough places were swept for this many turns, or all of them. */
  predicate Enough(total: nat, turns: nat, gain: nat, n: nat)
  {
    total >= turns * gain || total >= n
  }

  lemma EnoughGrows(total: nat, turns: nat, gain: nat, n: nat, count: nat)
    requires Enough(total, turns, gain, n) && (count == n || count >= gain)
    ensures Enough(total + count, turns + 1, gain, n)
  {
    assert (turns + 1) * gain == turns * gain + gain;
  }

  /** The first `total` places from `start` on were picked by one of the first `n` events. */
  ghost predicate Picked(states: seq<Cache>, events: seq<Event>, functionEa: int, locals: seq<int>, n: nat, start: nat,
                         total: nat)
    requires |states| == |events| + 1 && n <= |events| && locals != []
  {
    forall o: nat :: o < total ==> PickedBy(states, events, functionEa, n, Place(locals, start, o))
  }

  /** Those places were picked, and the cursor stands behind them. */
  ghost predicate Swept(states: seq<Cache>, events: seq<Event>, functionEa: int, locals: seq<int>, n: nat, start: nat,
                        total: nat)
    requires |states| == |events| + 1 && n <= |events| && locals != []
  {
    && SamePlace(|locals|, states[n].Cursor(functionEa), start + total)
    && Picked(states, events, functionEa, locals, n, start, total)
  }

  lemma PickedStays(states: seq<Cache>, events: seq<Event>, functionEa: int, n: nat, x: int)
    requires |states| == |events| + 1 && n < |events| && PickedBy(states, events, functionEa, n, x)
    ensures PickedBy(states, events, functionEa, n + 1, x)
  {
  }

  /** An event that is not an uncached selection for the function leaves its cursor alone. */
  lemma OthersKeepCursor(before: Cache, ev: Event, after: Cache, functionEa: int)
    requires Step(before, ev, after) && !Uncached(before, ev, functionEa) && ev != Invalidate(true)
    ensures after.Cursor(functionEa) == before.Cursor(functionEa)
  {
  }

  /** One uncached selection sweeps at least as many places as the budget leaves free. */
  lemma OneTurn(before: Cache, ev: Event, after: Cache, functionEa: int, locals: seq<int>, budget: nat, k: nat)
    returns (count: nat)
    requires Step(before, ev, after) && Uncached(before, ev, functionEa)
    requires locals != [] && SteadyRequest(ev.call.req, locals, budget, k) && k < budget
    ensures count == |locals| || count >= budget - k
    ensures after.Cursor(functionEa) == (before.Cursor(functionEa) % |locals| + count) % |locals|
    ensures forall o: nat :: o < count ==> Place(locals, before.Cursor(functionEa) % |locals|, o) in ev.selected
  {
    var req, cursor := ev.call.req, before.Cursor(functionEa);
    var picked: seq<int> :| Chosen(req, picked) && ev.selected == Elements(picked)
                            && (Unfiltered(req) ==> SweepsSome(req, picked, cursor, after.cursors[functionEa]));
    assert Unfiltered(req);
    var swept: nat :| Sweeps(req, picked, cursor, after.cursors[functionEa], swept);
    count := swept;
  }

  lemma PickedOn(states: seq<Cache>, events: seq<Event>, functionEa: int, locals: seq<int>, n: nat, start: nat,
                 total: nat, count: nat)
    requires |states| == |events| + 1 && n < |events| && locals != []
    requires Swept(states, events, functionEa, locals, n, start, total)
    requires count > 0 ==> Uncached(states[n], events[n], functionEa)
    requires forall o: nat :: o < count ==>
             Place(locals, states[n].Cursor(functionEa) % |locals|, o) in events[n].selected
    ensures Picked(states, events, functionEa, locals, n + 1, start, total + count)
  {
    forall o: nat | o < total + count
      ensures PickedBy(states, events, functionEa, n + 1, Place(locals, start, o))
    {
      if o < total {
        PickedStays(states, events, functionEa, n, Place(locals, start, o));
      } else {
        PlaceOn(locals, states[n].Cursor(functionEa), start, total, o - total);
      }
    }
  }

  /** One event of a run keeps the account of swept places. */
  lemma EventSweeps(states: seq<Cache>, events: seq<Event>, functionEa: int, locals: seq<int>, budget: nat, k: nat,
                    n: nat, start: nat, total: nat)
      returns (total': nat)
    requires Run(states, events) && Steady(states, events, functionEa, locals, budget, k)
    requires locals != [] && k < budget && n < |events| && Swept(states, events, functionEa, locals, n, start, total)
    requires Enough(total, Turns(states, events, functionEa, n), budget - k, |locals|)
    ensures Swept(states, events, functionEa, locals, n + 1, start, total')
    ensures Enough(total', Turns(states, events, functionEa, n + 1), budget - k, |locals|)
  {
    assert Step(states[n], events[n], states[n + 1]);
    var cursor := states[n].Cursor(functionEa);
    if Uncached(states[n], events[n], functionEa) {
      var count := OneTurn(states[n], events[n], states[n + 1], functionEa, locals, budget, k);
      PickedOn(states, events, functionEa, locals, n, start, total, count);
      CursorOn(|locals|, cursor, states[n + 1].Cursor(functionEa), start + total, count);
      EnoughGrows(total, Turns(states, events, functionEa, n), budget - k, |locals|, count);
      total' := total + count;
    } else {
      OthersKeepCursor(states[n], events[n], states[n + 1], functionEa);
      PickedOn(states, events, functionEa, locals, n, start, total, 0);
      total' := total;
    }
  }

  lemma {:induction false} Progress(states: seq<Cache>, events: seq<Event>, functionEa: int, locals: seq<int>,
                                    budget: nat, k: nat, n: nat, start: nat)
      returns (total: nat)
    requires Run(states, events) && Steady(states, events, functionEa, locals, budget, k)
    requires locals != [] && k < budget && n <= |events| && SamePlace(|locals|, states[0].Cursor(functionEa), start)
    ensures Swept(states, events, functionEa, locals, n, start, total)
    ensures Enough(total, Turns(states, events, functionEa, n), budget - k, |locals|)
  {
    if n == 0 {
      total := 0;
    } else {
      total := Progress(states, events, functionEa, locals, budget, k, n - 1, start);
      total := EventSweeps(states, events, functionEa, locals, budget, k, n - 1, start, total);
    }
  }

  /**
    Fairness. In any run of the cache, whatever other functions are asked about in
    between, every local of a function is picked once its uncached selections number at
    least the locals divided by the places that priority rows leave free, rounded up.
   */
  lemma EveryLocalIsPicked(states: seq<Cache>, events: seq<Event>, functionEa: int, locals: seq<int>, budget: nat,
                           k: nat, x: int)
    requires Run(states, events) && Steady(states, events, functionEa, locals, budget, k) && k < budget
    requires x in locals && Turns(states, events, functionEa, |events|) * (budget - k) >= |locals|
    ensures PickedBy(states, events, functionEa, |events|, x)
  {
    var p :| 0 <= p < |locals| && locals[p] == x;
    var start := states[0].Cursor(functionEa) % |locals|;
    ModAdd(states[0].Cursor(functionEa), 0, |locals|);
    var total := Progress(states, events, functionEa, locals, budget, k, |events|, start);
    var o := RotationReaches(|locals|, start, p);
    assert Place(locals, start, o) == x;
  }
}
