/** `select_recovery_candidate_indexes`: a bounded, tiered and rotating choice of locals to analyse. */
module Selection {
  import opened Basics

  /**
    What the choice depends on: the sorted indexes of the non-argument locals, the sorted
    watched indexes, the indexes whose previous row is fresh or stale, the indexes whose
    row passes the active filter, and the largest number to pick.
   */
  datatype Request = Request(locals: seq<int>, watched: seq<int>, recent: set<int>, matching: set<int>, max: int)

  function Budget(req: Request): nat
  {
    if req.max > 0 then req.max else 0
  }

  /** The tier of a local; lower tiers go first. */
  function Rank(req: Request, index: int): nat
  {
    if index in req.watched then 0 else if index in req.recent then 1 else if index in req.matching then 2 else 3
  }

  function Priority(req: Request): set<int>
  {
    set i | i in req.locals && Rank(req, i) <= 1
  }

  // ---------------------------------------------------------------- counting

  lemma CountWhenAllPicked(locals: seq<int>, selected: seq<int>)
    requires Distinct(locals) && Distinct(selected) && (forall x :: x in selected ==> x in locals)
    ensures |selected| <= |locals|
    ensures (forall x :: x in locals ==> x in selected) ==> |selected| == |locals|
  {
    ElementCount(locals);
    ElementCount(selected);
    SubsetCount(Elements(selected), Elements(locals));
    if forall x :: x in locals ==> x in selected {
      SubsetCount(Elements(locals), Elements(selected));
    }
  }

  // ---------------------------------------------------------------- the tiers

  /**
    While tier `t` is being filled: nothing of a later tier is picked, earlier tiers are
    exhausted unless the budget is, and no pick was made over a better local.
   */
  ghost predicate Filling(req: Request, selected: seq<int>, t: nat)
  {
    && Distinct(selected) && |selected| <= Budget(req)
    && (forall a :: a in selected ==> a in req.locals && Rank(req, a) <= t)
    && (|selected| < Budget(req) ==> forall b :: b in req.locals && Rank(req, b) < t ==> b in selected)
    && Tiered(req, selected)
  }

  ghost predicate Tiered(req: Request, selected: seq<int>)
  {
    forall a, b :: a in selected && b in req.locals && b !in selected ==> Rank(req, a) <= Rank(req, b)
  }

  method Add(req: Request, selected: seq<int>, index: int, t: nat) returns (selected': seq<int>)
    requires Filling(req, selected, t) && (index in req.locals ==> Rank(req, index) <= t)
    ensures Filling(req, selected', t) && selected <= selected' && |selected'| <= |selected| + 1
    ensures index in selected' || index !in req.locals || |selected| == Budget(req)
  {
    if |selected| >= Budget(req) || index in selected || index !in req.locals {
      return selected;
    }
    selected' := selected + [index];
  }

  /** Once a whole tier was offered, the next one may begin. */
  lemma NextTier(req: Request, selected: seq<int>, t: nat)
    requires Filling(req, selected, t)
    requires |selected| == Budget(req) || forall b :: b in req.locals && Rank(req, b) == t ==> b in selected
    ensures Filling(req, selected, t + 1)
  {
  }

  lemma TakenOfPrefix(s: seq<int>, i: nat)
    requires i < |s|
    ensures forall x :: x in s[..i + 1] <==> x in s[..i] || x == s[i]
  {
    assert s[..i + 1] == s[..i] + [s[i]];
  }

  /** Offers the indexes in order; nothing is passed over unless the budget is used up. */
  method AddAll(req: Request, selected: seq<int>, indexes: seq<int>, t: nat) returns (selected': seq<int>)
    requires Filling(req, selected, t) && forall x :: x in indexes && x in req.locals ==> Rank(req, x) <= t
    ensures Filling(req, selected', t)
    ensures |selected'| == Budget(req) || forall x :: x in indexes && x in req.locals ==> x in selected'
  {
    selected' := selected;
    for i := 0 to |indexes|
      invariant Filling(req, selected', t)
      invariant |selected'| == Budget(req) || forall x :: x in indexes[..i] && x in req.locals ==> x in selected'
    {
      TakenOfPrefix(indexes, i);
      selected' := Add(req, selected', indexes[i], t);
    }
    assert indexes[..|indexes|] == indexes;
  }

  // ---------------------------------------------------------------- rotation

  /** The index `o` places after place `start`, going round. */
  function Place(indexes: seq<int>, start: nat, o: nat): int
    requires |indexes| > 0
  {
    indexes[(start + o) % |indexes|]
  }

  /** The first `count` places from `start` on are picked. */
  ghost predicate WindowPicked(indexes: seq<int>, start: nat, count: nat, selected: seq<int>)
    requires |indexes| > 0
  {
    forall o: nat :: o < count ==> Place(indexes, start, o) in selected
  }

  lemma SmallMultiple(d: int, n: nat)
    ensures d >= 1 ==> d * n >= n
    ensures d <= -1 ==> d * n <= -1 * n
  {
  }

  /** A quotient and a remainder determine the remainder. */
  lemma ModUnique(x: nat, n: nat, q: nat, r: nat)
    requires r < n && x == q * n + r
    ensures x % n == r
  {
    var d := x / n - q;
    assert d * n == r - x % n by {
      assert x == (x / n) * n + x % n;
      assert d * n == (x / n) * n - q * n;
    }
    SmallMultiple(d, n);
  }

  lemma ModAdd(x: nat, y: nat, n: nat)
    requires n > 0
    ensures (x % n + y) % n == (x + y) % n
  {
    var q := (x % n + y) / n;
    assert x % n + y == q * n + (x % n + y) % n;
    assert x + y == (x / n) * n + q * n + (x % n + y) % n;
    assert (x / n) * n + q * n == (x / n + q) * n;
    ModUnique(x + y, n, x / n + q, (x % n + y) % n);
  }

  lemma RotationReaches(n: nat, start: nat, p: nat) returns (o: nat)
    requires p < n && start < n
    ensures o < n && (start + o) % n == p
  {
    o := if p >= start then p - start else n - start + p;
    ModUnique(start + o, n, if p >= start then 0 else 1, p);
  }

  lemma AllWindow(indexes: seq<int>, start: nat, selected: seq<int>)
    requires 0 < |indexes| && start < |indexes| && WindowPicked(indexes, start, |indexes|, selected)
    ensures forall x :: x in indexes ==> x in selected
  {
    forall x | x in indexes
      ensures x in selected
    {
      var p :| 0 <= p < |indexes| && indexes[p] == x;
      var o := RotationReaches(|indexes|, start, p);
      assert Place(indexes, start, o) in selected;
    }
  }

  /** `add_rotating`: picks from `cursor` on until the budget is used up, and returns where it stopped. */
  method AddRotating(req: Request, selected: seq<int>, indexes: seq<int>, cursor: nat, t: nat)
      returns (selected': seq<int>, next: nat, ghost count: nat)
    requires Filling(req, selected, t) && forall x :: x in indexes ==> x in req.locals && Rank(req, x) <= t
    ensures Filling(req, selected', t) && selected <= selected'
    ensures |selected'| == Budget(req) || forall x :: x in indexes ==> x in selected'
    ensures indexes == [] || |selected| == Budget(req) ==> selected' == selected && next == cursor
    ensures indexes != [] && |selected| < Budget(req) ==>
              && count <= |indexes| && next == (cursor % |indexes| + count) % |indexes|
              && WindowPicked(indexes, cursor % |indexes|, count, selected')
              && (count == |indexes| || count >= Budget(req) - |selected|)
  {
    if indexes == [] || |selected| >= Budget(req) {
      return selected, cursor, 0;
    }
    var n := |indexes|;
    var start, added := cursor % n, 0;
    selected' := selected;
    for offset := 0 to n
      invariant added == offset && Filling(req, selected', t) && selected <= selected'
      invariant |selected'| < Budget(req) && |selected'| <= |selected| + offset
      invariant WindowPicked(indexes, start, offset, selected')
    {
      assert Place(indexes, start, offset) in indexes;
      selected' := Add(req, selected', Place(indexes, start, offset), t);
      added := offset + 1;
      if |selected'| >= Budget(req) {
        return selected', (start + added) % n, added;
      }
    }
    AllWindow(indexes, start, selected');
    return selected', (start + added) % n, added;
  }

  // ---------------------------------------------------------------- the whole choice

  ghost predicate WellFormed(req: Request)
  {
    Distinct(req.locals)
  }

  /** Bounded and exact in number, drawn from the locals, and tier by tier. */
  ghost predicate Chosen(req: Request, selected: seq<int>)
  {
    && Distinct(selected) && (forall a :: a in selected ==> a in req.locals)
    && |selected| == (if Budget(req) < |req.locals| then Budget(req) else |req.locals|)
    && Tiered(req, selected)
  }

  /** The active filter passes every local, and fewer than the budget have priority. */
  ghost predicate Unfiltered(req: Request)
  {
    req.locals != [] && (forall i :: i in req.locals ==> i in req.matching) && |Priority(req)| < Budget(req)
  }

  /**
    From `cursor` on, `count` places are picked, at least one for each free place of the
    budget, and the cursor moves past them.
   */
  ghost predicate Sweeps(req: Request, selected: seq<int>, cursor: nat, next: nat, count: nat)
    requires req.locals != []
  {
    var n := |req.locals|;
    && count <= n && next == (cursor % n + count) % n
    && WindowPicked(req.locals, cursor % n, count, selected)
    && (count == n || count >= Budget(req) - |Priority(req)|)
  }

  ghost predicate SweepsSome(req: Request, selected: seq<int>, cursor: nat, next: nat)
    requires req.locals != []
  {
    exists count: nat :: Sweeps(req, selected, cursor, next, count)
  }

  method Filter(req: Request, keep: set<int>) returns (kept: seq<int>)
    ensures forall x :: x in kept <==> x in req.locals && x in keep
    ensures (forall x :: x in req.locals ==> x in keep) ==> kept == req.locals
  {
    kept := [];
    for i := 0 to |req.locals|
      invariant forall x :: x in kept <==> x in req.locals[..i] && x in keep
      invariant (forall x :: x in req.locals ==> x in keep) ==> kept == req.locals[..i]
    {
      TakenOfPrefix(req.locals, i);
      assert req.locals[..i + 1] == req.locals[..i] + [req.locals[i]];
      if req.locals[i] in keep {
        kept := kept + [req.locals[i]];
      }
    }
    assert req.locals[..|req.locals|] == req.locals;
  }

  method Remaining(req: Request, selected: seq<int>) returns (rest: seq<int>)
    ensures forall x :: x in rest <==> x in req.locals && x !in selected
    ensures (forall x :: x in req.locals ==> x in selected) ==> rest == []
  {
    rest := [];
    for i := 0 to |req.locals|
      invariant forall x :: x in rest <==> x in req.locals[..i] && x !in selected
      invariant (forall x :: x in req.locals ==> x in selected) ==> rest == []
    {
      TakenOfPrefix(req.locals, i);
      if req.locals[i] !in selected {
        rest := rest + [req.locals[i]];
      }
    }
    assert req.locals[..|req.locals|] == req.locals;
  }

  /** Watched locals first, then those with a value. */
  method SelectPriority(req: Request) returns (selected: seq<int>)
    requires WellFormed(req)
    ensures Filling(req, selected, 2) && |selected| <= |Priority(req)|
  {
    selected := AddAll(req, [], req.watched, 0);
    NextTier(req, selected, 0);
    var recent := Filter(req, req.recent);
    selected := AddAll(req, selected, recent, 1);
    assert forall x :: x in selected ==> x in Priority(req);
    DistinctWithin(selected, Priority(req));
    NextTier(req, selected, 1);
  }

  /** The rotation moves as `Sweeps` says, when the filter shows everything. */
  lemma RotationSweeps(req: Request, before: seq<int>, selected: seq<int>, cursor: nat, next: nat, count: nat)
    requires Unfiltered(req) && |before| <= |Priority(req)|
    requires var n := |req.locals|;
             && count <= n && next == (cursor % n + count) % n && WindowPicked(req.locals, cursor % n, count, selected)
             && (count == n || count >= Budget(req) - |before|)
    ensures SweepsSome(req, selected, cursor, next)
  {
    assert Sweeps(req, selected, cursor, next, count);
  }

  /** The visible locals, in rotation. */
  method SelectVisible(req: Request, before: seq<int>, cursor: nat) returns (selected: seq<int>, next: nat)
    requires WellFormed(req) && Filling(req, before, 2) && |before| <= |Priority(req)|
    ensures Filling(req, selected, 3)
    ensures Unfiltered(req) ==> SweepsSome(req, selected, cursor, next)
    ensures Unfiltered(req) ==> |selected| == Budget(req) || forall x :: x in req.locals ==> x in selected
  {
    var visible := Filter(req, req.matching);
    ghost var count: nat;
    selected, next, count := AddRotating(req, before, visible, cursor, 2);
    if Unfiltered(req) {
      RotationSweeps(req, before, selected, cursor, next, count);
    }
    NextTier(req, selected, 2);
  }

  /** A full choice is a choice. */
  lemma FilledIsChosen(req: Request, selected: seq<int>)
    requires WellFormed(req) && Filling(req, selected, 3)
    requires |selected| == Budget(req) || forall x :: x in req.locals ==> x in selected
    ensures Chosen(req, selected)
  {
    CountWhenAllPicked(req.locals, selected);
  }

  /** As many locals are picked as there are, up to the limit; none if it is not positive. */
  lemma PicksUpToTheLimit(req: Request, selected: seq<int>)
    requires Chosen(req, selected)
    ensures |selected| == if req.max <= 0 then 0 else if req.max < |req.locals| then req.max else |req.locals|
  {
  }

  /** A pick over a local that is left out: a watched one only for a watched one, and so on down the tiers. */
  lemma BetterTiersFirst(req: Request, selected: seq<int>, a: int, b: int)
    requires Chosen(req, selected) && a in selected && b in req.locals && b !in selected
    ensures b in req.watched ==> a in req.watched
    ensures b in req.recent ==> a in req.watched || a in req.recent
    ensures b in req.matching ==> a in req.watched || a in req.recent || a in req.matching
  {
    assert Rank(req, a) <= Rank(req, b);
  }

  method Select(req: Request, cursor: nat) returns (selected: seq<int>, next: nat)
    requires WellFormed(req)
    ensures Chosen(req, selected)
    ensures Unfiltered(req) ==> SweepsSome(req, selected, cursor, next)
  {
    var before := SelectPriority(req);
    var visible, middle := SelectVisible(req, before, cursor);
    var remaining := Remaining(req, visible);
    selected, next := SelectRest(req, visible, remaining, middle);
  }

  /** Whatever is left, in rotation from where the visible locals stopped. */
  method SelectRest(req: Request, visible: seq<int>, remaining: seq<int>, cursor: nat)
    returns (selected: seq<int>, next: nat)
    requires WellFormed(req) && Filling(req, visible, 3)
    requires forall x :: x in remaining <==> x in req.locals && x !in visible
    ensures Chosen(req, selected)
    ensures remaining == [] || |visible| == Budget(req) ==> selected == visible && next == cursor
  {
    ghost var count: nat;
    selected, next, count := AddRotating(req, visible, remaining, cursor, 3);
    assert forall x :: x in visible ==> x in selected;
    FilledIsChosen(req, selected);
  }
}
