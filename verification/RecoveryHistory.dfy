/** The bounded observation history: a dictionary with deterministic eviction. */
module RecoveryHistory {
  import opened RecoveryModel

  ghost predicate DistinctKeys(h: History)
  {
    forall i, j :: 0 <= i < j < |h| ==> h[i].0 != h[j].0
  }

  lemma {:induction false} FindIsEntry(h: History, key: Key)
    ensures Find(h, key).Some? ==> (key, Find(h, key).value) in h
    ensures Find(h, key).None? ==> forall i :: 0 <= i < |h| ==> h[i].0 != key
  {
    if h != [] && h[0].0 != key {
      FindIsEntry(h[1..], key);
    }
  }

  /** `Put` changes the entry of its key in place, or appends one, and touches no other entry. */
  lemma {:induction false} PutSpec(h: History, key: Key, o: Observation)
    requires DistinctKeys(h)
    ensures DistinctKeys(Put(h, key, o))
    ensures forall x :: x in Put(h, key, o) <==> x == (key, o) || (x in h && x.0 != key)
    ensures if Find(h, key).Some? then |Put(h, key, o)| == |h| else Put(h, key, o) == h + [(key, o)]
  {
    if h != [] && h[0].0 == key {
      PutFirst(h, o);
    } else if h != [] {
      PutSpec(h[1..], key, o);
      PutLater(h, key, o);
    }
  }

  /** The other entries of a history have other keys than its first. */
  lemma TailKeys(h: History, x: (Key, Observation))
    requires DistinctKeys(h) && h != [] && x in h[1..]
    ensures x.0 != h[0].0
  {
    var i :| 0 <= i < |h[1..]| && h[1..][i] == x;
    assert h[i + 1] == x;
  }

  lemma PutFirst(h: History, o: Observation)
    requires DistinctKeys(h) && h != []
    ensures var key := h[0].0;
            && DistinctKeys(Put(h, key, o)) && |Put(h, key, o)| == |h| && Find(h, key).Some?
            && forall x :: x in Put(h, key, o) <==> x == (key, o) || (x in h && x.0 != key)
  {
    assert h == [h[0]] + h[1..];
    forall x | x in h[1..] ensures x.0 != h[0].0 {
      TailKeys(h, x);
    }
  }

  lemma PutLater(h: History, key: Key, o: Observation)
    requires DistinctKeys(h) && h != [] && h[0].0 != key && DistinctKeys(Put(h[1..], key, o))
    requires forall x :: x in Put(h[1..], key, o) <==> x == (key, o) || (x in h[1..] && x.0 != key)
    requires if Find(h[1..], key).Some? then |Put(h[1..], key, o)| == |h[1..]|
             else Put(h[1..], key, o) == h[1..] + [(key, o)]
    ensures DistinctKeys(Put(h, key, o))
    ensures forall x :: x in Put(h, key, o) <==> x == (key, o) || (x in h && x.0 != key)
    ensures if Find(h, key).Some? then |Put(h, key, o)| == |h| else Put(h, key, o) == h + [(key, o)]
  {
    var rest := Put(h[1..], key, o);
    assert h == [h[0]] + h[1..];
    forall x | x in rest ensures x.0 != h[0].0 {
      if x in h[1..] {
        TailKeys(h, x);
      }
    }
    ConsKeepsDistinct(h[0], rest);
  }

  lemma ConsKeepsDistinct(first: (Key, Observation), rest: History)
    requires DistinctKeys(rest) && forall x :: x in rest ==> x.0 != first.0
    ensures DistinctKeys([first] + rest)
  {
    forall i, j | 0 <= i < j < |rest| + 1
      ensures ([first] + rest)[i].0 != ([first] + rest)[j].0
    {
      assert rest[j - 1] in rest;
    }
  }

  lemma WithoutSpec(h: History, k: nat)
    requires k < |h| && DistinctKeys(h)
    ensures |Without(h, k)| == |h| - 1 && DistinctKeys(Without(h, k))
    ensures forall x :: x in Without(h, k) <==> x in h && x != h[k]
  {
    assert h == h[..k] + [h[k]] + h[k + 1..];
    forall x | x in h && x != h[k]
      ensures x in Without(h, k)
    {
      var i :| 0 <= i < |h| && h[i] == x;
      assert if i < k then h[..k][i] == x else h[k + 1..][i - k - 1] == x;
    }
  }

  lemma {:induction false} PruneSpec(h: History, max: nat)
    requires DistinctKeys(h)
    ensures DistinctKeys(Prune(h, max))
    ensures |Prune(h, max)| == if |h| <= max then |h| else max
    ensures forall x :: x in Prune(h, max) ==> x in h
    ensures forall x, y :: x in Prune(h, max) && y in h && y !in Prune(h, max) ==> y.1.pcSeq <= x.1.pcSeq
    decreases |h|
  {
    if |h| > max {
      var k := Oldest(h);
      var next := Without(h, k);
      WithoutSpec(h, k);
      PruneSpec(next, max);
      forall x, y | x in Prune(h, max) && y in h && y !in Prune(h, max)
        ensures y.1.pcSeq <= x.1.pcSeq
      {
        var i :| 0 <= i < |h| && h[i] == x;
      }
    }
  }

  /** Entry `j` goes before entry `i` when both cannot stay. */
  predicate GoesFirst(h: History, j: nat, i: nat)
    requires i < |h| && j < |h|
  {
    h[j].1.pcSeq < h[i].1.pcSeq || (h[j].1.pcSeq == h[i].1.pcSeq && j < i)
  }

  /** Where an entry stands once entry `k` is gone. */
  lemma WithoutAt(h: History, k: nat, i: nat)
    requires k < |h| && i < |h| && i != k
    ensures Without(h, k)[if i < k then i else i - 1] == h[i]
  {
  }

  /** Every dropped entry is before every kept one, by `pc_seq` and then by insertion. */
  lemma {:induction false} PruneOrder(h: History, max: nat, i: nat, j: nat)
    requires DistinctKeys(h) && i < |h| && j < |h| && h[i] in Prune(h, max) && h[j] !in Prune(h, max)
    ensures GoesFirst(h, j, i)
    decreases |h|
  {
    var k := Oldest(h);
    var next := Without(h, k);
    WithoutSpec(h, k);
    PruneSpec(next, max);
    if j != k {
      WithoutAt(h, k, i);
      WithoutAt(h, k, j);
      PruneOrder(next, max, if i < k then i else i - 1, if j < k then j else j - 1);
    }
  }

  /** Recording an observation: at most `max` entries remain, all of them old entries or the new one. */
  lemma RecordSpec(h: History, max: nat, key: Key, o: Observation)
    requires DistinctKeys(h)
    ensures DistinctKeys(Prune(Put(h, key, o), max))
    ensures |Prune(Put(h, key, o), max)| <= max
    ensures forall x :: x in Prune(Put(h, key, o), max) ==> x == (key, o) || (x in h && x.0 != key)
  {
    PutSpec(h, key, o);
    PruneSpec(Put(h, key, o), max);
  }

  /** An appended entry is the oldest exactly when it is strictly older than all others. */
  lemma OldestAppended(h: History, e: (Key, Observation))
    ensures Oldest(h + [e]) == |h| <==> forall x :: x in h ==> e.1.pcSeq < x.1.pcSeq
  {
    var p := h + [e];
    assert forall i :: 0 <= i < |h| ==> p[i] == h[i];
    var k := Oldest(p);
    assert p[k].1.pcSeq <= p[|h|].1.pcSeq;
    if k == |h| {
      forall x | x in h
        ensures e.1.pcSeq < x.1.pcSeq
      {
        var i :| 0 <= i < |h| && h[i] == x;
        assert p[k].1.pcSeq < p[i].1.pcSeq;
      }
    } else {
      assert h[k] in h;
    }
  }

  /**
    When the history is full and the key is new, the new observation is kept exactly
    when some older entry has a `pc_seq` that is not larger than its own. Otherwise it
    is always kept.
   */
  lemma NewObservationKeptIff(h: History, max: nat, key: Key, o: Observation)
    requires DistinctKeys(h) && |h| <= max && max >= 1
    ensures (key, o) in Prune(Put(h, key, o), max)
            <==> Find(h, key).Some? || |h| < max || exists x :: x in h && x.1.pcSeq <= o.pcSeq
  {
    var p := Put(h, key, o);
    PutSpec(h, key, o);
    if Find(h, key).None? && |h| == max {
      OldestAppended(h, (key, o));
      WithoutSpec(p, Oldest(p));
      assert Prune(p, max) == Without(p, Oldest(p));
      assert p[|h|] == (key, o);
    }
  }

  /** With `pc_seq` never decreasing, the newest observation survives pruning. */
  lemma NewestSurvives(h: History, max: nat, key: Key, o: Observation)
    requires DistinctKeys(h) && |h| <= max && max >= 1
    requires forall x :: x in h ==> x.1.pcSeq <= o.pcSeq
    ensures (key, o) in Prune(Put(h, key, o), max)
  {
    NewObservationKeptIff(h, max, key, o);
    if h != [] {
      assert h[0] in h;
    }
  }

  /** After a counter restart a full history drops every new observation at once. */
  lemma RestartedCounterLosesNewest(o: Observation, late: Observation, key: Key, other: Key)
    requires o.pcSeq < late.pcSeq && key != other
    ensures (key, o) !in Prune(Put([(other, late)], key, o), 1)
  {
    var h := [(other, late)];
    NewObservationKeptIff(h, 1, key, o);
    assert Find(h, key).None? by {
      FindIsEntry(h, key);
    }
  }
}
