/** `_find_exact_microcode_point`: where the current native instruction stands in the microcode. */
module MicrocodePoint {
  import opened Basics

  /** The EAs of the microinstructions, block by block. */
  type Blocks = seq<seq<int>>

  /**
    The microinstructions of the native instruction at `ea` are those of block `b` from `p`
    up to `q`, and no others.
   */
  ghost predicate IsTheRun(blocks: Blocks, ea: int, b: nat, p: nat, q: nat)
  {
    && b < |blocks| && p < q <= |blocks[b]| && blocks[b][p] == ea
    && forall c, k :: 0 <= c < |blocks| && 0 <= k < |blocks[c]| ==> (blocks[c][k] == ea <==> c == b && p <= k < q)
  }

  /** The positions of `ea`, in order. */
  ghost predicate Positions(eas: seq<int>, ea: int, n: nat, positions: seq<nat>)
    requires n <= |eas|
  {
    && (forall i :: 0 <= i < |positions| ==> positions[i] < n && eas[positions[i]] == ea)
    && (forall i, j :: 0 <= i < j < |positions| ==> positions[i] < positions[j])
    && (forall k :: 0 <= k < n && eas[k] == ea ==> k in positions)
  }

  method FindPositions(eas: seq<int>, ea: int) returns (positions: seq<nat>)
    ensures Positions(eas, ea, |eas|, positions)
  {
    positions := [];
    for k := 0 to |eas|
      invariant Positions(eas, ea, k, positions)
    {
      if eas[k] == ea {
        ghost var before := positions;
        positions := positions + [k];
        assert forall x :: x in before ==> x in positions;
        assert positions[|before|] == k;
      }
    }
  }

  function Range(first: nat, n: nat): seq<nat>
  {
    seq(n, i => first + i)
  }

  /** One block's occurrences of `ea` are exactly the positions from `p` up to `q`. */
  ghost predicate RunIn(eas: seq<int>, ea: int, p: nat, q: nat)
  {
    p <= q <= |eas| && forall k :: 0 <= k < |eas| ==> (eas[k] == ea <==> p <= k < q)
  }

  lemma {:induction false} NoGap(eas: seq<int>, ea: int, positions: seq<nat>, p: nat, q: nat, i: nat)
    requires Positions(eas, ea, |eas|, positions) && RunIn(eas, ea, p, q) && i < |positions|
    ensures positions[i] == p + i
  {
    assert eas[positions[i]] == ea && p <= positions[i] < q;
    if i == 0 {
      assert eas[p] == ea && p in positions;
      var j :| 0 <= j < |positions| && positions[j] == p;
    } else {
      NoGap(eas, ea, positions, p, q, i - 1);
      assert positions[i - 1] < positions[i];
      assert eas[p + i] == ea && p + i in positions;
      var j :| 0 <= j < |positions| && positions[j] == p + i;
    }
  }

  /** The list of positions is a range exactly if the occurrences form one run. */
  lemma ContiguousIff(eas: seq<int>, ea: int, positions: seq<nat>)
    requires Positions(eas, ea, |eas|, positions) && positions != []
    ensures var first, last := positions[0], positions[|positions| - 1];
            && first <= last
            && (positions == Range(first, last + 1 - first) <==> RunIn(eas, ea, first, last + 1))
            && forall p, q :: RunIn(eas, ea, p, q) ==> p == first && q == last + 1
  {
    var first, last := positions[0], positions[|positions| - 1];
    assert |positions| > 1 ==> positions[0] < positions[|positions| - 1];
    if positions == Range(first, last + 1 - first) {
      forall k | first <= k < last + 1
        ensures k < |eas| && eas[k] == ea
      {
        assert positions[k - first] == k;
      }
      forall k | 0 <= k < |eas| && eas[k] == ea
        ensures first <= k < last + 1
      {
        var j :| 0 <= j < |positions| && positions[j] == k;
        assert positions[j] == first + j;
      }
    }
    forall p, q | RunIn(eas, ea, p, q)
      ensures p == first && q == last + 1 && positions == Range(first, last + 1 - first)
    {
      EndsOfRun(eas, ea, positions, p, q);
    }
  }

  lemma EndsOfRun(eas: seq<int>, ea: int, positions: seq<nat>, p: nat, q: nat)
    requires Positions(eas, ea, |eas|, positions) && positions != [] && RunIn(eas, ea, p, q)
    ensures p == positions[0] && q == positions[|positions| - 1] + 1 && positions == Range(p, q - p)
  {
    forall i | 0 <= i < |positions|
      ensures positions[i] == p + i
    {
      NoGap(eas, ea, positions, p, q, i);
    }
    assert eas[positions[0]] == ea;
    assert eas[q - 1] == ea && q - 1 in positions;
    var j :| 0 <= j < |positions| && positions[j] == q - 1;
  }

  /** `ea` does not occur among the first `n` blocks, except as the run `found`. */
  ghost predicate Searched(blocks: Blocks, ea: int, n: nat, found: seq<(nat, nat, nat)>)
    requires n <= |blocks|
  {
    && (forall m :: m in found ==> m.0 < n && m.1 < m.2 && RunIn(blocks[m.0], ea, m.1, m.2))
    && (forall c :: 0 <= c < n && ea in blocks[c] ==> exists m :: m in found && m.0 == c)
    && (forall i, j :: 0 <= i < j < |found| ==> found[i].0 < found[j].0)
  }

  /**
    The point is found exactly if all occurrences form one contiguous run in one block, and
    it is the first of them.
   */
  method FindExactPoint(blocks: Blocks, ea: int) returns (point: Option<(nat, nat)>)
    ensures point.Some? ==> exists q: nat :: IsTheRun(blocks, ea, point.value.0, point.value.1, q)
    ensures point.None? ==> forall b: nat, p: nat, q: nat :: !IsTheRun(blocks, ea, b, p, q)
  {
    var found: seq<(nat, nat, nat)> := [];
    for c := 0 to |blocks|
      invariant Searched(blocks, ea, c, found)
    {
      var positions := FindPositions(blocks[c], ea);
      if positions != [] {
        ContiguousIff(blocks[c], ea, positions);
        var first, last := positions[0], positions[|positions| - 1];
        if positions != Range(first, last + 1 - first) {
          Scattered(blocks, ea, c, first);
          return None;
        }
        ghost var before := found;
        found := found + [(c, first, last + 1)];
        assert found[|before|] == (c, first, last + 1);
        assert forall m :: m in before ==> m in found;
      }
    }
    if |found| != 1 {
      NotOne(blocks, ea, found);
      return None;
    }
    Only(blocks, ea, found);
    return Some((found[0].0, found[0].1));
  }

  /** A block whose occurrences are no run excludes a point. */
  lemma Scattered(blocks: Blocks, ea: int, c: nat, first: nat)
    requires c < |blocks| && first < |blocks[c]| && blocks[c][first] == ea && forall p, q :: !RunIn(blocks[c], ea, p, q)
    ensures forall b: nat, p: nat, q: nat :: !IsTheRun(blocks, ea, b, p, q)
  {
    forall b: nat, p: nat, q: nat | IsTheRun(blocks, ea, b, p, q)
      ensures false
    {
      assert b == c;
      assert RunIn(blocks[c], ea, p, q);
    }
  }

  lemma NotOne(blocks: Blocks, ea: int, found: seq<(nat, nat, nat)>)
    requires Searched(blocks, ea, |blocks|, found) && |found| != 1
    ensures forall b: nat, p: nat, q: nat :: !IsTheRun(blocks, ea, b, p, q)
  {
    if found == [] {
      assert forall c, k :: 0 <= c < |blocks| && 0 <= k < |blocks[c]| ==>
        blocks[c][k] in blocks[c] && blocks[c][k] != ea;
    } else {
      var x, y := found[0], found[1];
      assert x in found && y in found;
      TwoBlocks(blocks, ea, x.0, x.1, y.0, y.1);
    }
  }

  lemma TwoBlocks(blocks: Blocks, ea: int, b: nat, i: nat, c: nat, j: nat)
    requires b < c < |blocks| && i < |blocks[b]| && j < |blocks[c]| && blocks[b][i] == ea && blocks[c][j] == ea
    ensures forall b: nat, p: nat, q: nat :: !IsTheRun(blocks, ea, b, p, q)
  {
  }

  lemma Only(blocks: Blocks, ea: int, found: seq<(nat, nat, nat)>)
    requires Searched(blocks, ea, |blocks|, found) && |found| == 1
    ensures IsTheRun(blocks, ea, found[0].0, found[0].1, found[0].2)
  {
    var m := found[0];
    assert m in found;
    forall c, k | 0 <= c < |blocks| && 0 <= k < |blocks[c]|
      ensures blocks[c][k] == ea <==> c == m.0 && m.1 <= k < m.2
    {
      if blocks[c][k] == ea {
        assert ea in blocks[c];
      }
    }
  }
}
