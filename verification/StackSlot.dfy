/**
  `_stack_definition_remains_valid`: the straight-line scan from the write that defines
  a stack slot to the current PC.
 */
module StackSlot {

  /** A decoded instruction; `writes` are the stack ranges it may change, if they are `known`. */
  datatype Insn = Insn(size: int, known: bool, writes: seq<(int, int)>)

  type Code = map<int, Insn>

  const CAP: nat := 4096

  predicate Overlaps(w: (int, int), slot: int, width: int)
  {
    w.0 < slot + width && slot < w.0 + w.1
  }

  predicate Touches(insn: Insn, slot: int, width: int)
  {
    exists w :: w in insn.writes && Overlaps(w, slot, width)
  }

  predicate Covers(insn: Insn, slot: int, width: int)
  {
    exists w :: w in insn.writes && Overlaps(w, slot, width) && w.0 <= slot && w.0 + w.1 >= slot + width
  }

  predicate Decodes(code: Code, ea: int)
  {
    ea in code && code[ea].size > 0 && code[ea].known
  }

  /** Where the decode chain stands after `n` instructions. */
  function Address(code: Code, ea: int, n: nat): int
  {
    if n == 0 then ea
    else
      var before := Address(code, ea, n - 1);
      if before in code then before + code[before].size else before
  }

  ghost predicate Steps(code: Code, ea: int, n: nat)
  {
    forall k :: 0 <= k < n ==> Decodes(code, Address(code, ea, k))
  }

  /** After the first of `n` instructions none may touch the slot. */
  ghost predicate Untouched(code: Code, ea: int, n: nat, slot: int, width: int)
  {
    forall k :: 1 <= k < n && Address(code, ea, k) in code ==> !Touches(code[Address(code, ea, k)], slot, width)
  }

  ghost predicate Before(code: Code, ea: int, n: nat, currentEa: int)
  {
    forall k :: 0 <= k < n ==> Address(code, ea, k) < currentEa
  }

  /** The scan succeeds after `n` instructions. */
  ghost predicate Accepts(code: Code, ea: int, currentEa: int, slot: int, width: int, n: nat)
  {
    && 1 <= n < CAP && Before(code, ea, n, currentEa) && currentEa <= Address(code, ea, n)
    && Steps(code, ea, n) && Covers(code[Address(code, ea, 0)], slot, width) && Untouched(code, ea, n, slot, width)
  }

  method SomeTouch(writes: seq<(int, int)>, slot: int, width: int) returns (touches: bool, covers: bool)
    ensures touches <==> exists w :: w in writes && Overlaps(w, slot, width)
    ensures covers <==> exists w :: w in writes && Overlaps(w, slot, width) && w.0 <= slot && w.0 + w.1 >= slot + width
  {
    touches, covers := false, false;
    for i := 0 to |writes|
      invariant touches <==> exists w :: w in writes[..i] && Overlaps(w, slot, width)
      invariant covers <==>
                exists w :: w in writes[..i] && Overlaps(w, slot, width) && w.0 <= slot && w.0 + w.1 >= slot + width
    {
      assert writes[..i + 1] == writes[..i] + [writes[i]];
      if Overlaps(writes[i], slot, width) {
        touches := true;
        if writes[i].0 <= slot && writes[i].0 + writes[i].1 >= slot + width {
          covers := true;
        }
      }
    }
    assert writes[..|writes|] == writes;
  }

  /** At most one count of instructions can be the one the scan stops at. */
  lemma StopIsUnique(code: Code, ea: int, currentEa: int, slot: int, width: int, n: nat, i: nat)
    requires Accepts(code, ea, currentEa, slot, width, n) && Before(code, ea, i, currentEa)
    ensures i <= n
    ensures Address(code, ea, i) < currentEa ==> i < n
    ensures i < n ==>
            Decodes(code, Address(code, ea, i)) && (i > 0 ==> !Touches(code[Address(code, ea, i)], slot, width))
  {
  }

  method StackDefinitionRemainsValid(code: Code, definitionEa: int, currentEa: int, slot: int, width: int)
    returns (ok: bool)
    ensures ok <==> exists n: nat :: Accepts(code, definitionEa, currentEa, slot, width, n)
  {
    var ea, first := definitionEa, true;
    for i := 0 to CAP
      invariant ea == Address(code, definitionEa, i) && (first <==> i == 0)
      invariant Before(code, definitionEa, i, currentEa) && Steps(code, definitionEa, i)
      invariant Untouched(code, definitionEa, i, slot, width)
      invariant i > 0 ==> Covers(code[Address(code, definitionEa, 0)], slot, width)
    {
      forall n: nat | Accepts(code, definitionEa, currentEa, slot, width, n)
        ensures i <= n && (ea < currentEa ==> i < n)
        ensures i < n ==> Decodes(code, ea) && (i > 0 ==> !Touches(code[ea], slot, width))
      {
        StopIsUnique(code, definitionEa, currentEa, slot, width, n, i);
      }
      if ea >= currentEa {
        assert i > 0 ==> Accepts(code, definitionEa, currentEa, slot, width, i);
        return !first;
      }
      if ea !in code || code[ea].size <= 0 {
        return false;
      }
      if !code[ea].known {
        return false;
      }
      var touches, covers := SomeTouch(code[ea].writes, slot, width);
      if first {
        if !covers {
          return false;
        }
        first := false;
      } else if touches {
        return false;
      }
      ea := ea + code[ea].size;
    }
    forall n: nat | Accepts(code, definitionEa, currentEa, slot, width, n)
      ensures false
    {
      StopIsUnique(code, definitionEa, currentEa, slot, width, n, CAP);
    }
    return false;
  }

  // ---------------------------------------------------------------- what the scan means

  /** The bytes of the frame, by stack offset. */
  type Memory = int -> int

  predicate MayChange(insn: Insn, b: int)
  {
    exists w :: w in insn.writes && w.0 <= b < w.0 + w.1
  }

  /** The memories before and after each of `n` instructions of the chain, executed one after the other. */
  ghost predicate Execution(code: Code, ea: int, n: nat, mems: seq<Memory>)
  {
    && |mems| == n + 1 && Steps(code, ea, n)
    && forall k :: 0 <= k < n ==> Follows(code[Address(code, ea, k)], mems[k], mems[k + 1])
  }

  /** The instruction changes no byte outside its writes. */
  ghost predicate Follows(insn: Insn, before: Memory, after: Memory)
  {
    forall b :: !MayChange(insn, b) ==> after(b) == before(b)
  }

  /** In every execution, the slot holds at the end what the first instruction left there. */
  ghost predicate SlotSurvives(code: Code, ea: int, n: nat, slot: int, width: int)
    requires n > 0
  {
    forall mems: seq<Memory> :: Execution(code, ea, n, mems) ==> KeepsSlot(mems[1], mems[n], slot, width)
  }

  ghost predicate KeepsSlot(before: Memory, after: Memory, slot: int, width: int)
  {
    forall b :: slot <= b < slot + width ==> after(b) == before(b)
  }

  lemma ByteInSlot(insn: Insn, slot: int, width: int, b: int)
    requires slot <= b < slot + width && MayChange(insn, b)
    ensures Touches(insn, slot, width)
  {
    var w :| w in insn.writes && w.0 <= b < w.0 + w.1;
    assert Overlaps(w, slot, width);
  }

  lemma {:induction false} ByteStays(code: Code, ea: int, n: nat, slot: int, width: int, mems: seq<Memory>, b: int,
                                     k: nat)
    requires Execution(code, ea, n, mems) && Untouched(code, ea, n, slot, width)
    requires slot <= b < slot + width && 1 <= k <= n
    ensures mems[k](b) == mems[1](b)
  {
    if k > 1 {
      ByteStays(code, ea, n, slot, width, mems, b, k - 1);
      var insn := code[Address(code, ea, k - 1)];
      assert Follows(insn, mems[k - 1], mems[k - 1 + 1]);
      if MayChange(insn, b) {
        ByteInSlot(insn, slot, width, b);
      }
    }
  }

  /** An execution in which only instruction `k` does anything: it changes byte `b`. */
  lemma ChangedByte(code: Code, ea: int, n: nat, slot: int, width: int, k: nat, b: int)
    requires Steps(code, ea, n) && 1 <= k < n && slot <= b < slot + width && MayChange(code[Address(code, ea, k)], b)
    ensures !SlotSurvives(code, ea, n, slot, width)
  {
    var still: Memory := (x: int) => 0;
    var moved: Memory := (x: int) => if x == b then 1 else 0;
    var mems: seq<Memory> := seq(n + 1, (i: nat) => if i <= k then still else moved);
    assert |mems| == n + 1 && mems[1] == still && mems[n] == moved;
    forall i | 0 <= i < n
      ensures Follows(code[Address(code, ea, i)], mems[i], mems[i + 1])
    {
      assert mems[i] == (if i <= k then still else moved) && mems[i + 1] == (if i + 1 <= k then still else moved);
    }
    assert Execution(code, ea, n, mems);
    assert moved(b) == 1 && still(b) == 0;
    assert !KeepsSlot(mems[1], mems[n], slot, width);
  }

  /** Ranges of positive length that overlap share a byte. */
  lemma TouchedByte(insn: Insn, slot: int, width: int) returns (b: int)
    requires Touches(insn, slot, width) && width > 0 && forall w :: w in insn.writes ==> w.1 > 0
    ensures slot <= b < slot + width && MayChange(insn, b)
  {
    var w :| w in insn.writes && Overlaps(w, slot, width);
    b := if w.0 < slot then slot else w.0;
  }

  /**
    The test on the later instructions is exact: the slot survives in every execution if
    and only if none may touch it.
   */
  lemma SurvivesIffUntouched(code: Code, ea: int, n: nat, slot: int, width: int)
    requires n > 0 && Steps(code, ea, n) && width > 0
    requires forall a, w :: a in code && w in code[a].writes ==> w.1 > 0
    ensures SlotSurvives(code, ea, n, slot, width) <==> Untouched(code, ea, n, slot, width)
  {
    if Untouched(code, ea, n, slot, width) {
      forall mems: seq<Memory> | Execution(code, ea, n, mems)
        ensures KeepsSlot(mems[1], mems[n], slot, width)
      {
        forall b | slot <= b < slot + width
          ensures mems[n](b) == mems[1](b)
        {
          ByteStays(code, ea, n, slot, width, mems, b, n);
        }
      }
    } else {
      var k :| 1 <= k < n && Address(code, ea, k) in code && Touches(code[Address(code, ea, k)], slot, width);
      var b := TouchedByte(code[Address(code, ea, k)], slot, width);
      ChangedByte(code, ea, n, slot, width, k, b);
    }
  }

  /** One write of the instruction holds every byte of the slot. */
  ghost predicate WritesEveryByte(insn: Insn, slot: int, width: int)
  {
    exists w :: w in insn.writes && HoldsSlot(w, slot, width)
  }

  ghost predicate HoldsSlot(w: (int, int), slot: int, width: int)
  {
    forall b :: slot <= b < slot + width ==> InWrite(w, b)
  }

  predicate InWrite(w: (int, int), b: int)
  {
    w.0 <= b < w.0 + w.1
  }

  lemma CoversIff(insn: Insn, slot: int, width: int)
    requires width > 0
    ensures Covers(insn, slot, width) <==> WritesEveryByte(insn, slot, width)
  {
    forall w | w in insn.writes
      ensures HoldsSlot(w, slot, width)
              <==> Overlaps(w, slot, width) && w.0 <= slot && w.0 + w.1 >= slot + width
    {
      if HoldsSlot(w, slot, width) {
        assert InWrite(w, slot) && InWrite(w, slot + width - 1);
      }
    }
  }

  /**
    The scan is exact. It succeeds after `n` instructions, within its cap, if and only if
    they lead from the definition past the current PC, one write of the first holds every
    byte of the slot, and the slot survives every execution of the others.
   */
  lemma AcceptsIff(code: Code, ea: int, currentEa: int, slot: int, width: int, n: nat)
    requires width > 0 && forall a, w :: a in code && w in code[a].writes ==> w.1 > 0
    ensures Accepts(code, ea, currentEa, slot, width, n) <==>
            && 1 <= n < 4096 && Before(code, ea, n, currentEa) && currentEa <= Address(code, ea, n)
            && Steps(code, ea, n)
            && ea in code && WritesEveryByte(code[ea], slot, width) && SlotSurvives(code, ea, n, slot, width)
  {
    assert Address(code, ea, 0) == ea;
    if n >= 1 && Steps(code, ea, n) {
      assert Decodes(code, Address(code, ea, 0));
      CoversIff(code[ea], slot, width);
      SurvivesIffUntouched(code, ea, n, slot, width);
    }
  }

  /**
    If the scan accepts and the chain has an instruction boundary at the current PC, then
    in every execution from the definition to that PC each byte of the slot lies in the
    first instruction's write and still is what that instruction stored.
   */
  lemma AcceptedSlotIsTheDefinedOne(code: Code, ea: int, currentEa: int, slot: int, width: int, n: nat,
                                    mems: seq<Memory>, b: int)
    requires exists m: nat :: Accepts(code, ea, currentEa, slot, width, m)
    requires n > 0 && Address(code, ea, n) == currentEa && Execution(code, ea, n, mems) && slot <= b < slot + width
    ensures MayChange(code[ea], b) && mems[n](b) == mems[1](b)
  {
    var m: nat :| Accepts(code, ea, currentEa, slot, width, m);
    BoundaryIsTheStop(code, ea, currentEa, slot, width, m, n);
    ByteStays(code, ea, n, slot, width, mems, b, n);
    assert Address(code, ea, 0) == ea;
    var w :| w in code[ea].writes && Overlaps(w, slot, width) && w.0 <= slot && w.0 + w.1 >= slot + width;
    assert w.0 <= b < w.0 + w.1;
  }

  lemma {:induction false} AddressesGrow(code: Code, ea: int, i: nat, j: nat)
    requires i < j && Steps(code, ea, j)
    ensures Address(code, ea, i) < Address(code, ea, j)
    decreases j
  {
    assert Decodes(code, Address(code, ea, j - 1));
    if i < j - 1 {
      AddressesGrow(code, ea, i, j - 1);
    }
  }

  /** If the chain passes the current EA at all, it does so where the scan stops. */
  lemma BoundaryIsTheStop(code: Code, ea: int, currentEa: int, slot: int, width: int, m: nat, n: nat)
    requires Accepts(code, ea, currentEa, slot, width, m) && Steps(code, ea, n) && Address(code, ea, n) == currentEa
    ensures n == m
  {
    if m < n {
      AddressesGrow(code, ea, m, n);
    }
  }

  /** An accepted scan ends at the current PC exactly if the decode chain has a boundary there. */
  lemma LandsIff(code: Code, ea: int, currentEa: int, slot: int, width: int, m: nat)
    requires Accepts(code, ea, currentEa, slot, width, m)
    ensures Address(code, ea, m) == currentEa
            <==> exists n: nat :: Steps(code, ea, n) && Address(code, ea, n) == currentEa
  {
    if n: nat :| Steps(code, ea, n) && Address(code, ea, n) == currentEa {
      BoundaryIsTheStop(code, ea, currentEa, slot, width, m, n);
    }
  }

  /** The scan also accepts a PC inside an instruction: it stops past it. */
  lemma OvershootIsAccepted()
    ensures var code: Code := map[0 := Insn(4, true, [(0, 8)]), 4 := Insn(4, true, [])];
            Accepts(code, 0, 6, 0, 8, 2) && Address(code, 0, 2) == 8
  {
    var code: Code := map[0 := Insn(4, true, [(0, 8)]), 4 := Insn(4, true, [])];
    assert Address(code, 0, 0) == 0 && Address(code, 0, 1) == 4 && Address(code, 0, 2) == 8;
    assert (0, 8) in code[0].writes && Overlaps((0, 8), 0, 8);
    assert !Touches(code[4], 0, 8);
  }
}
